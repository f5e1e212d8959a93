/** Sealing the dirty map into a run, and compacting the runs into a snapshot relative to the
    base (SealDelta and CompactDeltas in src/forest.cpp). */
module Layering {
  import opened Common
  import opened Records
  import opened Ordered
  import opened DeltaRuns
  import opened RunMerge

  /** A run from a map: its entries in ascending order. */
  function RunOf(m: map<NodeId, NodeRecord>): Run {
    var ids := Ascending(m.Keys);
    AscendingIs(m.Keys);
    seq(|ids|, i requires 0 <= i < |ids| => assert ids[i] in Elements(ids); Entry(ids[i], m[ids[i]]))
  }

  lemma RunOfIs(m: map<NodeId, NodeRecord>, id: NodeId)
    ensures SortedRun(RunOf(m))
    ensures Lookup(RunOf(m), id) == if id in m then Some(m[id]) else None
  {
    hide Lookup, Ascending;
    var ids := Ascending(m.Keys);
    AscendingIs(m.Keys);
    var run := RunOf(m);
    if id in m {
      assert id in Elements(ids);
      var i :| 0 <= i < |ids| && ids[i] == id;
      LookupFound(run, i);
    } else {
      forall i | 0 <= i < |run| ensures run[i].id != id { assert ids[i] in Elements(ids); }
      LookupMissing(run, id);
    }
  }

  /** Sorted runs are determined by what they hold. */
  lemma SortedUnique(a: Run, b: Run)
    requires SortedRun(a) && SortedRun(b) && forall id: NodeId :: Lookup(a, id) == Lookup(b, id)
    ensures a == b
    decreases |a|
  {
    if a == [] {
      if b != [] { LookupFound(b, 0); }
    } else {
      LookupFound(a, 0);
      if b != [] { LookupFound(b, 0); }
      var i := LookupSome(b, a[0].id);
      var j := LookupSome(a, b[0].id);
      assert i == 0 && j == 0;
      forall id: NodeId ensures Lookup(a[1..], id) == Lookup(b[1..], id) { TailLookup(a, id); TailLookup(b, id); }
      SortedUnique(a[1..], b[1..]);
    }
  }

  lemma TailLookup(a: Run, id: NodeId)
    requires SortedRun(a) && a != []
    ensures Lookup(a[1..], id) == if id == a[0].id then None else Lookup(a, id)
  {
    if id == a[0].id {
      forall i | 0 <= i < |a[1..]| ensures a[1..][i].id != id { assert a[1..][i] == a[i + 1]; }
      LookupMissing(a[1..], id);
    }
  }

  // ---- sealing --------------------------------------------------------------------------

  function Visible(dirty: map<NodeId, NodeRecord>, next: nat): map<NodeId, NodeRecord> {
    map id | id in dirty && id < next :: dirty[id]
  }

  /** Dirty records below `next` become the newest run; those above are dropped. */
  function Seal(l: Layers, next: nat): Layers {
    l.(dirty := map[], runs := l.runs + [RunOf(Visible(l.dirty, next))])
  }

  lemma SealRead(l: Layers, next: nat, id: NodeId)
    requires id < next
    ensures Read(Seal(l, next), id) == Read(l, id)
  {
    hide RunOf, Lookup;
    RunOfIs(Visible(l.dirty, next), id);
    var run := RunOf(Visible(l.dirty, next));
    assert (l.runs + [run])[..|l.runs|] == l.runs;
  }

  /** A seal changes no visible record. */
  lemma SealView(l: Layers, next: nat)
    ensures View(Seal(l, next), next) == View(l, next)
  {
    hide Seal, Read;
    forall id: NodeId | id < next ensures Read(Seal(l, next), id) == Read(l, id) { SealRead(l, next, id); }
  }

  // ---- compaction -----------------------------------------------------------------------

  /** Equal, or both free: leftover contents of free slots do not matter. */
  predicate Alike(a: NodeRecord, b: NodeRecord) { a == b || (a.kind == FREE && b.kind == FREE) }

  /** The latest delta records below `next` that differ from the base. */
  function Changed(l: Layers, next: nat): map<NodeId, NodeRecord> {
    map id | id in DeltaIds(l.runs) && id < next && LookupAll(l.runs, id).Some? && !Alike(LookupAll(l.runs, id).value, BaseRecord(l, id))
      :: LookupAll(l.runs, id).value
  }

  function DeltaIds(runs: seq<Run>): set<NodeId> {
    set r, i | 0 <= r < |runs| && 0 <= i < |runs[r]| :: runs[r][i].id
  }

  lemma {:induction false} DeltaIdsHave(runs: seq<Run>, id: NodeId)
    requires LookupAll(runs, id).Some?
    ensures id in DeltaIds(runs)
    decreases |runs|
  {
    var last := |runs| - 1;
    if Lookup(runs[last], id).Some? {
      var i := LookupSome(runs[last], id);
      assert runs[last][i].id in DeltaIds(runs);
    } else {
      DeltaIdsHave(runs[..last], id);
      var r, i :| 0 <= r < |runs[..last]| && 0 <= i < |runs[..last][r]| && runs[..last][r][i].id == id;
      assert runs[r][i].id == id;
    }
  }

  function Compact(l: Layers, next: nat): Layers { l.(runs := [RunOf(Changed(l, next))]) }

  lemma CompactRead(l: Layers, next: nat, id: NodeId)
    requires id < next
    ensures Alike(Read(Compact(l, next), id), Read(l, id))
  {
    hide RunOf, Lookup, LookupAll;
    var run := RunOf(Changed(l, next));
    RunOfIs(Changed(l, next), id);
    OneRun(run, id);
    if LookupAll(l.runs, id).Some? { DeltaIdsHave(l.runs, id); }
  }

  lemma OneRun(run: Run, id: NodeId)
    ensures LookupAll([run], id) == Lookup(run, id)
  {
    assert [run][..0] == [];
  }

  /** Two views that agree up to the contents of free slots. */
  ghost predicate Similar(a: map<NodeId, NodeRecord>, b: map<NodeId, NodeRecord>) {
    a.Keys == b.Keys && forall id | id in a :: Alike(a[id], b[id])
  }

  lemma CompactView(l: Layers, next: nat)
    ensures Similar(View(Compact(l, next), next), View(l, next))
  {
    hide Compact, Read, Alike;
    forall id: NodeId | id < next ensures Alike(Read(Compact(l, next), id), Read(l, id)) { CompactRead(l, next, id); }
  }

  lemma SimilarTrans(a: map<NodeId, NodeRecord>, b: map<NodeId, NodeRecord>, c: map<NodeId, NodeRecord>)
    requires Similar(a, b) && Similar(b, c)
    ensures Similar(a, c) && Similar(b, a)
  {}

  /** The two passes of a compaction: merge, then keep what differs from the base. */
  method CompactRecords(l: Layers, next: nat) returns (run: Run)
    requires Sorted(l.runs)
    ensures run == RunOf(Changed(l, next))
  {
    hide Lookup, LookupAll, SortedRun, Changed, RunOf, Alike;
    var merged := Latest(l.runs, next);
    run := [];
    var i := 0;
    KeptNone(merged, l);
    while i < |merged|
      invariant 0 <= i <= |merged| && Kept(merged, l, i, run)
    {
      KeptStep(merged, l, i, run);
      if !Alike(merged[i].record, BaseRecord(l, merged[i].id)) { run := run + [merged[i]]; }
      i := i + 1;
    }
    KeptAll(merged, l, next, run);
  }

  /** `run` is what the filter keeps of the first i merged records. */
  ghost predicate Kept(merged: Run, l: Layers, i: nat, run: Run)
    requires i <= |merged|
  {
    && SortedRun(run)
    && (forall k | 0 <= k < |run| :: run[k] in merged[..i])
    && (forall j | 0 <= j < i && !Alike(merged[j].record, BaseRecord(l, merged[j].id)) :: merged[j] in run)
    && (forall k | 0 <= k < |run| :: !Alike(run[k].record, BaseRecord(l, run[k].id)))
  }

  lemma KeptNone(merged: Run, l: Layers)
    ensures Kept(merged, l, 0, [])
  {}

  lemma KeptStep(merged: Run, l: Layers, i: nat, run: Run)
    requires i < |merged| && SortedRun(merged) && Kept(merged, l, i, run)
    ensures Kept(merged, l, i + 1, if Alike(merged[i].record, BaseRecord(l, merged[i].id)) then run else run + [merged[i]])
  {
    hide Alike, BaseRecord, SortedRun;
    assert merged[..i + 1] == merged[..i] + [merged[i]];
    if !Alike(merged[i].record, BaseRecord(l, merged[i].id)) { KeptRises(merged, i, run); }
  }

  lemma KeptRises(merged: Run, i: nat, run: Run)
    requires i < |merged| && SortedRun(merged) && SortedRun(run) && forall k | 0 <= k < |run| :: run[k] in merged[..i]
    ensures SortedRun(run + [merged[i]])
  {
    forall k | 0 <= k < |run| ensures run[k].id < merged[i].id {
      var j :| 0 <= j < i && merged[j] == run[k];
    }
  }

  lemma KeptAll(merged: Run, l: Layers, next: nat, run: Run)
    requires SortedRun(merged) && Kept(merged, l, |merged|, run)
    requires forall id: NodeId :: Lookup(merged, id) == if id < next then LookupAll(l.runs, id) else None
    ensures run == RunOf(Changed(l, next))
  {
    hide Lookup, LookupAll, RunOf, SortedRun, Kept, Changed;
    RunOfIs(Changed(l, next), 0);
    KeptSorted(merged, l, run);
    forall id: NodeId ensures Lookup(run, id) == Lookup(RunOf(Changed(l, next)), id) {
      RunOfIs(Changed(l, next), id);
      KeptLookup(merged, l, run, id);
      ChangedIs(l, next, id);
    }
    SortedUnique(run, RunOf(Changed(l, next)));
  }

  lemma KeptSorted(merged: Run, l: Layers, run: Run)
    requires Kept(merged, l, |merged|, run)
    ensures SortedRun(run)
  {}

  lemma ChangedIs(l: Layers, next: nat, id: NodeId)
    ensures id in Changed(l, next) <==>
            id < next && LookupAll(l.runs, id).Some? && !Alike(LookupAll(l.runs, id).value, BaseRecord(l, id))
    ensures id in Changed(l, next) ==> Changed(l, next)[id] == LookupAll(l.runs, id).value
  {
    hide Alike, LookupAll;
    if LookupAll(l.runs, id).Some? { DeltaIdsHave(l.runs, id); }
  }

  lemma KeptLookup(merged: Run, l: Layers, run: Run, id: NodeId)
    requires SortedRun(merged) && Kept(merged, l, |merged|, run)
    ensures Lookup(run, id) == if Lookup(merged, id).Some? && !Alike(Lookup(merged, id).value, BaseRecord(l, id)) then Lookup(merged, id) else None
  {
    hide Alike, Lookup;
    if Lookup(run, id).Some? {
      var k := LookupSome(run, id);
      assert run[k] in merged[..|merged|];
      var j :| 0 <= j < |merged| && merged[j] == run[k];
      LookupFound(merged, j);
    } else if Lookup(merged, id).Some? {
      var j := LookupSome(merged, id);
      if !Alike(merged[j].record, BaseRecord(l, id)) {
        var k :| 0 <= k < |run| && run[k] == merged[j];
        LookupFound(run, k);
      }
    }
  }
}
