/** Reading the records window by window: the base, then every run from oldest to newest, then the
    dirty records, each consumed once through a cursor (ForEachWindow in src/forest.cpp). */
module Windows {
  import opened Common
  import opened Records
  import opened DeltaRuns
  import opened RunMerge
  import opened Layering

  /** The records below `n`, one by one. */
  function RecordsOf(l: Layers, n: nat): seq<NodeRecord> { seq(n, i requires 0 <= i < n => Read(l, i)) }

  lemma RecordsLength(l: Layers, n: nat)
    ensures |RecordsOf(l, n)| == n
  {}

  /** The cursor stands at the first record at or above `bound`. */
  ghost predicate At(run: Run, c: nat, bound: nat) {
    && c <= |run|
    && (forall i | 0 <= i < c :: run[i].id < bound)
    && (forall i | c <= i < |run| :: run[i].id >= bound)
  }

  function Over(run: Run, id: NodeId, under: NodeRecord): NodeRecord {
    if Lookup(run, id).Some? then Lookup(run, id).value else under
  }

  lemma OverNothing(run: Run, c: nat, first: nat, id: NodeId, under: NodeRecord)
    requires At(run, c, first) && id >= first
    ensures Over(run[..c], id, under) == under
  {
    hide Lookup;
    LookupMissing(run[..c], id);
  }

  lemma OverStep(run: Run, c: nat, id: NodeId, under: NodeRecord)
    requires SortedRun(run) && c < |run|
    ensures Over(run[..c + 1], id, under) == if id == run[c].id then run[c].record else Over(run[..c], id, under)
  {
    hide Lookup;
    LookupPrefix(run, c, id);
  }

  lemma OverAll(run: Run, c: nat, end: nat, id: NodeId, under: NodeRecord)
    requires SortedRun(run) && At(run, c, end) && id < end
    ensures Over(run[..c], id, under) == Over(run, id, under)
  {
    hide Lookup;
    if Lookup(run, id).Some? {
      var i := LookupSome(run, id);
      assert run[..c][i] == run[i];
      LookupFound(run, i);
      LookupFound(run[..c], i);
    } else if Lookup(run[..c], id).Some? {
      var i := LookupSome(run[..c], id);
      LookupFound(run, i);
    }
  }

  /** Lay the part of a run that falls into the window over the records, moving its cursor on. */
  method LayRun(run: Run, c: nat, first: nat, records: seq<NodeRecord>) returns (out: seq<NodeRecord>, c': nat)
    requires SortedRun(run) && At(run, c, first)
    ensures |out| == |records| && At(run, c', first + |records|)
    ensures forall i: nat | i < |records| :: out[i] == Over(run, first + i, records[i])
  {
    hide Over, SortedRun;
    out, c' := records, c;
    forall i: nat | i < |records| ensures out[i] == Over(run[..c], first + i, records[i]) { OverNothing(run, c, first, first + i, records[i]); }
    while c' < |run| && run[c'].id < first + |records|
      invariant c <= c' <= |run| && |out| == |records|
      invariant forall i | 0 <= i < c' :: run[i].id < first + |records|
      invariant forall i: nat | i < |records| :: out[i] == Over(run[..c'], first + i, records[i])
    {
      forall i: nat | i < |records|
        ensures Over(run[..c' + 1], first + i, records[i]) == if first + i == run[c'].id then run[c'].record else Over(run[..c'], first + i, records[i])
      {
        OverStep(run, c', first + i, records[i]);
      }
      out := out[run[c'].id - first := run[c'].record];
      c' := c' + 1;
    }
    RestAbove(run, c', first + |records|);
    forall i: nat | i < |records| ensures out[i] == Over(run, first + i, records[i]) { OverAll(run, c', first + |records|, first + i, records[i]); }
  }

  lemma RestAbove(run: Run, c: nat, bound: nat)
    requires SortedRun(run) && c <= |run| && (c < |run| ==> run[c].id >= bound) && forall i | 0 <= i < c :: run[i].id < bound
    ensures At(run, c, bound)
  {}

  ghost predicate AllAt(runs: seq<Run>, cs: seq<nat>, bound: nat) {
    |cs| == |runs| && forall r | 0 <= r < |runs| :: At(runs[r], cs[r], bound)
  }

  /** What base and the first r runs hold. */
  function Under(l: Layers, r: nat, id: NodeId): NodeRecord
    requires r <= |l.runs|
  { if LookupAll(l.runs[..r], id).Some? then LookupAll(l.runs[..r], id).value else BaseRecord(l, id) }

  lemma UnderStep(l: Layers, r: nat, id: NodeId)
    requires r < |l.runs|
    ensures Under(l, r + 1, id) == Over(l.runs[r], id, Under(l, r, id))
  {
    hide Lookup;
    assert l.runs[..r + 1][..r] == l.runs[..r] && l.runs[..r + 1][r] == l.runs[r];
  }

  lemma UnderAll(l: Layers, next: nat, id: NodeId)
    requires id < next
    ensures Under(l, 0, id) == BaseRecord(l, id)
    ensures Over(RunOf(Visible(l.dirty, next)), id, Under(l, |l.runs|, id)) == Read(l, id)
  {
    hide Lookup, RunOf;
    RunOfIs(Visible(l.dirty, next), id);
    assert l.runs[..0] == [] && l.runs[..|l.runs|] == l.runs;
  }

  /** One window, from base, runs and dirty records. */
  method ReadWindow(l: Layers, next: nat, dirty: Run, first: nat, count: nat, cursors: seq<nat>, cursor: nat)
    returns (records: seq<NodeRecord>, cursors': seq<nat>, cursor': nat)
    requires Sorted(l.runs) && first + count <= next && dirty == RunOf(Visible(l.dirty, next))
    requires AllAt(l.runs, cursors, first) && At(dirty, cursor, first)
    ensures |records| == count && AllAt(l.runs, cursors', first + count) && At(dirty, cursor', first + count)
    ensures forall i: nat | i < count :: records[i] == Read(l, first + i)
  {
    hide At, Over, Under, Read, SortedRun, RunOf, BaseRecord;
    records := seq(count, i requires 0 <= i < count => BaseRecord(l, first + i));
    forall i: nat | i < count ensures records[i] == Under(l, 0, first + i) { UnderAll(l, next, first + i); }
    cursors' := cursors;
    var r: nat := 0;
    while r < |l.runs|
      invariant r <= |l.runs| == |cursors'| && |records| == count
      invariant forall k | 0 <= k < r :: At(l.runs[k], cursors'[k], first + count)
      invariant forall k | r <= k < |l.runs| :: At(l.runs[k], cursors'[k], first)
      invariant forall i: nat | i < count :: records[i] == Under(l, r, first + i)
    {
      ghost var was := records;
      var c: nat;
      records, c := LayRun(l.runs[r], cursors'[r], first, records);
      forall i: nat | i < count ensures records[i] == Under(l, r + 1, first + i) {
        assert was[i] == Under(l, r, first + i);
        UnderStep(l, r, first + i);
      }
      cursors' := cursors'[r := c];
      r := r + 1;
    }
    RunOfIs(Visible(l.dirty, next), 0);
    ghost var was := records;
    records, cursor' := LayRun(dirty, cursor, first, records);
    forall i: nat | i < count ensures records[i] == Read(l, first + i) {
      assert was[i] == Under(l, |l.runs|, first + i);
      UnderAll(l, next, first + i);
    }
  }

  /** Window after window, every record below `next` is delivered once and in order. */
  method ForEachWindow(l: Layers, next: nat, slots: nat) returns (all: seq<NodeRecord>)
    requires Sorted(l.runs) && slots > 0
    ensures all == RecordsOf(l, next)
  {
    hide Read, RunOf, SortedRun;
    all := [];
    var cursors: seq<nat> := seq(|l.runs|, _ => 0);
    var dirty := RunOf(Visible(l.dirty, next));
    var cursor: nat := 0;
    while |all| < next
      invariant |all| <= next && AllAt(l.runs, cursors, |all|) && At(dirty, cursor, |all|)
      invariant forall i: nat | i < |all| :: all[i] == Read(l, i)
      decreases next - |all|
    {
      var first := |all|;
      var count := if slots <= next - first then slots else next - first;
      var records: seq<NodeRecord>;
      records, cursors, cursor := ReadWindow(l, next, dirty, first, count, cursors, cursor);
      all := all + records;
    }
  }
}
