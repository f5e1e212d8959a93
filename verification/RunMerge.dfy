/** The k-way merge of delta runs (ForEachLatestDeltaRecordFrom in src/forest.cpp). The
    priority queue holds one cursor per run with records left, least id first, then oldest run. */
module RunMerge {
  import opened Common
  import opened Records
  import opened DeltaRuns

  ghost predicate Sorted(runs: seq<Run>) { forall r | 0 <= r < |runs| :: SortedRun(runs[r]) }

  ghost predicate Cursors(runs: seq<Run>, at: seq<nat>) {
    |at| == |runs| && forall r | 0 <= r < |runs| :: at[r] <= |runs[r]|
  }

  /** Records behind the cursors are below `low`, the others are at or above `high`. */
  ghost predicate Split(runs: seq<Run>, at: seq<nat>, low: nat, high: nat)
    requires Cursors(runs, at)
  {
    && (forall r, i | 0 <= r < |runs| && 0 <= i < at[r] :: runs[r][i].id < low)
    && (forall r, i | 0 <= r < |runs| && at[r] <= i < |runs[r]| :: runs[r][i].id >= high)
  }

  function Remaining(runs: seq<Run>, at: seq<nat>): nat
    requires |at| == |runs| && forall r | 0 <= r < |runs| :: at[r] <= |runs[r]|
    decreases |runs|
  {
    if runs == [] then 0
    else |runs[0]| - at[0] + Remaining(runs[1..], at[1..])
  }

  lemma {:induction false} RemainingStep(runs: seq<Run>, at: seq<nat>, r: nat)
    requires Cursors(runs, at) && r < |runs| && at[r] < |runs[r]|
    ensures Cursors(runs, at[r := at[r] + 1]) && Remaining(runs, at[r := at[r] + 1]) == Remaining(runs, at) - 1
    decreases r
  {
    if r > 0 {
      assert at[r := at[r] + 1][1..] == at[1..][r - 1 := at[1..][r - 1] + 1];
      RemainingStep(runs[1..], at[1..], r - 1);
    }
  }

  /** The top of the queue. */
  method Top(runs: seq<Run>, at: seq<nat>) returns (top: Option<nat>)
    requires Cursors(runs, at)
    ensures top.None? ==> forall r | 0 <= r < |runs| :: at[r] == |runs[r]|
    ensures top.Some? ==> top.value < |runs| && at[top.value] < |runs[top.value]|
    ensures top.Some? ==> forall r | 0 <= r < |runs| && at[r] < |runs[r]| :: runs[top.value][at[top.value]].id <= runs[r][at[r]].id
  {
    top := None;
    for r := 0 to |runs|
      invariant top.None? ==> forall s | 0 <= s < r :: at[s] == |runs[s]|
      invariant top.Some? ==> top.value < |runs| && at[top.value] < |runs[top.value]|
      invariant top.Some? ==> forall s | 0 <= s < r && at[s] < |runs[s]| :: runs[top.value][at[top.value]].id <= runs[s][at[s]].id
    {
      if at[r] < |runs[r]| && (top.None? || runs[r][at[r]].id < runs[top.value][at[top.value]].id) { top := Some(r); }
    }
  }

  lemma TopSplits(runs: seq<Run>, at: seq<nat>, low: nat, top: nat)
    requires Sorted(runs) && Cursors(runs, at) && Split(runs, at, low, low) && top < |runs| && at[top] < |runs[top]|
    requires forall r | 0 <= r < |runs| && at[r] < |runs[r]| :: runs[top][at[top]].id <= runs[r][at[r]].id
    ensures runs[top][at[top]].id >= low && Split(runs, at, low, runs[top][at[top]].id)
  {
    var id := runs[top][at[top]].id;
    forall r, i | 0 <= r < |runs| && at[r] <= i < |runs[r]| ensures runs[r][i].id >= id {
      assert SortedRun(runs[r]);
      if i > at[r] { assert runs[r][at[r]].id < runs[r][i].id; }
    }
  }

  lemma {:induction false} LookupAllNone(runs: seq<Run>, id: NodeId)
    requires forall r | 0 <= r < |runs| :: Lookup(runs[r], id).None?
    ensures LookupAll(runs, id) == None
    decreases |runs|
  {
    if runs != [] { LookupAllNone(runs[..|runs| - 1], id); }
  }

  lemma {:induction false} LookupAllNewest(runs: seq<Run>, id: NodeId, r: nat)
    requires r < |runs| && Lookup(runs[r], id).Some? && forall s | r < s < |runs| :: Lookup(runs[s], id).None?
    ensures LookupAll(runs, id) == Lookup(runs[r], id)
    decreases |runs|
  {
    if r < |runs| - 1 { LookupAllNewest(runs[..|runs| - 1], id, r); }
  }

  /** No record has an id in the gap of a split. */
  lemma GapMissing(runs: seq<Run>, at: seq<nat>, low: nat, high: nat, id: NodeId)
    requires Cursors(runs, at) && Split(runs, at, low, high) && low <= id < high
    ensures LookupAll(runs, id) == None
  {
    forall r | 0 <= r < |runs| ensures Lookup(runs[r], id).None? {
      forall i | 0 <= i < |runs[r]| ensures runs[r][i].id != id {}
      LookupMissing(runs[r], id);
    }
    LookupAllNone(runs, id);
  }

  /** While the occurrences of one id are consumed: the runs passed, and the newest of them. */
  ghost predicate Consuming(runs: seq<Run>, at: seq<nat>, id: NodeId, newest: Option<(nat, NodeRecord)>)
    requires Cursors(runs, at)
  {
    && Split(runs, at, id + 1, id)
    && (newest.Some? ==> newest.value.0 < |runs| && Lookup(runs[newest.value.0], id) == Some(newest.value.1))
    && (forall r, i | 0 <= r < |runs| && 0 <= i < at[r] && runs[r][i].id == id :: newest.Some? && r <= newest.value.0)
  }

  lemma ConsumeStep(runs: seq<Run>, at: seq<nat>, id: NodeId, newest: Option<(nat, NodeRecord)>, r: nat)
    requires Sorted(runs) && Cursors(runs, at) && Consuming(runs, at, id, newest)
    requires r < |runs| && at[r] < |runs[r]| && runs[r][at[r]].id == id
    ensures Cursors(runs, at[r := at[r] + 1])
    ensures Consuming(runs, at[r := at[r] + 1], id,
              if newest.None? || r > newest.value.0 then Some((r, runs[r][at[r]].record)) else newest)
  {
    assert SortedRun(runs[r]);
    LookupFound(runs[r], at[r]);
    var at' := at[r := at[r] + 1];
    forall s, i | 0 <= s < |runs| && at'[s] <= i < |runs[s]| ensures runs[s][i].id >= id { assert at[s] <= i; }
    forall s, i | 0 <= s < |runs| && 0 <= i < at'[s] ensures runs[s][i].id < id + 1 {
      assert i < at[s] || (s == r && i == at[r]);
    }
  }

  /** When no cursor is left at the id, the newest occurrence is what a read would find. */
  lemma ConsumeEnd(runs: seq<Run>, at: seq<nat>, id: NodeId, newest: Option<(nat, NodeRecord)>)
    requires Cursors(runs, at) && Consuming(runs, at, id, newest) && Split(runs, at, id + 1, id + 1) && newest.Some?
    ensures LookupAll(runs, id) == Some(newest.value.1)
  {
    forall s | newest.value.0 < s < |runs| ensures Lookup(runs[s], id).None? {
      forall i | 0 <= i < |runs[s]| ensures runs[s][i].id != id {}
      LookupMissing(runs[s], id);
    }
    LookupAllNewest(runs, id, newest.value.0);
  }

  /** Consume every occurrence of the least id and keep the newest record. */
  method TakeLeast(runs: seq<Run>, at: seq<nat>, top: nat, ghost low: nat) returns (id: NodeId, record: NodeRecord, at': seq<nat>)
    requires Sorted(runs) && Cursors(runs, at) && Split(runs, at, low, low) && top < |runs| && at[top] < |runs[top]|
    requires forall r | 0 <= r < |runs| && at[r] < |runs[r]| :: runs[top][at[top]].id <= runs[r][at[r]].id
    ensures id == runs[top][at[top]].id >= low && Cursors(runs, at') && Split(runs, at', id + 1, id + 1)
    ensures LookupAll(runs, id) == Some(record)
    ensures Remaining(runs, at') < Remaining(runs, at)
  {
    hide SortedRun, Lookup, LookupAll, Remaining;
    id := runs[top][at[top]].id;
    TopSplits(runs, at, low, top);
    at' := at;
    var newest: Option<(nat, NodeRecord)> := None;
    var next: Option<nat> := Some(top);
    while next.Some? && runs[next.value][at'[next.value]].id == id
      invariant Cursors(runs, at') && Consuming(runs, at', id, newest)
      invariant next.Some? ==> next.value < |runs| && at'[next.value] < |runs[next.value]|
      invariant next.Some? ==> forall r | 0 <= r < |runs| && at'[r] < |runs[r]| :: runs[next.value][at'[next.value]].id <= runs[r][at'[r]].id
      invariant next.None? ==> forall r | 0 <= r < |runs| :: at'[r] == |runs[r]|
      invariant newest.None? ==> at' == at && next == Some(top)
      invariant newest.Some? ==> Remaining(runs, at') < Remaining(runs, at)
      decreases Remaining(runs, at')
    {
      var r := next.value;
      ConsumeStep(runs, at', id, newest, r);
      RemainingStep(runs, at', r);
      if newest.None? || r > newest.value.0 { newest := Some((r, runs[r][at'[r]].record)); }
      at' := at'[r := at'[r] + 1];
      next := Top(runs, at');
    }
    AboveId(runs, at', id, next);
    ConsumeEnd(runs, at', id, newest);
    record := newest.value.1;
  }

  lemma AboveId(runs: seq<Run>, at: seq<nat>, id: NodeId, next: Option<nat>)
    requires Sorted(runs) && Cursors(runs, at) && Split(runs, at, id + 1, id)
    requires next.Some? ==> next.value < |runs| && at[next.value] < |runs[next.value]| && runs[next.value][at[next.value]].id != id
    requires next.Some? ==> forall r | 0 <= r < |runs| && at[r] < |runs[r]| :: runs[next.value][at[next.value]].id <= runs[r][at[r]].id
    requires next.None? ==> forall r | 0 <= r < |runs| :: at[r] == |runs[r]|
    ensures Split(runs, at, id + 1, id + 1)
  {
    forall r, i | 0 <= r < |runs| && at[r] <= i < |runs[r]| ensures runs[r][i].id >= id + 1 {
      assert SortedRun(runs[r]);
      assert runs[next.value][at[next.value]].id >= id;
      if i > at[r] { assert runs[r][at[r]].id < runs[r][i].id; }
    }
  }

  /** What has been emitted is right for every id below `low`. */
  ghost predicate Emitted(runs: seq<Run>, next: nat, out: Run, low: nat) {
    && SortedRun(out) && (forall i | 0 <= i < |out| :: out[i].id < low)
    && forall id: NodeId | id < low :: Lookup(out, id) == if id < next then LookupAll(runs, id) else None
  }

  lemma EmitStep(runs: seq<Run>, at: seq<nat>, next: nat, out: Run, low: nat, id: NodeId, record: NodeRecord)
    requires Cursors(runs, at) && Split(runs, at, low, id) && low <= id && Emitted(runs, next, out, low)
    requires LookupAll(runs, id) == Some(record)
    ensures Emitted(runs, next, if id < next then out + [Entry(id, record)] else out, id + 1)
  {
    hide LookupAll, Split;
    var out' := if id < next then out + [Entry(id, record)] else out;
    forall x: NodeId | x < id + 1 ensures Lookup(out', x) == if x < next then LookupAll(runs, x) else None {
      LookupSnoc(out, id, record, x);
      if low <= x < id { GapMissing(runs, at, low, id, x); }
      if low <= x { LookupMissing(out, x); }
    }
  }

  lemma {:induction false} LookupSnoc(out: Run, id: NodeId, record: NodeRecord, x: NodeId)
    ensures Lookup(out + [Entry(id, record)], x) == if Lookup(out, x).Some? then Lookup(out, x) else if x == id then Some(record) else None
    decreases out
  {
    if out == [] {
      assert (out + [Entry(id, record)])[1..] == [];
    } else {
      assert (out + [Entry(id, record)])[1..] == out[1..] + [Entry(id, record)];
      LookupSnoc(out[1..], id, record, x);
    }
  }

  /** Every id once, ascending, with its newest record. */
  method Latest(runs: seq<Run>, next: nat) returns (out: Run)
    requires Sorted(runs)
    ensures SortedRun(out)
    ensures forall id: NodeId :: Lookup(out, id) == if id < next then LookupAll(runs, id) else None
  {
    hide SortedRun, Lookup, LookupAll, Remaining, Split, Emitted;
    var at: seq<nat> := seq(|runs|, _ => 0);
    out := [];
    ghost var low: nat := 0;
    NothingEmitted(runs, at, next);
    var top: Option<nat> := Top(runs, at);
    while top.Some?
      invariant Cursors(runs, at) && Split(runs, at, low, low) && Emitted(runs, next, out, low)
      invariant top.None? ==> forall r | 0 <= r < |runs| :: at[r] == |runs[r]|
      invariant top.Some? ==> top.value < |runs| && at[top.value] < |runs[top.value]|
      invariant top.Some? ==> forall r | 0 <= r < |runs| && at[r] < |runs[r]| :: runs[top.value][at[top.value]].id <= runs[r][at[r]].id
      decreases Remaining(runs, at), top.Some?
    {
      TopSplits(runs, at, low, top.value);
      var id, record, at' := TakeLeast(runs, at, top.value, low);
      EmitStep(runs, at, next, out, low, id, record);
      if id < next { out := out + [Entry(id, record)]; }
      at, low := at', id + 1;
      top := Top(runs, at);
    }
    AllEmitted(runs, at, next, out, low);
  }

  lemma NothingEmitted(runs: seq<Run>, at: seq<nat>, next: nat)
    requires at == seq(|runs|, _ => 0)
    ensures Cursors(runs, at) && Split(runs, at, 0, 0) && Emitted(runs, next, [], 0)
  {}

  lemma AllEmitted(runs: seq<Run>, at: seq<nat>, next: nat, out: Run, low: nat)
    requires Cursors(runs, at) && Split(runs, at, low, low) && Emitted(runs, next, out, low)
    requires forall r | 0 <= r < |runs| :: at[r] == |runs[r]|
    ensures SortedRun(out)
    ensures forall id: NodeId :: Lookup(out, id) == if id < next then LookupAll(runs, id) else None
  {
    hide LookupAll, Lookup;
    forall id: NodeId ensures Lookup(out, id) == if id < next then LookupAll(runs, id) else None {
      if id >= low {
        assert Split(runs, at, low, id + 1);
        GapMissing(runs, at, low, id + 1, id);
        LookupMissing(out, id);
      }
    }
  }
}
