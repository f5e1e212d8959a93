/** Immutable delta runs (MappedDeltaRun and the run merge of NodeArena in src/forest.cpp):
    lookup through a Bloom word and a fence index, and the k-way merge. */
module DeltaRuns {
  import opened Common
  import opened Records

  const FENCE: nat := 64

  ghost predicate SortedRun(run: Run) { forall i, j | 0 <= i < j < |run| :: run[i].id < run[j].id }

  lemma {:induction false} LookupFound(run: Run, i: nat)
    requires SortedRun(run) && i < |run|
    ensures Lookup(run, run[i].id) == Some(run[i].record)
    decreases i
  {
    if i > 0 { LookupFound(run[1..], i - 1); }
  }

  lemma {:induction false} LookupMissing(run: Run, id: NodeId)
    requires forall i | 0 <= i < |run| :: run[i].id != id
    ensures Lookup(run, id) == None
    decreases run
  {
    if run != [] {
      forall i | 0 <= i < |run[1..]| ensures run[1..][i].id != id { assert run[1..][i] == run[i + 1]; }
      LookupMissing(run[1..], id);
    }
  }

  lemma {:induction false} LookupSome(run: Run, id: NodeId) returns (i: nat)
    requires Lookup(run, id).Some?
    ensures i < |run| && run[i].id == id && run[i].record == Lookup(run, id).value
    decreases run
  {
    if run[0].id == id { i := 0; } else { i := LookupSome(run[1..], id); i := i + 1; }
  }

  // ---- Bloom word and fences ------------------------------------------------------------

  /** The two hash functions of the filter. */
  datatype Sketch = Sketch(mix: NodeId -> nat, mask: NodeId -> bv64)

  datatype IndexedRun = IndexedRun(records: Run, filter: seq<bv64>, fences: seq<NodeId>)

  predicate Covers(word: bv64, mask: bv64) { word & mask == mask }

  function Join(word: bv64, mask: bv64): bv64 { word | mask }

  function Slot(sk: Sketch, n: nat, id: NodeId): (k: nat)
    requires n > 0
    ensures k < n
  { sk.mix(id) % n }

  predicate MayContain(sk: Sketch, filter: seq<bv64>, id: NodeId) {
    filter != [] && Covers(filter[Slot(sk, |filter|, id)], sk.mask(id))
  }

  ghost predicate Indexed(sk: Sketch, run: IndexedRun) {
    && SortedRun(run.records)
    && Fenced(run.fences, run.records, |run.records|)
    && Filtered(sk, run.filter, run.records, |run.records|)
  }

  /** One fence for each block of the first n records: the id of its first record. */
  ghost predicate Fenced(fences: seq<NodeId>, records: Run, n: nat)
    requires n <= |records|
  {
    && |fences| == (n + FENCE - 1) / FENCE
    && forall k | 0 <= k < |fences| :: k * FENCE < n && fences[k] == records[k * FENCE].id
  }

  /** The filter admits each of the first n records. */
  ghost predicate Filtered(sk: Sketch, filter: seq<bv64>, records: Run, n: nat)
    requires n <= |records|
  { forall i | 0 <= i < n :: MayContain(sk, filter, records[i].id) }

  lemma OrKeeps(w: bv64, a: bv64, b: bv64)
    requires Covers(w, a)
    ensures Covers(Join(w, b), a)
  {}

  lemma OrSets(w: bv64, b: bv64)
    ensures Covers(Join(w, b), b)
  {}

  function Marked(sk: Sketch, filter: seq<bv64>, id: NodeId): seq<bv64>
    requires filter != []
  { filter[Slot(sk, |filter|, id) := Join(filter[Slot(sk, |filter|, id)], sk.mask(id))] }

  /** Setting the bits of one id keeps every id already in the filter. */
  lemma MarkKeeps(sk: Sketch, filter: seq<bv64>, id: NodeId, x: NodeId)
    requires filter != [] && MayContain(sk, filter, x)
    ensures MayContain(sk, Marked(sk, filter, id), x)
  {
    hide Covers, Slot, Join;
    var k, m := Slot(sk, |filter|, id), Slot(sk, |filter|, x);
    OrKeeps(filter[m], sk.mask(x), sk.mask(id));
    assert Marked(sk, filter, id)[m] == if k == m then Join(filter[m], sk.mask(id)) else filter[m];
  }

  lemma MarkSets(sk: Sketch, filter: seq<bv64>, id: NodeId)
    requires filter != []
    ensures MayContain(sk, Marked(sk, filter, id), id)
  {
    hide Covers, Slot, Join;
    OrSets(filter[Slot(sk, |filter|, id)], sk.mask(id));
  }

  lemma FilterStep(sk: Sketch, filter: seq<bv64>, records: Run, n: nat)
    requires n < |records| && filter != [] && Filtered(sk, filter, records, n)
    ensures Filtered(sk, Marked(sk, filter, records[n].id), records, n + 1)
  {
    hide MayContain, Marked;
    MarkSets(sk, filter, records[n].id);
    forall i | 0 <= i < n ensures MayContain(sk, Marked(sk, filter, records[n].id), records[i].id) {
      MarkKeeps(sk, filter, records[n].id, records[i].id);
    }
  }

  lemma FenceStep(fences: seq<NodeId>, records: Run, n: nat)
    requires n < |records| && Fenced(fences, records, n)
    ensures Fenced(if n % FENCE == 0 then fences + [records[n].id] else fences, records, n + 1)
  {
    if n % FENCE == 0 { assert |fences| * FENCE == n; }
  }

  /** Open a run: accept exactly the sorted ones below `next`, and index them. */
  method BuildIndex(sk: Sketch, records: Run, next: nat) returns (r: Option<IndexedRun>)
    ensures r.Some? <==> SortedRun(records) && forall i | 0 <= i < |records| :: records[i].id < next
    ensures r.Some? ==> r.value.records == records && Indexed(sk, r.value)
  {
    hide MayContain, Filtered, Fenced, Slot, Marked;
    var filter: seq<bv64> := seq((|records| + 7) / 8, _ => 0);
    var fences: seq<NodeId> := [];
    NothingIndexed(sk, filter, records);
    var i := 0;
    while i < |records|
      invariant 0 <= i <= |records| && (filter != [] <==> records != [])
      invariant forall j | 0 <= j < i :: records[j].id < next
      invariant SortedRun(records[..i]) && Fenced(fences, records, i) && Filtered(sk, filter, records, i)
    {
      var id := records[i].id;
      if id >= next || (i > 0 && id <= records[i - 1].id) { return None; }
      SortedSnoc(records, i);
      FenceStep(fences, records, i);
      FilterStep(sk, filter, records, i);
      if i % FENCE == 0 { fences := fences + [id]; }
      MarkSize(sk, filter, id);
      filter := Marked(sk, filter, id);
      i := i + 1;
    }
    assert records[..i] == records;
    r := Some(IndexedRun(records, filter, fences));
  }

  lemma MarkSize(sk: Sketch, filter: seq<bv64>, id: NodeId)
    requires filter != []
    ensures |Marked(sk, filter, id)| == |filter|
  {}

  lemma NothingIndexed(sk: Sketch, filter: seq<bv64>, records: Run)
    ensures Fenced([], records, 0) && Filtered(sk, filter, records, 0)
  {}

  lemma SortedSnoc(run: Run, i: nat)
    requires i < |run| && SortedRun(run[..i]) && (i > 0 ==> run[i - 1].id < run[i].id)
    ensures SortedRun(run[..i + 1])
  {
    var a, b := run[..i], run[..i + 1];
    forall j | 0 <= j < i ensures b[j].id < b[i].id {
      assert a[j] == b[j];
      if j < i - 1 { assert a[j].id < a[i - 1].id; }
    }
    forall j, k | 0 <= j < k < i ensures b[j].id < b[k].id { assert a[j].id < a[k].id; }
  }

  /** std::upper_bound: the first fence above the id. */
  method UpperBound(fences: seq<NodeId>, id: NodeId) returns (k: nat)
    requires forall i, j | 0 <= i < j < |fences| :: fences[i] < fences[j]
    ensures k <= |fences| && (forall i | 0 <= i < k :: fences[i] <= id) && forall i | k <= i < |fences| :: fences[i] > id
  {
    var lo, hi := 0, |fences|;
    while lo < hi
      invariant 0 <= lo <= hi <= |fences|
      invariant (forall i | 0 <= i < lo :: fences[i] <= id) && forall i | hi <= i < |fences| :: fences[i] > id
    {
      var mid := lo + (hi - lo) / 2;
      if fences[mid] <= id { lo := mid + 1; } else { hi := mid; }
    }
    k := lo;
  }

  /** Lookup through the filter and the fences never misses a stored record. */
  method Find(sk: Sketch, run: IndexedRun, id: NodeId) returns (r: Option<NodeRecord>)
    requires Indexed(sk, run)
    ensures r == Lookup(run.records, id)
  {
    hide Lookup, MayContain;
    var n := |run.records|;
    if !MayContain(sk, run.filter, id) {
      LookupMissing(run.records, id);
      return None;
    }
    FencesSorted(sk, run);
    var upper := UpperBound(run.fences, id);
    if upper == 0 {
      AboveFence(sk, run, id, 0);
      LookupMissing(run.records, id);
      return None;
    }
    var first: nat := (upper - 1) * FENCE;
    var last := if first + FENCE <= n then first + FENCE else n;
    AboveFence(sk, run, id, upper);
    BelowFence(sk, run, id, upper - 1);
    while first < last
      invariant first <= last <= n
      invariant (forall i | 0 <= i < first :: run.records[i].id < id) && forall i | last <= i < n :: run.records[i].id >= id
      decreases last - first
    {
      var middle := first + (last - first) / 2;
      if run.records[middle].id < id { first := middle + 1; } else { last := middle; }
    }
    if first == n || run.records[first].id != id {
      LookupMissing(run.records, id);
      return None;
    }
    LookupFound(run.records, first);
    return Some(run.records[first].record);
  }

  lemma FencesSorted(sk: Sketch, run: IndexedRun)
    requires Indexed(sk, run)
    ensures forall i, j | 0 <= i < j < |run.fences| :: run.fences[i] < run.fences[j]
  {
    hide MayContain;
  }

  /** Records at or past the first fence above the id have larger ids. */
  lemma AboveFence(sk: Sketch, run: IndexedRun, id: NodeId, k: nat)
    requires Indexed(sk, run) && k <= |run.fences| && forall i | k <= i < |run.fences| :: run.fences[i] > id
    ensures forall i | k * FENCE <= i < |run.records| :: run.records[i].id > id
  {
    hide MayContain;
    if k < |run.fences| {
      assert run.fences[k] == run.records[k * FENCE].id;
    }
  }

  /** Records before a fence at or below the id have smaller ids. */
  lemma BelowFence(sk: Sketch, run: IndexedRun, id: NodeId, k: nat)
    requires Indexed(sk, run) && k < |run.fences| && run.fences[k] <= id
    ensures forall i | 0 <= i < k * FENCE && i < |run.records| :: run.records[i].id < id
  {
    hide MayContain;
    assert run.fences[k] == run.records[k * FENCE].id;
  }

  lemma LookupPrefix(records: Run, k: nat, id: NodeId)
    requires SortedRun(records) && k < |records|
    ensures Lookup(records[..k + 1], id) == if id == records[k].id then Some(records[k].record) else Lookup(records[..k], id)
    ensures Lookup(records[..k], records[k].id) == None && Lookup(records, records[k].id) == Some(records[k].record)
  {
    hide Lookup;
    LookupFound(records, k);
    LookupMissing(records[..k], records[k].id);
    LookupFound(records[..k + 1], k);
    if id != records[k].id {
      if Lookup(records[..k], id).Some? {
        var i := LookupSome(records[..k], id);
        LookupFound(records[..k], i);
        LookupFound(records[..k + 1], i);
      } else if Lookup(records[..k + 1], id).Some? {
        var i := LookupSome(records[..k + 1], id);
        LookupFound(records[..k], i);
      }
    }
  }
}
