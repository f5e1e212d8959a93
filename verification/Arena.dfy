/** The mapped node arena (NodeArena in src/forest.cpp): layered records, an allocator with a
    lazy free stack, and block transactions. */
module Arena {
  import opened Common
  import opened Records
  import opened Ordered
  import opened DeltaRuns
  import opened RunMerge
  import opened Layering
  import opened CleanRecords

  /** What a transaction remembers about a record it is about to change. */
  datatype Original = Original(record: NodeRecord, wasDirty: bool)

  datatype FreeOperation = Freed(id: NodeId) | Taken(id: NodeId)

  /** The free ids and the counters. */
  datatype Books = Books(freeSet: set<NodeId>, next: nat, live: nat)

  /** From `a` ids were only given out, at least `k` of them; a fresh one only when none was free. */
  ghost predicate Took(a: Books, b: Books, k: nat) {
    b.freeSet <= a.freeSet && a.live + k <= b.live && a.next <= b.next && (b.next == a.next || b.freeSet == {})
  }

  lemma TookTwice(a: Books, b: Books, c: Books, j: nat, k: nat)
    requires Took(a, b, j) && Took(b, c, k)
    ensures Took(a, c, j + k)
  {}

  lemma TookNothing(a: Books)
    ensures Took(a, a, 0)
  {}

  /** What held when the transaction began. */
  datatype Held = Held(dirty: map<NodeId, NodeRecord>, books: Books)

  ghost predicate StackHolds(free: seq<NodeId>, freeSet: set<NodeId>) {
    forall id | id in freeSet :: id in free
  }

  /** Nothing on the stack is stale. */
  ghost predicate Exact(free: seq<NodeId>, freeSet: set<NodeId>) {
    freeSet == Elements(free) && forall i, j | 0 <= i < j < |free| :: free[i] != free[j]
  }

  lemma ExactPop(free: seq<NodeId>, freeSet: set<NodeId>)
    requires Exact(free, freeSet) && free != []
    ensures Exact(free[..|free| - 1], freeSet - {free[|free| - 1]})
  {}

  lemma ExactPush(free: seq<NodeId>, freeSet: set<NodeId>, id: NodeId)
    requires Exact(free, freeSet) && id !in freeSet
    ensures Exact(free + [id], freeSet + {id})
  {}

  lemma {:induction false} ExactCount(free: seq<NodeId>, freeSet: set<NodeId>)
    requires Exact(free, freeSet)
    ensures |freeSet| == |free|
    decreases |free|
  {
    if free == [] {
      assert freeSet == {};
    } else {
      ExactPop(free, freeSet);
      ExactCount(free[..|free| - 1], freeSet - {free[|free| - 1]});
    }
  }

  /** Ids were drawn from the top of the stack only, at most `k` of them; `node` is the last one, or
      `before` if there was none. */
  ghost predicate Draws(a: seq<NodeId>, b: seq<NodeId>, before: NodeId, node: NodeId, k: nat) {
    b <= a && |a| <= |b| + k && node == if |b| == |a| then before else a[|b|]
  }

  lemma DrawsTwice(a: seq<NodeId>, b: seq<NodeId>, c: seq<NodeId>, before: NodeId, node: NodeId, middle: NodeId, last: NodeId, j: nat, k: nat)
    requires Draws(a, b, before, node, j) && Draws(b, c, middle, last, k) && (last == middle ==> node == middle)
    ensures Draws(a, c, before, last, j + k)
  {}

  /** A stack that holds `k` ids feeds them all, and nothing fresh is needed. */
  ghost predicate Feeds(a: seq<NodeId>, next: nat, b: seq<NodeId>, next': nat, before: NodeId, node: NodeId, k: nat) {
    |a| >= k ==> next' == next && Draws(a, b, before, node, k)
  }

  /** The ids are on top of the stack now, with at most one more for each of them. */
  ghost predicate Pushes(a: seq<NodeId>, b: seq<NodeId>, ids: set<NodeId>, k: nat) {
    a <= b && |b| <= |a| + 2 * k && forall id | id in ids :: id in b[|a|..]
  }

  lemma PushesTwice(a: seq<NodeId>, b: seq<NodeId>, c: seq<NodeId>, ids: set<NodeId>, more: set<NodeId>, j: nat, k: nat)
    requires Pushes(a, b, ids, j) && Pushes(b, c, more, k)
    ensures Pushes(a, c, ids + more, j + k)
  {
    assert c[|a|..] == b[|a|..] + c[|b|..];
  }

  lemma StackPop(free: seq<NodeId>, freeSet: set<NodeId>)
    requires StackHolds(free, freeSet) && free != []
    ensures StackHolds(free[..|free| - 1], freeSet - {free[|free| - 1]})
  {}

  lemma StackPush(free: seq<NodeId>, freeSet: set<NodeId>, id: NodeId)
    requires StackHolds(free, freeSet)
    ensures StackHolds(free + [id], freeSet + {id})
  {}

  /** The free ids are exactly the free records below `next`, they carry no links, and live + free
      = next. */
  ghost predicate Balanced(l: Layers, b: Books) {
    && l.blank.kind == FREE && CleanLayers(l)
    && b.next <= NO_NODE
    && b.freeSet == FreeIds(l, b.next)
    && b.live + |b.freeSet| == b.next
  }

  /** Take the operations back, last one first. */
  function UndoFree(freeSet: set<NodeId>, ops: seq<FreeOperation>): set<NodeId>
    decreases |ops|
  {
    if ops == [] then freeSet
    else
      var last := ops[|ops| - 1];
      UndoFree(if last.Freed? then freeSet - {last.id} else freeSet + {last.id}, ops[..|ops| - 1])
  }

  lemma {:induction false} UndoTaken(freeSet: set<NodeId>, ops: seq<FreeOperation>, id: NodeId)
    requires id in UndoFree(freeSet, ops)
    ensures id in freeSet || Taken(id) in ops
    decreases |ops|
  {
    if ops != [] {
      var last := ops[|ops| - 1];
      UndoTaken(if last.Freed? then freeSet - {last.id} else freeSet + {last.id}, ops[..|ops| - 1], id);
    }
  }

  /** The saved originals undo every change made to the dirty map since `held`. */
  ghost predicate Journal(dirty: map<NodeId, NodeRecord>, saved: map<NodeId, Original>, held: map<NodeId, NodeRecord>) {
    && (forall id | id in saved :: saved[id].wasDirty == (id in held) && (id in held ==> saved[id].record == held[id]))
    && (forall id | id !in saved :: (id in dirty <==> id in held) && (id in dirty ==> dirty[id] == held[id]))
  }

  function Saved(l: Layers, saved: map<NodeId, Original>, id: NodeId): map<NodeId, Original> {
    if id in saved then saved else saved[id := Original(Read(l, id), id in l.dirty)]
  }

  lemma JournalWritten(l: Layers, saved: map<NodeId, Original>, held: map<NodeId, NodeRecord>, id: NodeId, record: NodeRecord)
    requires Journal(l.dirty, saved, held)
    ensures Journal(Written(l, id, record).dirty, Saved(l, saved, id), held)
  {}

  /** The saved originals are the records held when the transaction began, and every id given out
      since is among them. */
  ghost predicate Tracked(l: Layers, saved: map<NodeId, Original>, held: Held, next: nat) {
    && (forall id | id in saved :: saved[id].record == Read(l.(dirty := held.dirty), id))
    && (forall id: NodeId | held.books.next <= id < next :: id in saved)
    && (forall id | id in saved :: id < next && id in l.dirty)
    && held.books.next <= next
  }

  lemma TrackedWritten(l: Layers, saved: map<NodeId, Original>, held: Held, next: nat, id: NodeId, record: NodeRecord)
    requires Journal(l.dirty, saved, held.dirty) && Tracked(l, saved, held, next) && id <= next
    ensures Tracked(Written(l, id, record), Saved(l, saved, id), held, if id < next then next else next + 1)
  {
    hide LookupAll;
    assert Written(l, id, record).(dirty := held.dirty) == l.(dirty := held.dirty);
    var l' := l.(dirty := held.dirty);
    assert id !in saved ==> Read(l', id) == Read(l, id) by {
      assert l'.runs == l.runs && BaseRecord(l', id) == BaseRecord(l, id);
    }
  }

  function Restored(dirty: map<NodeId, NodeRecord>, saved: map<NodeId, Original>): map<NodeId, NodeRecord> {
    map id | id in dirty.Keys + saved.Keys && (id in saved ==> saved[id].wasDirty)
      :: if id in saved then saved[id].record else dirty[id]
  }

  lemma JournalRestores(dirty: map<NodeId, NodeRecord>, saved: map<NodeId, Original>, held: map<NodeId, NodeRecord>)
    requires Journal(dirty, saved, held)
    ensures Restored(dirty, saved) == held
  {}

  // ---- how one write moves the balance --------------------------------------------------

  lemma BalancedTaken(l: Layers, b: Books, id: NodeId, record: NodeRecord)
    requires Balanced(l, b) && id in b.freeSet && record.kind != FREE
    ensures Balanced(Written(l, id, record), Books(b.freeSet - {id}, b.next, b.live + 1))
  {
    hide Read, CleanLayers;
    CleanWritten(l, id, record);
    FreeWritten(l, b.next, id, record);
  }

  lemma BalancedFresh(l: Layers, b: Books, record: NodeRecord)
    requires Balanced(l, b) && b.next < NO_NODE && record.kind != FREE
    ensures Balanced(Written(l, b.next, record), Books(b.freeSet, b.next + 1, b.live + 1))
  {
    hide Read, CleanLayers;
    CleanWritten(l, b.next, record);
    FreeWritten(l, b.next, b.next, record);
  }

  lemma BalancedFreed(l: Layers, b: Books, id: NodeId, record: NodeRecord)
    requires Balanced(l, b) && id < b.next && id !in b.freeSet && record.kind == FREE && Clean(record)
    ensures b.live > 0
    ensures Balanced(Written(l, id, record), Books(b.freeSet + {id}, b.next, b.live - 1))
  {
    hide Read, CleanLayers;
    CleanWritten(l, id, record);
    FreeWritten(l, b.next, id, record);
    FreeBound(b.freeSet + {id}, b.next);
  }

  lemma BalancedKept(l: Layers, b: Books, id: NodeId, record: NodeRecord)
    requires Balanced(l, b) && id < b.next && (record.kind == FREE <==> id in b.freeSet) && Clean(record)
    ensures Balanced(Written(l, id, record), b)
  {
    hide Read, CleanLayers;
    CleanWritten(l, id, record);
    FreeWritten(l, b.next, id, record);
  }

  lemma UndoTake(freeSet: set<NodeId>, ops: seq<FreeOperation>, id: NodeId)
    requires id in freeSet
    ensures UndoFree(freeSet - {id}, ops + [Taken(id)]) == UndoFree(freeSet, ops)
  {
    assert (ops + [Taken(id)])[..|ops|] == ops;
    assert freeSet - {id} + {id} == freeSet;
  }

  lemma UndoRelease(freeSet: set<NodeId>, ops: seq<FreeOperation>, id: NodeId)
    requires id !in freeSet
    ensures UndoFree(freeSet + {id}, ops + [Freed(id)]) == UndoFree(freeSet, ops)
  {
    assert (ops + [Freed(id)])[..|ops|] == ops;
    assert freeSet + {id} - {id} == freeSet;
  }

  // ---- the transaction, if there is one -------------------------------------------------

  /** Everything the transaction needs to be undone. */
  ghost predicate InTransaction(l: Layers, t: Option<map<NodeId, Original>>, held: Held, next: nat, freeSet: set<NodeId>, ops: seq<FreeOperation>) {
    t.Some? ==>
      && Journal(l.dirty, t.value, held.dirty) && Tracked(l, t.value, held, next)
      && UndoFree(freeSet, ops) == held.books.freeSet && Balanced(l.(dirty := held.dirty), held.books)
  }

  function SavedIn(l: Layers, t: Option<map<NodeId, Original>>, id: NodeId): Option<map<NodeId, Original>> {
    if t.None? then None else Some(Saved(l, t.value, id))
  }

  function Noted(t: Option<map<NodeId, Original>>, ops: seq<FreeOperation>, op: FreeOperation): seq<FreeOperation> {
    if t.None? then ops else ops + [op]
  }

  lemma TransactionWritten(l: Layers, t: Option<map<NodeId, Original>>, held: Held, next: nat, freeSet: set<NodeId>, ops: seq<FreeOperation>,
                           id: NodeId, record: NodeRecord)
    requires InTransaction(l, t, held, next, freeSet, ops) && id <= next
    ensures InTransaction(Written(l, id, record), SavedIn(l, t, id), held, if id < next then next else next + 1, freeSet, ops)
  {
    hide Journal, Tracked, UndoFree, Balanced, Saved;
    if t.Some? {
      JournalWritten(l, t.value, held.dirty, id, record);
      TrackedWritten(l, t.value, held, next, id, record);
      assert Written(l, id, record).(dirty := held.dirty) == l.(dirty := held.dirty);
    }
  }

  lemma TransactionTook(l: Layers, t: Option<map<NodeId, Original>>, held: Held, next: nat, freeSet: set<NodeId>, ops: seq<FreeOperation>, id: NodeId)
    requires InTransaction(l, t, held, next, freeSet, ops) && id in freeSet
    ensures InTransaction(l, t, held, next, freeSet - {id}, Noted(t, ops, Taken(id)))
  {
    hide Journal, Tracked, UndoFree, Balanced;
    UndoTake(freeSet, ops, id);
  }

  lemma TransactionFreed(l: Layers, t: Option<map<NodeId, Original>>, held: Held, next: nat, freeSet: set<NodeId>, ops: seq<FreeOperation>, id: NodeId)
    requires InTransaction(l, t, held, next, freeSet, ops) && id !in freeSet
    ensures InTransaction(l, t, held, next, freeSet + {id}, Noted(t, ops, Freed(id)))
  {
    hide Journal, Tracked, UndoFree, Balanced;
    UndoRelease(freeSet, ops, id);
  }

  /** Slots in one chunk of the memory arena. */
  const CHUNK_SIZE: nat := 1024 * 1024

  /** Every run is opened: its filter and fences are right. */
  ghost predicate OpenedRuns(sketch: Sketch, runs: seq<Run>, indexes: seq<IndexedRun>) {
    && |indexes| == |runs|
    && forall i | 0 <= i < |runs| :: indexes[i].records == runs[i] && Indexed(sketch, indexes[i])
  }

  lemma OpenedSorted(sketch: Sketch, runs: seq<Run>, indexes: seq<IndexedRun>)
    requires OpenedRuns(sketch, runs, indexes)
    ensures Sorted(runs)
  {
    hide Fenced, Filtered;
  }

  lemma OpenedMore(sketch: Sketch, runs: seq<Run>, indexes: seq<IndexedRun>, run: IndexedRun)
    requires OpenedRuns(sketch, runs, indexes) && Indexed(sketch, run)
    ensures OpenedRuns(sketch, runs + [run.records], indexes + [run])
  {
    hide Indexed;
  }

  lemma LookupNewest(runs: seq<Run>, k: nat, id: NodeId)
    requires k < |runs|
    ensures LookupAll(runs[..k + 1], id) == if Lookup(runs[k], id).Some? then Lookup(runs[k], id) else LookupAll(runs[..k], id)
  {
    hide Lookup;
    assert runs[..k + 1][..k] == runs[..k] && runs[..k + 1][k] == runs[k];
  }

  class NodeArena {
    const base: seq<NodeRecord>
    const blank: NodeRecord
    const sketch: Sketch
    /** Over a mapped base, or all in memory. */
    const mapped: bool
    var dirty: map<NodeId, NodeRecord>
    var runs: seq<Run>
    var indexes: seq<IndexedRun>
    var chunks: nat
    var free: seq<NodeId>
    var freeSet: set<NodeId>
    var next: nat
    var live: nat
    var transaction: Option<map<NodeId, Original>>
    var freeOperations: seq<FreeOperation>
    var transactionNext: nat
    var transactionLive: nat
    ghost var held: Held

    function Stack(): Layers
      reads this
    { Layers(dirty, runs, base, blank) }

    function Nodes(): map<NodeId, NodeRecord>
      reads this
    { View(Stack(), next) }

    ghost predicate Opened()
      reads this
    { OpenedRuns(sketch, runs, indexes) }

    /** Read one record: the dirty map, then the runs from newest to oldest through their filters and
        fences, then the base. */
    method Get(id: NodeId) returns (r: NodeRecord)
      requires Opened()
      ensures r == Read(Stack(), id)
      ensures id < next ==> id in Nodes() && r == Nodes()[id]
    {
      hide Lookup, LookupAll, Indexed;
      if id in dirty { return dirty[id]; }
      var k: nat := |indexes|;
      assert runs[..k] == runs;
      while k > 0
        invariant k <= |runs| == |indexes| && LookupAll(runs, id) == LookupAll(runs[..k], id)
      {
        k := k - 1;
        LookupNewest(runs, k, id);
        var found := Find(sketch, indexes[k], id);
        if found.Some? { return found.value; }
      }
      LookupNothing(runs[..0], id);
      r := if id < |base| then base[id] else blank;
    }

    /** Slots the arena has memory for. */
    ghost function Slots(): nat
      reads this
    { if mapped then NO_NODE else chunks * CHUNK_SIZE }

    /** Ids that can be given out without another chunk. */
    ghost function Ready(): int
      reads this
    { |freeSet| + Slots() - next }

    /** Add chunks until the id has a slot. */
    method Ensure(id: NodeId)
      modifies this`chunks
      ensures mapped ==> chunks == old(chunks)
      ensures !mapped ==> chunks == if id < old(chunks) * CHUNK_SIZE then old(chunks) else id / CHUNK_SIZE + 1
      ensures !mapped ==> id < chunks * CHUNK_SIZE
    {
      if mapped { return; }
      var required := id / CHUNK_SIZE + 1;
      while chunks < required
        invariant old(chunks) <= chunks && (chunks <= required || chunks == old(chunks))
      {
        chunks := chunks + 1;
      }
    }

    /** Reserve slots for so many allocations, or refuse when the 32-bit ids do not suffice. */
    method PrepareAllocations(count: nat) returns (ok: bool)
      requires next <= NO_NODE
      modifies this`chunks
      ensures ok == (count <= |freeSet| + NO_NODE - next)
      ensures !ok ==> chunks == old(chunks)
      ensures ok && count > |freeSet| ==> Ready() >= count
      ensures old(Ready()) >= count ==> chunks == old(chunks)
    {
      if count <= |freeSet| { return true; }
      var last := next + (count - |freeSet|) - 1;
      if last >= NO_NODE { return false; }
      Ensure(last);
      return true;
    }

    ghost function Ledger(): Books
      reads this
    { Books(freeSet, next, live) }

    /** Nothing on the stack of free ids is stale. */
    ghost predicate Neat()
      reads this
    { Exact(free, freeSet) }

    ghost predicate Valid()
      reads this
    {
      && Balanced(Stack(), Ledger()) && Opened() && next <= Slots()
      && StackHolds(free, freeSet)
      && InTransaction(Stack(), transaction, held, next, freeSet, freeOperations)
      && (transaction.Some? ==> transactionNext == held.books.next && transactionLive == held.books.live)
    }

    /** The records and counters at the start of the transaction can be put back. */
    ghost predicate Undoable()
      reads this
    {
      && transaction.Some? && Opened() && held.books.next <= Slots() && Journal(dirty, transaction.value, held.dirty)
      && transactionNext == held.books.next && transactionLive == held.books.live
      && Balanced(Layers(held.dirty, runs, base, blank), held.books)
    }

    /** Only the free list is yet to be found. */
    ghost predicate Settled()
      reads this
    { transaction.None? && Opened() && next <= Slots() && Balanced(Stack(), Books(FreeIds(Stack(), next), next, live)) }

    /** Adopt a validated base; every layer above it is empty. */
    constructor (base: seq<NodeRecord>, blank: NodeRecord, free: seq<NodeId>, sketch: Sketch, mapped: bool)
      requires blank.kind == FREE && |base| <= NO_NODE && Clean(blank) && forall id | 0 <= id < |base| :: Clean(base[id])
      requires forall id: NodeId :: id in free <==> id < |base| && base[id].kind == FREE
      ensures Valid() && Nodes() == View(Layers(map[], [], base, blank), |base|) && transaction.None? && next == |base|
      ensures this.base == base && this.blank == blank && dirty == map[] && runs == [] && this.mapped == mapped
    {
      this.base, this.blank, this.sketch, this.mapped := base, blank, sketch, mapped;
      var ids := set id | id in free;
      FreeBound(ids, |base|);
      dirty, runs, this.free, freeSet := map[], [], free, ids;
      next, live := |base|, |base| - |ids|;
      indexes, chunks := [], |base| / CHUNK_SIZE + 1;
      transaction, freeOperations, transactionNext, transactionLive := None, [], 0, 0;
      new;
      assert freeSet == FreeIds(Stack(), next);
    }

    method Write(id: NodeId, record: NodeRecord)
      requires Opened()
      modifies this`dirty, this`transaction
      ensures Stack() == Written(old(Stack()), id, record)
      ensures transaction == SavedIn(old(Stack()), old(transaction), id)
    {
      if transaction.Some? && id !in transaction.value {
        var original := Get(id);
        transaction := Some(transaction.value[id := Original(original, id in dirty)]);
      }
      dirty := dirty[id := record];
    }

    method Note(op: FreeOperation)
      modifies this`freeOperations
      ensures freeOperations == Noted(transaction, old(freeOperations), op)
    {
      if transaction.Some? { freeOperations := freeOperations + [op]; }
    }

    /** The transaction, if any, is still the one that began at `was`. */
    ghost predicate Continues(active: bool, was: Held)
      reads this
    { transaction.Some? == active && held == was }

    /** Replace the record of a node without freeing or reviving it. */
    method Set(id: NodeId, record: NodeRecord)
      requires Valid() && id < next && record.kind != FREE && Nodes()[id].kind != FREE
      modifies this`dirty, this`transaction
      ensures Valid() && Nodes() == old(Nodes())[id := record] && Ledger() == old(Ledger())
      ensures Continues(old(transaction.Some?), old(held)) && runs == old(runs)
    {
      hide Read, FreeIds, Balanced, InTransaction, StackHolds, Written, OpenedRuns;
      BalancedIds(Stack(), Ledger(), id);
      BalancedKept(Stack(), Ledger(), id, record);
      ViewWritten(Stack(), next, id, record);
      TransactionWritten(Stack(), transaction, held, next, freeSet, freeOperations, id, record);
      Write(id, record);
    }

    /** Stale stack entries are dropped from the top only. */
    method DropStale()
      requires StackHolds(free, freeSet)
      modifies this`free
      ensures StackHolds(free, freeSet)
      ensures freeSet != {} ==> free != [] && free[|free| - 1] in freeSet
      ensures Exact(old(free), freeSet) ==> free == old(free)
    {
      while free != [] && free[|free| - 1] !in freeSet
        invariant StackHolds(free, freeSet) && (Exact(old(free), freeSet) ==> free == old(free))
        decreases |free|
      {
        free := free[..|free| - 1];
      }
    }

    /** Give out the free id on top of the stack. */
    method TakeFree(record: NodeRecord) returns (id: NodeId)
      requires Valid() && record.kind != FREE && free != [] && free[|free| - 1] in freeSet
      modifies this`dirty, this`transaction, this`free, this`freeSet, this`freeOperations, this`live
      ensures Valid() && next == old(next) && live == old(live) + 1
      ensures id in old(freeSet) && freeSet == old(freeSet) - {id} && free == old(free)[..|old(free)| - 1] && id == old(free)[|old(free)| - 1]
      ensures id < next && old(Nodes())[id].kind == FREE && Nodes() == old(Nodes())[id := record]
      ensures Continues(old(transaction.Some?), old(held)) && runs == old(runs)
    {
      hide Read, FreeIds, Balanced, InTransaction, View, StackHolds, Written, Saved, Noted, OpenedRuns;
      ghost var l, b := Stack(), Ledger();
      id := free[|free| - 1];
      StackPop(free, freeSet);
      BalancedIds(l, b, id);
      ViewAt(l, next, id);
      BalancedTaken(l, b, id, record);
      ViewWritten(l, next, id, record);
      TransactionTook(l, transaction, held, next, freeSet, freeOperations, id);
      free := free[..|free| - 1];
      freeSet := freeSet - {id};
      Note(Taken(id));
      TransactionWritten(l, transaction, held, next, freeSet, freeOperations, id, record);
      Write(id, record);
      live := live + 1;
    }

    /** Give out the next id that was never used. */
    method Extend(record: NodeRecord) returns (id: NodeId)
      requires Valid() && record.kind != FREE && next < NO_NODE
      modifies this`dirty, this`transaction, this`next, this`chunks, this`live
      ensures Valid() && id == old(next) && next == old(next) + 1 && live == old(live) + 1 && freeSet == old(freeSet)
      ensures id !in old(Nodes()) && Nodes() == old(Nodes())[id := record]
      ensures old(next) < old(Slots()) ==> chunks == old(chunks)
      ensures Continues(old(transaction.Some?), old(held)) && runs == old(runs)
    {
      hide Read, FreeIds, Balanced, InTransaction, View, StackHolds, Written, Saved, OpenedRuns;
      ghost var l, b := Stack(), Ledger();
      id := next;
      ViewAt(l, next, id);
      BalancedFresh(l, b, record);
      ViewWritten(l, next, id, record);
      TransactionWritten(l, transaction, held, next, freeSet, freeOperations, id, record);
      Ensure(id);
      next := next + 1;
      Write(id, record);
      live := live + 1;
    }

    /** A free id if there is one, else the next fresh one; never an id that is live. */
    method Allocate(kind: Kind, hash: Hash, left: NodeId, right: NodeId) returns (id: NodeId)
      requires Valid() && kind != FREE && (freeSet != {} || next < NO_NODE)
      modifies this`dirty, this`transaction, this`free, this`freeSet, this`freeOperations, this`next, this`chunks, this`live
      ensures Valid() && id < next && live == old(live) + 1
      ensures id !in old(Nodes()) || old(Nodes())[id].kind == FREE
      ensures Nodes() == old(Nodes())[id := NodeRecord(hash, NO_NODE, left, right, kind)]
      ensures if old(freeSet) != {} then next == old(next) && id in old(freeSet) && freeSet == old(freeSet) - {id}
              else next == old(next) + 1 && id == old(next) && freeSet == {}
      ensures Took(old(Ledger()), Ledger(), 1)
      ensures old(Neat()) ==> Neat() && Feeds(old(free), old(next), free, next, NO_NODE, id, 1)
      ensures old(Ready()) >= 1 ==> chunks == old(chunks)
      ensures Ready() >= old(Ready()) - 1
      ensures Continues(old(transaction.Some?), old(held)) && runs == old(runs)
    {
      hide Read, FreeIds, Balanced, InTransaction, View, OpenedRuns, Exact;
      var record := NodeRecord(hash, NO_NODE, left, right, kind);
      DropStale();
      if Exact(free, freeSet) {
        ExactCount(free, freeSet);
        if free != [] { ExactPop(free, freeSet); }
      }
      if freeSet != {} { id := TakeFree(record); } else { id := Extend(record); }
    }

    /** Move an id between the free and the live, as its record is about to change. */
    method Rebook(id: NodeId, current: NodeRecord, record: NodeRecord)
      requires Valid() && id < next && current == Read(Stack(), id) && Clean(record)
      modifies this`free, this`freeSet, this`freeOperations, this`live
      ensures Balanced(Written(Stack(), id, record), Ledger()) && StackHolds(free, freeSet)
      ensures InTransaction(Stack(), transaction, held, next, freeSet, freeOperations)
      ensures current.kind != FREE && record.kind == FREE ==> id !in old(freeSet) && freeSet == old(freeSet) + {id} && live == old(live) - 1 && free == old(free) + [id]
      ensures (current.kind == FREE <==> record.kind == FREE) ==> freeSet == old(freeSet) && free == old(free)
    {
      hide Read, FreeIds, Balanced, InTransaction, StackHolds, Written, Noted, OpenedRuns;
      ghost var l, b := Stack(), Ledger();
      BalancedIds(l, b, id);
      if current.kind == FREE && record.kind != FREE {
        BalancedTaken(l, b, id, record);
        StackDrop(free, freeSet, id);
        TransactionTook(l, transaction, held, next, freeSet, freeOperations, id);
        freeSet := freeSet - {id};
        Note(Taken(id));
        live := live + 1;
      } else if current.kind != FREE && record.kind == FREE {
        BalancedFreed(l, b, id, record);
        StackPush(free, freeSet, id);
        TransactionFreed(l, transaction, held, next, freeSet, freeOperations, id);
        freeSet := freeSet + {id};
        free := free + [id];
        Note(Freed(id));
        live := live - 1;
      } else {
        BalancedKept(l, b, id, record);
      }
    }

    method Free(id: NodeId)
      requires Valid() && id < next && Nodes()[id].kind != FREE
      modifies this`dirty, this`transaction, this`free, this`freeSet, this`freeOperations, this`live
      ensures Valid() && next == old(next) && live == old(live) - 1 && freeSet == old(freeSet) + {id} && free == old(free) + [id]
      ensures id !in old(freeSet) && (old(Neat()) ==> Neat())
      ensures Nodes() == old(Nodes())[id := NodeRecord(old(Nodes())[id].hash, NO_NODE, NO_NODE, NO_NODE, FREE)]
      ensures Continues(old(transaction.Some?), old(held)) && runs == old(runs)
    {
      hide FreeIds, Balanced, InTransaction, Read, View, StackHolds, Written, Saved, OpenedRuns, Exact;
      var current := Get(id);
      var record := current.(kind := FREE, parent := NO_NODE, left := NO_NODE, right := NO_NODE);
      ViewWritten(Stack(), next, id, record);
      Rebook(id, current, record);
      if Exact(old(free), old(freeSet)) { ExactPush(old(free), old(freeSet), id); }
      TransactionWritten(Stack(), transaction, held, next, freeSet, freeOperations, id, record);
      Write(id, record);
    }

    /** Adopt a list of the free ids: ascending, without repeats and below `next`, or it is refused. */
    method LoadBookkeeping(freeIds: seq<NodeId>) returns (ok: bool)
      modifies this`free, this`freeSet, this`live
      ensures ok <==> mapped && next < NO_NODE && StrictlySorted(freeIds) && forall id | id in freeIds :: id < next
      ensures ok ==> free == freeIds && freeSet == Elements(freeIds) && live + |freeSet| == next
      ensures !ok ==> free == old(free) && freeSet == old(freeSet) && live == old(live)
      ensures ok && Settled() && freeSet == FreeIds(Stack(), next) ==> Valid()
    {
      hide Read, FreeIds, Opened, CleanLayers;
      if !mapped || next >= NO_NODE { return false; }
      var i: nat := 0;
      while i < |freeIds|
        invariant i <= |freeIds| && StrictlySorted(freeIds[..i]) && forall j | 0 <= j < i :: freeIds[j] < next
      {
        assert freeIds[i] in freeIds;
        if freeIds[i] >= next || (i > 0 && freeIds[i] <= freeIds[i - 1]) { return false; }
        i := i + 1;
      }
      assert freeIds[..i] == freeIds;
      SortedCount(freeIds);
      FreeBound(Elements(freeIds), next);
      free := freeIds;
      freeSet := Elements(freeIds);
      live := next - |freeIds|;
      return true;
    }

    /** Replace a record, and with it the id's place among the free or the live. */
    method ApplyRuntime(id: NodeId, record: NodeRecord)
      requires Valid() && id < next && Clean(record)
      modifies this`dirty, this`transaction, this`free, this`freeSet, this`freeOperations, this`live
      ensures Valid() && Stack() == Written(old(Stack()), id, record) && next == old(next)
      ensures Nodes() == old(Nodes())[id := record]
      ensures var current := Read(old(Stack()), id);
              old(Neat()) && (current.kind == FREE ==> record.kind == FREE) ==>
                Neat() && free == if current.kind != FREE && record.kind == FREE then old(free) + [id] else old(free)
      ensures Continues(old(transaction.Some?), old(held)) && runs == old(runs)
    {
      hide Read, FreeIds, Balanced, InTransaction, View, StackHolds, Written, Saved, OpenedRuns, Exact;
      var current := Get(id);
      ViewWritten(Stack(), next, id, record);
      Rebook(id, current, record);
      if Exact(old(free), old(freeSet)) && id !in old(freeSet) { ExactPush(old(free), old(freeSet), id); }
      TransactionWritten(Stack(), transaction, held, next, freeSet, freeOperations, id, record);
      Write(id, record);
    }

    /** Shrink the arena; the changed ids that fall off are no longer free. What falls off live stays
        in the live count, so the balance survives exactly when none does. */
    method SetRuntimeNext(next': nat, changed: seq<NodeId>)
      requires Valid() && next' <= next && (forall id: NodeId | next' <= id < next :: id in changed)
      modifies this`next, this`freeSet
      ensures next == next' && freeSet == FreeIds(Stack(), next') && StackHolds(free, freeSet)
      ensures live + |freeSet| == next' + |LiveFrom(Stack(), next', old(next))|
      ensures Balanced(Stack(), Ledger()) <==> LiveFrom(Stack(), next', old(next)) == {}
      ensures next' == old(next) ==> freeSet == old(freeSet)
    {
      hide Read, InTransaction;
      ghost var was, n, l := freeSet, next, Stack();
      next := next';
      var i: nat := 0;
      while i < |changed|
        invariant i <= |changed| && next == next' && live == old(live) && free == old(free) && dirty == old(dirty) && runs == old(runs)
        invariant forall id: NodeId :: id in freeSet <==> id in was && !(id >= next' && id in changed[..i])
      {
        if changed[i] >= next { freeSet := freeSet - {changed[i]}; }
        i := i + 1;
      }
      assert changed[..i] == changed;
      FallOff(l, n, next', was);
      assert freeSet == FreeIds(l, next');
    }

    /** The dirty records below `next` become the newest run; no visible record changes. */
    method SealDirty()
      requires Valid() && transaction.None?
      modifies this`dirty, this`runs, this`indexes
      ensures Valid() && Nodes() == old(Nodes()) && Stack() == Seal(old(Stack()), next)
    {
      hide Read, FreeIds, RunOf, SortedRun, Indexed, Balanced, CleanLayers;
      ValidClean(this);
      SealView(Stack(), next);
      CleanSeal(Stack(), next);
      BalancedAlike(Stack(), Seal(Stack(), next), Ledger());
      SealedBelow(dirty, next);
      var run := BuildIndex(sketch, RunOf(Visible(dirty, next)), next);
      OpenedMore(sketch, runs, indexes, run.value);
      runs, indexes := runs + [RunOf(Visible(dirty, next))], indexes + [run.value];
      dirty := map[];
    }

    /** One run of what differs from the base takes the place of all runs. */
    method CompactDeltas()
      requires Valid() && transaction.None? && dirty == map[]
      modifies this`runs, this`indexes
      ensures Valid() && Similar(Nodes(), old(Nodes())) && Stack() == Compact(old(Stack()), next)
    {
      hide Read, FreeIds, RunOf, SortedRun, Changed, Indexed, Balanced, CleanLayers;
      ValidClean(this);
      CompactView(Stack(), next);
      CleanCompact(Stack(), next);
      BalancedAlike(Stack(), Compact(Stack(), next), Ledger());
      ChangedBelow(Stack(), next);
      OpenedSorted(sketch, runs, indexes);
      var records := CompactRecords(Stack(), next);
      var run := BuildIndex(sketch, records, next);
      OpenedNone(sketch);
      OpenedMore(sketch, [], [], run.value);
      runs, indexes := [records], [run.value];
      assert [] + [records] == [records] && [] + [run.value] == [run.value];
    }

    method BeginTransaction()
      requires Valid() && transaction.None?
      modifies this
      ensures Valid() && transaction == Some(map[]) && held == Held(dirty, Ledger())
      ensures Nodes() == old(Nodes()) && Ledger() == old(Ledger()) && Stack() == old(Stack()) && free == old(free)
    {
      hide Read, FreeIds, Balanced, OpenedRuns;
      transaction := Some(map[]);
      transactionNext, transactionLive := next, live;
      freeOperations := [];
      held := Held(dirty, Ledger());
    }

    method CommitTransaction()
      modifies this`transaction, this`freeOperations
      ensures transaction.None? && (old(Valid()) ==> Valid())
    {
      transaction := None;
      freeOperations := [];
    }

    /** Put back every record and free id; ids freed meanwhile stay on the stack as stale. */
    method RollbackTransaction()
      requires Undoable() && StackHolds(free, freeSet)
      modifies this`dirty, this`free, this`freeSet, this`next, this`live, this`transaction, this`freeOperations
      ensures Settled() && StackHolds(free, freeSet)
      ensures dirty == old(held).dirty && next == old(held).books.next && live == old(held).books.live && runs == old(runs)
      ensures old(Valid()) ==> Valid() && Ledger() == old(held).books
    {
      hide Read, FreeIds, Balanced, Journal, Tracked, OpenedRuns;
      JournalRestores(dirty, transaction.value, held.dirty);
      dirty := Restored(dirty, transaction.value);
      ghost var was, ops := freeSet, freeOperations;
      var i := |freeOperations|;
      assert ops[..i] == ops;
      while i > 0
        invariant 0 <= i <= |ops| && freeOperations == ops && dirty == old(held).dirty && runs == old(runs)
        invariant held == old(held) && transaction == old(transaction)
        invariant transactionNext == held.books.next && transactionLive == held.books.live
        invariant old(Valid()) ==> UndoFree(freeSet, ops[..i]) == held.books.freeSet
        invariant StackHolds(free, freeSet)
      {
        i := i - 1;
        var op := freeOperations[i];
        assert ops[..i + 1][..i] == ops[..i] && ops[..i + 1][i] == op;
        if op.Freed? {
          freeSet := freeSet - {op.id};
        } else {
          freeSet := freeSet + {op.id};
          free := free + [op.id];
        }
      }
      next, live := transactionNext, transactionLive;
      transaction := None;
      freeOperations := [];
      BalancedSettled(Stack(), held.books);
    }
  }

  lemma ValidUndoable(arena: NodeArena)
    requires arena.Valid() && arena.transaction.Some?
    ensures arena.Undoable() && Tracked(arena.Stack(), arena.transaction.value, arena.held, arena.next)
    ensures Journal(arena.dirty, arena.transaction.value, arena.held.dirty)
  {
    hide Journal, Tracked, Balanced, UndoFree, OpenedRuns;
    TrackedNext(arena.Stack(), arena.transaction.value, arena.held, arena.next);
  }

  lemma TrackedNext(l: Layers, saved: map<NodeId, Original>, held: Held, next: nat)
    requires Tracked(l, saved, held, next)
    ensures held.books.next <= next
  {}

  lemma ValidClean(arena: NodeArena)
    requires arena.Valid()
    ensures CleanLayers(arena.Stack())
  {
    hide CleanLayers, FreeIds, InTransaction;
  }

  lemma ValidAlone(arena: NodeArena)
    requires arena.transaction.None?
    ensures arena.Valid() <==> Balanced(arena.Stack(), arena.Ledger()) && StackHolds(arena.free, arena.freeSet) && arena.Opened() && arena.next <= arena.Slots()
  {
    hide Balanced, StackHolds, OpenedRuns;
  }

  lemma LookupNothing(runs: seq<Run>, id: NodeId)
    requires runs == []
    ensures LookupAll(runs, id) == None
  {}

  lemma OpenedNone(sketch: Sketch)
    ensures OpenedRuns(sketch, [], [])
  {}

  lemma RunBelow(m: map<NodeId, NodeRecord>, next: nat)
    requires forall id | id in m :: id < next
    ensures SortedRun(RunOf(m)) && forall i | 0 <= i < |RunOf(m)| :: RunOf(m)[i].id < next
  {
    hide RunOf, Lookup;
    RunOfIs(m, 0);
    var run := RunOf(m);
    forall i | 0 <= i < |run| ensures run[i].id < next {
      LookupFound(run, i);
      RunOfIs(m, run[i].id);
    }
  }

  lemma SealedBelow(dirty: map<NodeId, NodeRecord>, next: nat)
    ensures var run := RunOf(Visible(dirty, next)); SortedRun(run) && forall i | 0 <= i < |run| :: run[i].id < next
  {
    hide RunOf;
    RunBelow(Visible(dirty, next), next);
  }

  lemma ChangedBelow(l: Layers, next: nat)
    ensures var run := RunOf(Changed(l, next)); SortedRun(run) && forall i | 0 <= i < |run| :: run[i].id < next
  {
    hide RunOf, LookupAll, Alike;
    RunBelow(Changed(l, next), next);
  }

  /** Free slots stay free when only their contents change. */
  lemma BalancedAlike(l: Layers, l': Layers, b: Books)
    requires Balanced(l, b) && l'.blank == l.blank && CleanLayers(l') && Similar(View(l', b.next), View(l, b.next))
    ensures Balanced(l', b)
  {
    hide Read;
    forall id: NodeId | id < b.next ensures Alike(Read(l', id), Read(l, id)) {
      assert View(l', b.next)[id] == Read(l', id) && View(l, b.next)[id] == Read(l, id);
    }
    assert FreeIds(l', b.next) == FreeIds(l, b.next);
  }

  lemma BalancedSettled(l: Layers, b: Books)
    requires Balanced(l, b)
    ensures b.freeSet == FreeIds(l, b.next)
  {}

  lemma StackDrop(free: seq<NodeId>, freeSet: set<NodeId>, id: NodeId)
    requires StackHolds(free, freeSet)
    ensures StackHolds(free, freeSet - {id})
  {}

  /** The live ids from `low` up to `high`. */
  ghost function LiveFrom(l: Layers, low: nat, high: nat): set<NodeId> {
    set id: NodeId | low <= id < high && Read(l, id).kind != FREE
  }

  ghost function FreeFrom(l: Layers, low: nat, high: nat): set<NodeId> {
    set id: NodeId | low <= id < high && Read(l, id).kind == FREE
  }

  lemma {:induction false} FromCount(l: Layers, low: nat, high: nat)
    requires low <= high
    ensures |LiveFrom(l, low, high)| + |FreeFrom(l, low, high)| == high - low
    decreases high
  {
    hide Read;
    if low < high {
      FromCount(l, low, high - 1);
      if Read(l, high - 1).kind == FREE {
        assert FreeFrom(l, low, high) == FreeFrom(l, low, high - 1) + {high - 1};
        assert LiveFrom(l, low, high) == LiveFrom(l, low, high - 1);
      } else {
        assert LiveFrom(l, low, high) == LiveFrom(l, low, high - 1) + {high - 1};
        assert FreeFrom(l, low, high) == FreeFrom(l, low, high - 1);
      }
    }
  }

  /** Free ids split at the new end. */
  lemma FallOff(l: Layers, n: nat, next: nat, freeSet: set<NodeId>)
    requires next <= n && freeSet == FreeIds(l, n)
    ensures |freeSet| == |FreeIds(l, next)| + (n - next) - |LiveFrom(l, next, n)|
    ensures forall id: NodeId :: id in FreeIds(l, next) <==> id in freeSet && id < next
  {
    hide Read;
    FromCount(l, next, n);
    assert freeSet == FreeIds(l, next) + FreeFrom(l, next, n);
  }

  lemma BalancedIds(l: Layers, b: Books, id: NodeId)
    requires Balanced(l, b)
    ensures id in b.freeSet ==> id < b.next
    ensures id < b.next ==> (id in b.freeSet <==> Read(l, id).kind == FREE)
  {}

  lemma {:induction false} FreeBound(s: set<NodeId>, n: nat)
    requires forall id | id in s :: id < n
    ensures |s| <= n
    decreases n
  {
    if n > 0 {
      FreeBound(s - {n - 1}, n - 1);
    } else {
      assert s == {};
    }
  }
}
