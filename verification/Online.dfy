/** Blocks on the online forest (ModifyBlock, RollbackOnlineBlock and RebuildIndexAndValidate in
    src/forest.cpp): the arena's transaction, the log, and what a failure leaves behind. */
module Online {
  import opened Common
  import opened Records
  import opened Ordered
  import opened Arena
  import opened ArenaTrees
  import opened ForestState
  import opened Layering
  import opened Transactions
  import opened LeafTable
  import opened LeafIndex
  import opened Packed
  import opened CleanRecords
  import opened Windows
  import opened Blocks
  import opened Accumulator
  import Trees
  import Validator
  import DeltaStore
  import Durability
  import Bits
  import Position

  // ---- what the records stand for is what the validator accepts -------------------------

  /** A node of a standing tree, seen from its record. */
  ghost predicate NodeFits(parentHash: Combine, nodes: Nodes, x: NodeId, top: NodeId, above: NodeId) {
    && x in nodes && nodes[x].kind != FREE
    && (nodes[x].kind == LEAF ==> nodes[x].left == NO_NODE && nodes[x].right == NO_NODE)
    && (nodes[x].kind == BRANCH ==>
        var l, r := nodes[x].left, nodes[x].right;
        && l in nodes && r in nodes && l != r && nodes[l].kind != FREE && nodes[r].kind != FREE
        && nodes[l].parent == x && nodes[r].parent == x && nodes[x].hash == parentHash(nodes[l].hash, nodes[r].hash))
    && (if x == top then nodes[x].parent == above
        else
          var p := nodes[x].parent;
          p in nodes && p != x && nodes[p].kind == BRANCH && (nodes[p].left == x || nodes[p].right == x))
  }

  lemma {:induction false} TreeFits(parentHash: Combine, nodes: Nodes, t: Trees.Tree, above: NodeId, x: NodeId)
    requires Linked(nodes, t, above) && Proper(t) && Ids(t) <= nodes.Keys && Hashed(parentHash, nodes, t, NO_NODE) && NO_NODE !in Ids(t)
    requires x in Ids(t)
    ensures NodeFits(parentHash, nodes, x, t.id, above)
    decreases t
  {
    if t.Node? {
      assert t.left.id in Ids(t.left) && t.right.id in Ids(t.right);
      LinkedIds(nodes, t.left, t.id);
      LinkedIds(nodes, t.right, t.id);
      if x != t.id {
        var c := if x in Ids(t.left) then t.left else t.right;
        TreeFits(parentHash, nodes, c, t.id, x);
      }
    }
  }

  /** Every live record belongs to the tree of some row. */
  lemma LiveFits(parentHash: Combine, nodes: Nodes, rows: seq<Row>, x: NodeId) returns (row: nat)
    requires Represents(parentHash, nodes, rows) && x in nodes && nodes[x].kind != FREE
    ensures row < |rows| && rows[row].Some? && x in Ids(rows[row].value)
    ensures NodeFits(parentHash, nodes, x, rows[row].value.id, NO_NODE)
  {
    hide Linked, Hashed, Proper, Apart, NodeFits;
    assert x in LiveIds(nodes);
    row :| 0 <= row < |rows| && x in RowIds(rows[row]);
    TreeFits(parentHash, nodes, rows[row].value, NO_NODE, x);
  }

  ghost predicate Shows(nodes: Nodes, rs: seq<NodeRecord>) {
    && (forall id: NodeId :: id in nodes <==> id < |rs|)
    && (forall id: NodeId | id < |rs| :: nodes[id] == rs[id])
  }

  lemma NodeValid(parentHash: Combine, nodes: Nodes, rows: seq<Row>, roots: seq<NodeId>, rs: seq<NodeRecord>, id: NodeId)
    requires Represents(parentHash, nodes, rows) && |roots| == |rows| && (forall i | 0 <= i < |rows| :: roots[i] == RootId(rows[i]))
    requires Shows(nodes, rs) && id < |rs|
    ensures Validator.NodeOk(rs, roots, id) && Validator.BranchOk(parentHash, rs, id)
  {
    hide Represents;
    NoNodeId(parentHash, nodes, rows);
    if rs[id].kind != FREE {
      var row := LiveFits(parentHash, nodes, rows, id);
      assert id == rows[row].value.id ==> roots[row] == id;
    }
  }

  lemma RootFits(parentHash: Combine, nodes: Nodes, rows: seq<Row>, i: nat)
    requires Represents(parentHash, nodes, rows) && i < |rows| && rows[i].Some?
    ensures var root := rows[i].value.id; root in nodes && nodes[root].kind != FREE && nodes[root].parent == NO_NODE
  {
    hide Hashed, Proper, Apart;
    assert Stands(parentHash, nodes, rows[i].value);
  }

  /** The records of a forest pass validation. */
  lemma ForestValid(parentHash: Combine, nodes: Nodes, rows: seq<Row>, roots: seq<NodeId>, rs: seq<NodeRecord>)
    requires Represents(parentHash, nodes, rows) && |roots| == |rows| && (forall i | 0 <= i < |rows| :: roots[i] == RootId(rows[i]))
    requires Shows(nodes, rs)
    ensures Validator.ValidForest(parentHash, rs, roots)
  {
    hide Represents, NodeFits, Validator.NodeOk, Validator.BranchOk;
    forall id | 0 <= id < |rs| ensures Validator.NodeOk(rs, roots, id) && Validator.BranchOk(parentHash, rs, id) {
      NodeValid(parentHash, nodes, rows, roots, rs, id);
    }
    forall root | root in roots ensures Validator.RootOk(rs, root) {
      var i :| 0 <= i < |roots| && roots[i] == root;
      if rows[i].Some? { RootFits(parentHash, nodes, rows, i); }
    }
  }

  // ---- rebuilding -----------------------------------------------------------------------

  lemma RecordsShow(l: Layers, n: nat)
    ensures Shows(View(l, n), RecordsOf(l, n))
  {
    hide Read;
  }

  lemma {:induction false} FreeBelowIs(rs: seq<NodeRecord>, n: nat, id: NodeId)
    requires n <= |rs|
    ensures id in Validator.FreeBelow(rs, n) <==> id < n && rs[id].kind == FREE
    decreases n
  {
    if n > 0 { FreeBelowIs(rs, n - 1, id); }
  }

  lemma {:induction false} FreeBelowSorted(rs: seq<NodeRecord>, n: nat)
    requires n <= |rs|
    ensures StrictlySorted(Validator.FreeBelow(rs, n))
    decreases n
  {
    if n > 0 {
      FreeBelowSorted(rs, n - 1);
      var before := Validator.FreeBelow(rs, n - 1);
      forall k | 0 <= k < |before| ensures before[k] < n - 1 { FreeBelowIs(rs, n - 1, before[k]); }
    }
  }

  lemma {:induction false} LeavesBelowIs(rs: seq<NodeRecord>, n: nat, k: nat)
    requires n <= |rs| && k < |Validator.LeavesBelow(rs, n)|
    ensures var ids := Validator.LeavesBelow(rs, n);
            && ids[k] < n && rs[ids[k]].kind == LEAF
            && forall j | 0 <= j < k :: ids[j] < ids[k]
    decreases n
  {
    var before := Validator.LeavesBelow(rs, n - 1);
    if k < |before| {
      LeavesBelowIs(rs, n - 1, k);
    } else {
      forall j | 0 <= j < k ensures before[j] < n - 1 { LeavesBelowIs(rs, n - 1, j); }
    }
  }

  lemma {:induction false} LeavesBelowHave(rs: seq<NodeRecord>, n: nat, id: NodeId)
    requires n <= |rs| && id < n && rs[id].kind == LEAF
    ensures id in Validator.LeavesBelow(rs, n)
    decreases n
  {
    if id < n - 1 { LeavesBelowHave(rs, n - 1, id); }
  }

  lemma LeavesAreKeys(nodes: Nodes, rs: seq<NodeRecord>, bucket: Hash -> nat)
    requires Shows(nodes, rs)
    ensures Elements(Validator.LeavesBelow(rs, |rs|)) == KeysOf(nodes, bucket).hashes.Keys
    ensures StrictlySorted(Validator.LeavesBelow(rs, |rs|))
  {
    hide Validator.LeavesBelow;
    var ids := Validator.LeavesBelow(rs, |rs|);
    forall id | id in ids ensures id in KeysOf(nodes, bucket).hashes {
      var k :| 0 <= k < |ids| && ids[k] == id;
      LeavesBelowIs(rs, |rs|, k);
    }
    forall id | id in KeysOf(nodes, bucket).hashes ensures id in ids { LeavesBelowHave(rs, |rs|, id); }
    forall j, k | 0 <= j < k < |ids| ensures ids[j] < ids[k] { LeavesBelowIs(rs, |rs|, k); }
  }

  /** Index every live leaf, in the order of the ids. */
  method IndexLeaves(index: KeylessLeafIndex, keys: Keys, ids: seq<NodeId>)
    requires Elements(ids) == keys.hashes.Keys && StrictlySorted(ids)
    modifies index
    ensures index.Valid(keys) && index.Ids() == keys.hashes.Keys
  {
    hide Sound, Count, Entries, BitCeil, StrictlySorted;
    index.Clear(keys, if |ids| * 10 + 7 < 128 then 16 else (|ids| * 10 + 7) / 8);
    SoundLengths(keys, index.View());
    var i: nat := 0;
    while i < |ids|
      invariant i <= |ids| && index.Valid(keys) && |index.slots| == |index.control| && index.Ids() == Elements(ids[..i])
    {
      SoundLengths(keys, index.View());
      NotYet(ids, i);
      assert ids[i] in Elements(ids);
      index.Insert(keys, keys.hashes[ids[i]], ids[i]);
      assert ids[..i + 1] == ids[..i] + [ids[i]];
      AppendedElements(ids[..i], [ids[i]]);
      SoundLengths(keys, index.View());
      i := i + 1;
    }
    SoundLengths(keys, index.View());
    assert ids[..i] == ids;
  }

  lemma NotYet(ids: seq<NodeId>, i: nat)
    requires StrictlySorted(ids) && i < |ids|
    ensures ids[i] !in Elements(ids[..i]) && Elements([ids[i]]) == {ids[i]}
  {}

  lemma FreeListed(l: Layers, n: nat)
    ensures var ids := Validator.FreeBelow(RecordsOf(l, n), n); StrictlySorted(ids) && Elements(ids) == FreeIds(l, n) && forall id | id in ids :: id < n
  {
    hide Read, Validator.FreeBelow;
    var ids := Validator.FreeBelow(RecordsOf(l, n), n);
    FreeBelowSorted(RecordsOf(l, n), n);
    forall id: NodeId ensures id in ids <==> id in FreeIds(l, n) { FreeBelowIs(RecordsOf(l, n), n, id); }
  }

  /** Validate the records, window by window, then rebuild the free list and the index from them.
      Records that stand for a forest always pass; only an arena whose ids are used up cannot be
      rebuilt. */
  method RebuildIndexAndValidate(forest: PackedForest) returns (r: Result<()>)
    requires forest.arena.Settled() && forest.TreesValid() && forest.arena.mapped
    modifies forest.arena`free, forest.arena`freeSet, forest.arena`live, forest.index
    ensures r.Ok? <==> forest.arena.next < NO_NODE
    ensures r.Ok? ==> forest.Valid()
    ensures r.Err? ==> unchanged(forest.index) && unchanged(forest.arena)
    ensures forest.TreesValid() && forest.arena.live == old(forest.arena.live)
    ensures r.Ok? ==> forest.arena.freeSet == FreeIds(forest.arena.Stack(), forest.arena.next) && forest.arena.Neat() && StrictlySorted(forest.arena.free)
  {
    hide Read, Represents, Balanced, InTransaction, View, Sound, Count, Entries, Trees.WellFormed, KeysOf, Validator.ValidForest,
         Validator.FreeBelow, Validator.LeavesBelow, StackHolds, RecordsOf, FreeIds, OpenedRuns, StrictlySorted;
    OpenedSorted(forest.arena.sketch, forest.arena.runs, forest.arena.indexes);
    var rs := ForEachWindow(forest.arena.Stack(), forest.arena.next, Validator.WINDOW);
    RecordsLength(forest.arena.Stack(), forest.arena.next);
    RecordsShow(forest.arena.Stack(), forest.arena.next);
    ForestValid(forest.parentHash, forest.arena.Nodes(), forest.rows, forest.roots, rs);
    var rebuilt := Validator.Validate(forest.parentHash, rs, forest.roots);
    if rebuilt.Err? { return Err(rebuilt.error); }
    FreeListed(forest.arena.Stack(), forest.arena.next);
    SettledLive(forest.arena);
    var loaded := forest.arena.LoadBookkeeping(rebuilt.value.freeIds);
    SortedExact(forest.arena.free, forest.arena.freeSet);
    LeavesAreKeys(forest.arena.Nodes(), rs, forest.bucket);
    IndexLeaves(forest.index, KeysOf(forest.arena.Nodes(), forest.bucket), rebuilt.value.leafIds);
    return Ok(());
  }

  lemma SortedExact(free: seq<NodeId>, freeSet: set<NodeId>)
    requires StrictlySorted(free) && freeSet == Elements(free)
    ensures Exact(free, freeSet)
  {}

  lemma SettledLive(arena: NodeArena)
    requires arena.Settled()
    ensures arena.live + |FreeIds(arena.Stack(), arena.next)| == arena.next
  {
    hide Read, FreeIds, CleanLayers, OpenedRuns;
  }

  // ---- applying changes directly --------------------------------------------------------

  lemma KeysReplaced(nodes: Nodes, bucket: Hash -> nat, id: NodeId, record: NodeRecord, other: NodeId)
    requires id in nodes
    ensures KeysOf(nodes[id := record], bucket).bucket == bucket
    ensures other in KeysOf(nodes[id := record], bucket).hashes <==>
            if other == id then record.kind == LEAF else other in KeysOf(nodes, bucket).hashes
    ensures other != id && other in KeysOf(nodes, bucket).hashes
            ==> KeysOf(nodes[id := record], bucket).hashes[other] == KeysOf(nodes, bucket).hashes[other]
    ensures record.kind == LEAF ==> KeysOf(nodes[id := record], bucket).hashes[id] == record.hash
  {}

  /** Replace one record, keeping the index in step; a live leaf is always found there. */
  method ReplaceRecord(forest: PackedForest, id: NodeId, record: NodeRecord)
    requires forest.arena.Valid() && forest.IndexValid() && id < forest.arena.next && Clean(record)
    modifies forest.arena, forest.index
    ensures forest.arena.Valid() && forest.IndexValid()
    ensures forest.arena.Stack() == Written(old(forest.arena.Stack()), id, record) && forest.arena.next == old(forest.arena.next)
    ensures forest.arena.Continues(old(forest.arena.transaction.Some?), old(forest.arena.held)) && forest.arena.runs == old(forest.arena.runs)
    ensures var current := Read(old(forest.arena.Stack()), id);
            old(forest.arena.Neat()) && (current.kind == FREE ==> record.kind == FREE) ==>
              forest.arena.Neat() && forest.arena.free == if current.kind != FREE && record.kind == FREE then old(forest.arena.free) + [id] else old(forest.arena.free)
  {
    hide Read, Balanced, InTransaction, View, Sound, Count, Entries, KeysOf, UndoFree, StackHolds, Written, Exact;
    ghost var nodes := forest.arena.Nodes();
    ghost var keys := forest.LiveKeys();
    KeysAt(nodes, forest.bucket, id);
    SoundLengths(keys, forest.index.View());
    var current := forest.arena.Get(id);
    if current.kind == LEAF {
      var erased := forest.index.Erase(forest.LiveKeys(), current.hash, id);
      assert erased;
    }
    SoundLengths(keys, forest.index.View());
    assert forest.index.Ids() == keys.hashes.Keys - {id};
    forest.arena.ApplyRuntime(id, record);
    ghost var keys' := forest.LiveKeys();
    forall other ensures (other in keys'.hashes <==> if other == id then record.kind == LEAF else other in keys.hashes)
                         && (other != id && other in keys.hashes ==> keys'.hashes[other] == keys.hashes[other])
    {
      KeysReplaced(nodes, forest.bucket, id, record, other);
    }
    KeysReplaced(nodes, forest.bucket, id, record, id);
    IndexKeys(forest.index, keys, keys');
    if record.kind == LEAF { forest.index.Insert(forest.LiveKeys(), record.hash, id); }
    SoundLengths(keys', forest.index.View());
  }

  lemma ExpectedPrefix(l: Layers, changes: seq<Change>, i: nat)
    requires i < |changes|
    ensures changes[..i + 1][..i] == changes[..i] && Overlay(l.dirty, changes[..i + 1]) == Overlay(l.dirty, changes[..i])[changes[i].id := changes[i].after]
  {
    assert changes[..i + 1][..i] == changes[..i];
  }

  /** The ids that the changes free, in their order. */
  function FreedBy(changes: seq<Change>): seq<NodeId> {
    if changes == [] then []
    else
      var last := changes[|changes| - 1];
      FreedBy(changes[..|changes| - 1]) + if last.before.kind != FREE && last.after.kind == FREE then [last.id] else []
  }

  /** No change makes a free record live. */
  ghost predicate NoneRevived(changes: seq<Change>) { forall i | 0 <= i < |changes| :: changes[i].before.kind == FREE ==> changes[i].after.kind == FREE }

  lemma FreedNext(changes: seq<Change>, i: nat)
    requires i < |changes|
    ensures FreedBy(changes[..i + 1]) == FreedBy(changes[..i]) + if changes[i].before.kind != FREE && changes[i].after.kind == FREE then [changes[i].id] else []
  {
    assert changes[..i + 1][..i] == changes[..i];
  }

  /** Replay changes on the running forest, each only if the record is what it expects. */
  method ApplyEach(forest: PackedForest, changes: seq<Change>) returns (r: Result<()>)
    requires forest.arena.Valid() && forest.IndexValid()
    requires Durability.CleanChanges(changes) && forall i | 0 <= i < |changes| :: changes[i].id < forest.arena.next
    modifies forest.arena, forest.index
    ensures forest.arena.Valid() && forest.arena.next == old(forest.arena.next)
    ensures r.Ok? <==> Durability.Expected(old(forest.arena.Stack()), changes)
    ensures r.Ok? ==> forest.IndexValid() && forest.arena.Stack() == old(forest.arena.Stack()).(dirty := Overlay(old(forest.arena.dirty), changes))
    ensures r.Ok? && old(forest.arena.Neat()) && NoneRevived(changes) ==> forest.arena.Neat() && forest.arena.free == old(forest.arena.free) + FreedBy(changes)
    ensures forest.arena.Continues(old(forest.arena.transaction.Some?), old(forest.arena.held)) && forest.arena.runs == old(forest.arena.runs)
  {
    hide Read, Balanced, InTransaction, View, Sound, Count, Entries, KeysOf, UndoFree, Overlay, FreeIds, OpenedRuns, CleanLayers, Exact, FreedBy;
    ghost var l := forest.arena.Stack();
    var i: nat := 0;
    NoOverlay(l);
    assert changes[..0] == [];
    assert forest.arena.free + FreedBy([]) == forest.arena.free by { NothingFreed(); }
    while i < |changes|
      invariant i <= |changes| && forest.arena.Valid() && forest.IndexValid() && forest.arena.next == old(forest.arena.next)
      invariant forest.arena.Stack() == l.(dirty := Overlay(l.dirty, changes[..i]))
      invariant forall j | 0 <= j < i :: Read(l.(dirty := Overlay(l.dirty, changes[..j])), changes[j].id) == changes[j].before
      invariant forest.arena.Continues(old(forest.arena.transaction.Some?), old(forest.arena.held)) && forest.arena.runs == old(forest.arena.runs)
      invariant old(forest.arena.Neat()) && NoneRevived(changes) ==> forest.arena.Neat() && forest.arena.free == old(forest.arena.free) + FreedBy(changes[..i])
    {
      ExpectedPrefix(l, changes, i);
      var current := forest.arena.Get(changes[i].id);
      if current != changes[i].before { return Err("WAL before-image does not match the current mapped node"); }
      ReplaceRecord(forest, changes[i].id, changes[i].after);
      FreedNext(changes, i);
      i := i + 1;
    }
    assert changes[..i] == changes;
    return Ok(());
  }

  lemma NothingFreed()
    ensures FreedBy([]) == []
  {}

  /** Replay changes on the running forest, each only if the record is what it expects, then shrink
      the arena. Free ids and indexed leaves agree with the records afterwards exactly when no
      record at or above the new end is left live. Ids that are freed go on the stack in the order of
      the changes. */
  method ApplyPhysicalChanges(forest: PackedForest, changes: seq<Change>, next: nat) returns (r: Result<()>)
    requires forest.arena.Valid() && forest.IndexValid() && next <= forest.arena.next
    requires Durability.CleanChanges(changes) && forall i | 0 <= i < |changes| :: changes[i].id < forest.arena.next
    requires forall id: NodeId | next <= id < forest.arena.next :: id in IdsOf(changes)
    modifies forest.arena, forest.index
    ensures r.Ok? <==> Durability.Expected(old(forest.arena.Stack()), changes)
    ensures r.Ok? ==> forest.arena.Stack() == old(forest.arena.Stack()).(dirty := Overlay(old(forest.arena.dirty), changes))
                      && forest.arena.next == next
                      && forest.arena.freeSet == FreeIds(forest.arena.Stack(), next)
                      && forest.arena.live + |forest.arena.freeSet| == next + |LiveFrom(forest.arena.Stack(), next, old(forest.arena.next))|
                      && (Balanced(forest.arena.Stack(), forest.arena.Ledger()) <==> LiveFrom(forest.arena.Stack(), next, old(forest.arena.next)) == {})
    ensures r.Ok? ==> IndexCovers(forest, old(forest.arena.next))
    ensures r.Ok? && next == old(forest.arena.next) && old(forest.arena.Neat()) && NoneRevived(changes) ==>
              forest.arena.Neat() && forest.arena.free == old(forest.arena.free) + FreedBy(changes)
    ensures r.Err? ==> forest.arena.Valid() && forest.arena.next == old(forest.arena.next)
    ensures StackHolds(forest.arena.free, forest.arena.freeSet) && forest.arena.transaction.Some? == old(forest.arena.transaction.Some?)
            && forest.arena.held == old(forest.arena.held) && forest.arena.runs == old(forest.arena.runs)
    ensures old(forest.arena.transaction.Some?) ==> forest.arena.Undoable()
  {
    hide Read, Balanced, InTransaction, View, Sound, Count, Entries, KeysOf, UndoFree, Overlay, FreeIds, LiveFrom, OpenedRuns, CleanLayers, Exact, FreedBy,
         NoneRevived, Durability.Expected, Durability.CleanChanges;
    r := ApplyEach(forest, changes);
    if forest.arena.transaction.Some? { ValidUndoable(forest.arena); }
    if r.Err? { return; }
    forest.arena.SetRuntimeNext(next, IdsOf(changes));
  }

  lemma NoOverlay(l: Layers)
    ensures l.(dirty := Overlay(l.dirty, [])) == l
  {}

  /** The index holds the leaf records below `bound`. */
  ghost predicate IndexCovers(forest: PackedForest, bound: nat)
    reads forest, forest.arena, forest.index
  {
    var keys := KeysOf(View(forest.arena.Stack(), bound), forest.bucket);
    forest.index.Valid(keys) && forest.index.Ids() == keys.hashes.Keys
  }

  // ---- a block --------------------------------------------------------------------------

  /** The trees are the old ones with the named leaves pruned and the additions carried in. */
  ghost predicate Applied(rows': seq<Row>, leaves': nat, nodes: Nodes, rows: seq<Row>, leaves: nat, additions: seq<Hash>, deletions: seq<Hash>, dead: set<NodeId>) {
    && Named(nodes, deletions, dead) && leaves' == leaves + |additions|
    && |rows| == Trees.ROWS && leaves + |additions| <= Bits.Pow2(Position.MAX_ROWS)
    && StripRows(rows') == CarryAll(StripRows(PruneRows(rows, dead)), leaves, additions)
  }

  class OnlineForest {
    const forest: PackedForest
    /** The height of the base. */
    ghost const start: nat
    var point: Point
    var chain: seq<Hash>
    var lsn: nat
    var durableLsn: nat
    var generation: nat
    var log: seq<Tx>
    /** The blocks connected above the base, each with the state and the trees before it. */
    ghost var blocks: seq<Past>

    /** An online store over a mapped forest that is at `point`. */
    constructor (forest: PackedForest, point: Point, chain: seq<Hash>, lsn: nat)
      requires forest.Valid() && forest.arena.transaction.None? && forest.arena.mapped
      requires |chain| == point.height + 1 && chain[|chain| - 1] == point.hash
      ensures Valid() && this.forest == forest && this.point == point && this.chain == chain && log == [] && blocks == []
      ensures this.lsn == durableLsn == lsn && generation == 0
    {
      hide Read, Represents, Balanced, View, Trees.WellFormed, Sound, Entries, OpenedRuns;
      this.forest, this.point, this.chain := forest, point, chain;
      this.lsn, durableLsn, generation, log := lsn, lsn, 0, [];
      start, blocks := point.height, [];
    }

    function Mem(): Memory
      reads this, forest, forest.arena
    {
      Memory(forest.arena.Stack(), forest.arena.next, forest.roots, forest.numLeaves, point, chain, lsn, durableLsn, generation)
    }

    ghost predicate Tipped()
      reads this
    { |chain| == point.height + 1 && chain[|chain| - 1] == point.hash && point.height == start + |blocks| }

    /** Every block above the base can be undone, and the log says how. */
    ghost predicate Undoes()
      reads this, forest, forest.arena
    { Remembered(forest.parentHash, blocks, Logical(Mem())) && AllInLog(log, blocks, start) }

    ghost predicate Valid()
      reads this, forest, forest.arena, forest.index
    { forest.Valid() && forest.arena.transaction.None? && forest.arena.mapped && Tipped() && Undoes() }

    /** Log the block; the write itself may fail. */
    method Append(tx: Tx, written: bool) returns (ok: bool)
      requires tx.lsn == lsn + 1
      modifies this`point, this`chain, this`lsn, this`log
      ensures ok <==> ChainValid(old(point), old(chain), tx) && written
      ensures ok ==> point == tx.point && chain == Chained(old(chain), tx) && lsn == tx.lsn && log == old(log) + [tx]
      ensures !ok ==> point == old(point) && chain == old(chain) && lsn == old(lsn) && log == old(log)
    {
      if !ChainValid(point, chain, tx) || !written { return false; }
      point, chain, lsn := tx.point, Chained(chain, tx), tx.lsn;
      log := log + [tx];
      return true;
    }

    /** Put everything back as it was when the transaction began. */
    method Abandon(roots: seq<NodeId>, leaves: nat, ghost rows: seq<Row>)
      requires forest.arena.Undoable() && StackHolds(forest.arena.free, forest.arena.freeSet) && forest.arena.mapped
      requires |roots| == Trees.ROWS == |rows| && (forall i | 0 <= i < |rows| :: roots[i] == RootId(rows[i]))
      requires Trees.WellFormed(Trees.Forest(leaves, rows))
      requires Represents(forest.parentHash, View(Layers(forest.arena.held.dirty, forest.arena.runs, forest.arena.base, forest.arena.blank),
                                                  forest.arena.held.books.next), rows)
      modifies forest, forest.arena, forest.index
      ensures forest.roots == roots && forest.numLeaves == leaves && forest.rows == rows
      ensures forest.arena.dirty == old(forest.arena.held.dirty) && forest.arena.next == old(forest.arena.held.books.next)
      ensures forest.arena.runs == old(forest.arena.runs) && forest.arena.transaction.None?
      ensures forest.arena.next < NO_NODE ==> forest.Valid()
      ensures old(forest.arena.Valid()) || forest.arena.next < NO_NODE ==> forest.arena.Ledger() == old(forest.arena.held.books)
    {
      hide Read, Represents, Balanced, InTransaction, View, Trees.WellFormed, UndoFree, Sound, Entries, OpenedRuns;
      ghost var held := forest.arena.held;
      BalancedSettled(Layers(held.dirty, forest.arena.runs, forest.arena.base, forest.arena.blank), held.books);
      forest.arena.RollbackTransaction();
      forest.roots, forest.numLeaves := roots, leaves;
      forest.rows := rows;
      var rebuilt := RebuildIndexAndValidate(forest);
    }

    /** The block's deletions are distinct leaves of the forest, and there are ids for its additions. */
    ghost predicate Applies(additions: seq<Hash>, deletions: seq<Hash>)
      requires forest.numLeaves + |additions| <= Bits.Pow2(Position.MAX_ROWS)
      reads this, forest, forest.arena
    {
      && NoRepeat(deletions) && (forall h | h in deletions :: forest.Contains(h))
      && |additions| + Branches(forest.numLeaves, |additions|) <= forest.Room()
    }

    /** Begin a transaction and apply the block in it; a block that cannot be applied is abandoned. */
    method Stage(additions: seq<Hash>, deletions: seq<Hash>) returns (r: Result<()>, ghost dead: set<NodeId>)
      requires Valid() && forest.numLeaves + |additions| <= Bits.Pow2(Position.MAX_ROWS)
      modifies forest, forest.arena, forest.index
      ensures r.Ok? ==> forest.Valid() && forest.arena.transaction.Some? && forest.arena.runs == old(forest.arena.runs)
                        && forest.arena.held == Held(old(forest.arena.dirty), old(forest.arena.Ledger()))
      ensures r.Ok? <==> old(Applies(additions, deletions))
      ensures r.Ok? ==> Applied(forest.rows, forest.numLeaves, old(forest.arena.Nodes()), old(forest.rows), old(forest.numLeaves), additions, deletions, dead)
                        && Spends(old(forest.arena.Ledger()), forest.arena.Ledger(), dead, |additions|)
      ensures r.Ok? && old(forest.arena.Neat()) ==>
                forest.arena.Neat() && Restacks(old(forest.arena.free), old(forest.arena.next), forest.arena.free, forest.arena.next, dead, |additions|,
                                                old(forest.numLeaves), forest.roots)
      ensures r.Ok? && additions == [] && deletions == [] ==> forest.arena.transaction == Some(map[]) && forest.roots == old(forest.roots)
      ensures r.Err? ==> Mem() == old(Mem()) && forest.rows == old(forest.rows) && forest.arena.Ledger() == old(forest.arena.Ledger())
      ensures r.Err? && old(forest.arena.next) < NO_NODE ==> Valid()
    {
      hide Read, Represents, Balanced, InTransaction, View, Trees.WellFormed, UndoFree, Sound, Entries, Count, KeysOf, OpenedRuns, Remembered,
           PruneRows, StripRows, CarryAll, Order, Survivors, AllItems, Branches, HashesOf, Named, NoRepeat, StackHolds, AllInLog, Spends, Restacks, Exact;
      var roots, leaves := forest.roots, forest.numLeaves;
      ghost var rows := forest.rows;
      forest.arena.BeginTransaction();
      var modified, gone := forest.Modify(additions, deletions);
      dead := gone;
      if modified.Err? {
        Abandon(roots, leaves, rows);
        return Err(modified.error), dead;
      }
      return Ok(()), dead;
    }

    /** Log the staged block and keep it, or put everything back. */
    method Finish(ghost m: Memory, roots: seq<NodeId>, leaves: nat, next: nat, ghost rows: seq<Row>, newPoint: Point, written: bool) returns (ok: bool, tx: Tx)
      requires forest.Valid() && forest.arena.transaction.Some? && forest.arena.mapped && newPoint.height == |chain|
      requires m == Mem().(layers := m.layers, next := next, roots := roots, leaves := leaves) && m.layers == Mem().layers.(dirty := forest.arena.held.dirty)
      requires forest.arena.held.books.next == next && CleanLayers(m.layers)
      requires |roots| == Trees.ROWS == |rows| && (forall i | 0 <= i < |rows| :: roots[i] == RootId(rows[i]))
      requires Trees.WellFormed(Trees.Forest(leaves, rows)) && Represents(forest.parentHash, View(m.layers, next), rows)
      modifies this`point, this`chain, this`lsn, this`log, forest, forest.arena, forest.index
      ensures ok <==> written
      ensures ok ==> forest.Valid() && forest.arena.transaction.None? && point == newPoint && chain == old(chain) + [newPoint.hash]
                     && forest.rows == old(forest.rows) && forest.numLeaves == old(forest.numLeaves)
                     && log == old(log) + [tx] && Block(m, tx, Mem()) && lsn == old(lsn) + 1
                     && forest.arena.Ledger() == old(forest.arena.Ledger()) && (old(forest.arena.transaction) == Some(map[]) ==> tx.changes == [])
                     && forest.arena.free == old(forest.arena.free) && forest.roots == old(forest.roots)
      ensures !ok ==> Mem() == m && log == old(log) && forest.rows == rows && forest.arena.transaction.None?
                      && forest.arena.Ledger() == old(forest.arena.held.books) && (next < NO_NODE ==> forest.Valid())
    {
      hide Read, Represents, Balanced, InTransaction, View, Trees.WellFormed, UndoFree, Sound, Entries, ChangesOf, Block, Count, KeysOf,
           StackHolds, CleanLayers, OpenedRuns;
      ValidUndoable(forest.arena);
      ValidClean(forest.arena);
      var changes := ChangesOf(forest.arena.Stack(), forest.arena.transaction.value);
      tx := Tx(CONNECT, lsn + 1, point, newPoint, leaves, forest.numLeaves, next, forest.arena.next, roots, forest.roots, changes);
      ok := Append(tx, written);
      if !ok {
        Abandon(roots, leaves, rows);
        return;
      }
      BlockLinks(m, Mem(), forest.arena.transaction.value, forest.arena.held);
      NoChanges(forest.arena.Stack());
      forest.arena.CommitTransaction();
    }

    /** Connect a block. Success logs a transaction that says exactly what changed and how to undo
        it; failure leaves the records, the free ids, the roots, the leaf count, the chain and the
        indexed leaves as they were. */
    method ModifyBlock(additions: seq<Hash>, deletions: seq<Hash>, newPoint: Point, written: bool)
      returns (r: Result<()>, ghost dead: set<NodeId>)
      requires Valid() && forest.numLeaves + |additions| <= Bits.Pow2(Position.MAX_ROWS)
      modifies this`point, this`chain, this`lsn, this`log, this`blocks, forest, forest.arena, forest.index
      ensures r.Ok? ==> Valid() && |log| == |old(log)| + 1 && log[..|old(log)|] == old(log) && point == newPoint && lsn == old(lsn) + 1
                        && Block(old(Mem()), log[|old(log)|], Mem())
                        && blocks == old(blocks) + [Past(old(Logical(Mem())), old(forest.rows), log[|old(log)|])]
      ensures r.Err? ==> Mem() == old(Mem()) && log == old(log) && forest.rows == old(forest.rows) && blocks == old(blocks)
                         && forest.arena.Ledger() == old(forest.arena.Ledger())
      ensures r.Err? && old(forest.arena.next) < NO_NODE ==> Valid()
      ensures r.Ok? <==> newPoint.height == old(point).height + 1 && written && old(Applies(additions, deletions))
      ensures r.Ok? ==> Applied(forest.rows, forest.numLeaves, old(forest.arena.Nodes()), old(forest.rows), old(forest.numLeaves), additions, deletions, dead)
                        && Spends(old(forest.arena.Ledger()), forest.arena.Ledger(), dead, |additions|)
      ensures r.Ok? && old(forest.arena.Neat()) ==>
                forest.arena.Neat() && Restacks(old(forest.arena.free), old(forest.arena.next), forest.arena.free, forest.arena.next, dead, |additions|,
                                                old(forest.numLeaves), forest.roots)
      ensures r.Ok? && additions == [] && deletions == [] ==> log[|old(log)|].changes == [] && forest.roots == old(forest.roots)
    {
      hide Read, Represents, Balanced, InTransaction, View, Trees.WellFormed, UndoFree, Sound, Entries, ChangesOf, Block, Count, KeysOf,
           StackHolds, Applied, CleanLayers, OpenedRuns, Remembered, AllInLog, PastOk, Holds, InShape, Spends, Restacks, Exact;
      dead := {};
      if newPoint.height != point.height + 1 { return Err("online block height does not extend the durable tip"), dead; }
      var roots, leaves, next := forest.roots, forest.numLeaves, forest.arena.next;
      ghost var rows := forest.rows;
      ghost var m := Mem();
      ValidClean(forest.arena);
      ValidHolds(this);
      var staged, gone := Stage(additions, deletions);
      dead := gone;
      if staged.Err? { return staged, dead; }
      var finished, tx := Finish(m, roots, leaves, next, rows, newPoint, written);
      if !finished { return Err("WAL append failed"), dead; }
      BlockPast(forest.parentHash, m, tx, Mem(), rows);
      PushBlock(forest.parentHash, blocks, Past(Logical(m), rows, tx), Logical(Mem()), old(log), start);
      blocks := blocks + [Past(Logical(m), rows, tx)];
      return Ok(()), dead;
    }

    /** Apply a reversal in a transaction of its own, or put everything back. */
    method Unwind(tx: Tx, written: bool) returns (ok: bool)
      requires Valid() && tx.kind == DISCONNECT && tx.lsn == lsn + 1 && |chain| >= 2
      requires tx.beforeNext == forest.arena.next && tx.beforeRoots == forest.roots && tx.beforeLeaves == forest.numLeaves
      requires Durability.CleanChanges(tx.changes) && tx.afterNext <= tx.beforeNext && (forall i | 0 <= i < |tx.changes| :: tx.changes[i].id < tx.beforeNext)
      requires forall id: NodeId | tx.afterNext <= id < tx.beforeNext :: id in IdsOf(tx.changes)
      modifies this`point, this`chain, this`lsn, this`log, forest, forest.arena, forest.index
      ensures ok <==> written && Durability.Expected(old(forest.arena.Stack()), tx.changes) && ChainValid(old(point), old(chain), tx)
      ensures forest.rows == old(forest.rows)
      ensures ok ==> Mem() == Durability.Undone(old(Mem()), tx) && log == old(log) + [tx] && StackHolds(forest.arena.free, forest.arena.freeSet)
                     && forest.arena.Opened()
                     && forest.arena.live + |forest.arena.freeSet| == tx.afterNext + |LiveFrom(forest.arena.Stack(), tx.afterNext, tx.beforeNext)|
                     && (Balanced(forest.arena.Stack(), forest.arena.Ledger()) <==> LiveFrom(forest.arena.Stack(), forest.arena.next, tx.beforeNext) == {})
                     && IndexCovers(forest, tx.beforeNext)
      ensures ok && tx.afterNext == tx.beforeNext && old(forest.arena.Neat()) && NoneRevived(tx.changes) ==>
                forest.arena.Neat() && forest.arena.free == old(forest.arena.free) + FreedBy(tx.changes)
      ensures !ok ==> Mem() == old(Mem()) && log == old(log)
      ensures !ok && old(forest.arena.next) < NO_NODE ==> Valid()
    {
      hide Read, Represents, Balanced, InTransaction, View, Trees.WellFormed, UndoFree, Sound, Entries, Count, KeysOf, OpenedRuns, Remembered, AllInLog,
           StackHolds, Overlay, LiveFrom, FreeIds, Durability.Expected, ChainValid, Exact, FreedBy, NoneRevived;
      ghost var rows := forest.rows;
      forest.arena.BeginTransaction();
      var applied := ApplyPhysicalChanges(forest, tx.changes, tx.afterNext);
      ok := false;
      if applied.Ok? {
        forest.roots, forest.numLeaves := tx.afterRoots, tx.afterLeaves;
        ok := Append(tx, written);
      }
      if !ok { Abandon(tx.beforeRoots, tx.beforeLeaves, rows); }
    }

    /** Take the tip off again. It succeeds exactly when the records are still those the tip left;
        then the records, roots, leaf count, point and chain from before the block are back, and the
        free list and the index agree with them exactly when undoing makes nothing live beyond the
        restored end. Failure changes nothing. */
    method RollbackOnlineBlock(written: bool) returns (r: Result<Point>)
      requires Valid()
      modifies this`point, this`chain, this`lsn, this`log, this`blocks, forest, forest.arena, forest.index
      ensures r.Ok? <==> written && Durability.Rollback(old(Mem()), old(log)).Ok?
      ensures Durability.Rollback(old(Mem()), old(log)).Ok? <==>
              old(blocks) != [] && Durability.Expected(old(forest.arena.Stack()), Inverse(old(blocks)[|old(blocks)| - 1].tx.changes))
      ensures r.Ok? ==> Durability.Rollback(old(Mem()), old(log)) == Ok(Mem()) && lsn == old(lsn) + 1 && r.value == old(blocks)[|old(blocks)| - 1].before.point
                        && RolledBack(old(blocks)[|old(blocks)| - 1]) && blocks == old(blocks)[..|old(blocks)| - 1]
                        && log == old(log) + [Durability.Reversal(old(Mem()), old(blocks)[|old(blocks)| - 1].tx)]
                        && (Valid() <==> Stale(old(blocks)[|old(blocks)| - 1].tx) == {})
                        && forest.arena.live + |forest.arena.freeSet| == forest.arena.next + |Stale(old(blocks)[|old(blocks)| - 1].tx)|
      ensures r.Ok? && old(forest.arena.Neat()) ==>
                var t := old(blocks)[|old(blocks)| - 1].tx;
                t.beforeNext == t.afterNext && NoneRevived(Inverse(t.changes)) ==>
                  forest.arena.Neat() && forest.arena.free == old(forest.arena.free) + FreedBy(Inverse(t.changes))
      ensures r.Err? ==> Mem() == old(Mem()) && log == old(log) && forest.rows == old(forest.rows) && blocks == old(blocks)
      ensures r.Err? && old(forest.arena.next) < NO_NODE ==> Valid()
    {
      hide Read, Represents, Balanced, InTransaction, View, Trees.WellFormed, UndoFree, Sound, Entries, Count, KeysOf, OpenedRuns, Remembered, AllInLog,
           StackHolds, Durability.LastConnect, Overlay, Inverse, Durability.Expected, ChainValid, PastOk, Stale, RolledBack, Exact, FreedBy, NoneRevived;
      if point.height == 0 { return Err("cannot roll back the genesis point"); }
      TipFound(this);
      var found := Durability.LastConnect(log, point);
      if found.None? { return Err("tip before-images are outside the retained WAL window"); }
      TipUndoes(forest.parentHash, Mem(), blocks[|blocks| - 1]);
      var ok := TakeOff(found.value, written);
      if !ok { return Err("WAL rollback failed"); }
      return Ok(found.value.previous);
    }

    /** Put the before-images of the tip's transaction back, and log that. */
    method TakeOff(t: Tx, written: bool) returns (ok: bool)
      requires Valid() && blocks != [] && t == blocks[|blocks| - 1].tx && PastOk(forest.parentHash, blocks[|blocks| - 1], Logical(Mem()))
      modifies this`point, this`chain, this`lsn, this`log, this`blocks, forest, forest.arena, forest.index
      ensures ok <==> written && Durability.Expected(old(forest.arena.Stack()), Inverse(t.changes))
      ensures old(Mem()).chain != []
      ensures ok ==> Mem() == Durability.Undone(old(Mem()), Durability.Reversal(old(Mem()), t)) && log == old(log) + [Durability.Reversal(old(Mem()), t)]
                     && RolledBack(old(blocks)[|old(blocks)| - 1]) && blocks == old(blocks)[..|old(blocks)| - 1] && (Valid() <==> Stale(t) == {})
                     && forest.arena.live + |forest.arena.freeSet| == forest.arena.next + |Stale(t)|
      ensures ok && t.beforeNext == t.afterNext && old(forest.arena.Neat()) && NoneRevived(Inverse(t.changes)) ==>
                forest.arena.Neat() && forest.arena.free == old(forest.arena.free) + FreedBy(Inverse(t.changes))
      ensures !ok ==> Mem() == old(Mem()) && log == old(log) && forest.rows == old(forest.rows) && blocks == old(blocks)
      ensures !ok && old(forest.arena.next) < NO_NODE ==> Valid()
    {
      hide Read, Represents, Balanced, InTransaction, View, Trees.WellFormed, UndoFree, Sound, Entries, Links, Images, Count, KeysOf, OpenedRuns, Remembered, AllInLog,
           StackHolds, Overlay, LiveFrom, FreeIds, Inverse, Durability.Expected, Same, InShape, ChainValid, LastChange, Holds, Stale, Exact, FreedBy, NoneRevived;
      ghost var m, top := Mem(), blocks[|blocks| - 1];
      var tx := Durability.Reversal(Mem(), t);
      TipUndoes(forest.parentHash, m, top);
      ok := Unwind(tx, written);
      if ok {
        forest.rows := top.rows;
        blocks := blocks[..|blocks| - 1];
        UndoneForest(this, old(blocks), Logical(m), old(log), tx);
        StaleBeyond(t, m.layers);
        IndexShrunk(forest, m.next);
        forest.arena.CommitTransaction();
        ValidAlone(forest.arena);
      }
    }

    /** Publish the dirty records as the newest run. */
    method SealDelta()
      requires Valid()
      modifies this`durableLsn, this`generation, forest.arena`dirty, forest.arena`runs, forest.arena`indexes
      ensures Valid() && Mem() == DeltaStore.Sealed(old(Mem())) && Logical(Mem()) == old(Logical(Mem()))
    {
      hide Read, Represents, Balanced, InTransaction, View, Trees.WellFormed, Sound, Entries, Count, KeysOf, OpenedRuns, Remembered, AllInLog, StackHolds, Seal;
      SealView(forest.arena.Stack(), forest.arena.next);
      forest.arena.SealDirty();
      durableLsn, generation := lsn, generation + 1;
    }

    /** Publish one snapshot in the place of all runs. */
    method CompactDeltas()
      requires Valid() && forest.arena.dirty == map[] && lsn == durableLsn
      modifies this`generation, forest.arena`runs, forest.arena`indexes
      ensures Valid() && Mem() == DeltaStore.Compacted(old(Mem())) && Same(Logical(Mem()), old(Logical(Mem())))
    {
      hide Read, Balanced, InTransaction, View, Trees.WellFormed, Sound, Entries, Count, OpenedRuns, Remembered, AllInLog, StackHolds, Compact, Laid, LiveIds;
      ghost var now, nodes := Logical(Mem()), forest.arena.Nodes();
      forest.arena.CompactDeltas();
      generation := generation + 1;
      RememberedSame(forest.parentHash, blocks, now, Logical(Mem()));
      RestoredForest(forest.parentHash, Logical(Mem()), now, forest.rows);
      SimilarKeys(forest.arena.Nodes(), nodes, forest.bucket);
    }

    /** Connect a block and take it off again, both logged: whenever the block applies, both succeed,
        and the records, roots, leaf count, point, chain and trees are those from before. The books
        and the index are too, exactly when nothing live lay where the block extended the arena. */
    method ConnectThenUndo(additions: seq<Hash>, deletions: seq<Hash>, newPoint: Point) returns (r: Result<Point>, ghost reached: nat)
      requires Valid() && forest.numLeaves + |additions| <= Bits.Pow2(Position.MAX_ROWS)
      modifies this`point, this`chain, this`lsn, this`log, this`blocks, forest, forest.arena, forest.index
      ensures r.Ok? <==> newPoint.height == old(point).height + 1 && old(Applies(additions, deletions))
      ensures r.Ok? ==> r.value == old(point) && lsn == old(lsn) + 2 && blocks == old(blocks) && forest.rows == old(forest.rows) && forest.TreesValid()
                        && Same(Logical(Mem()).(lsn := old(lsn)), old(Logical(Mem())))
                        && (Valid() <==> LiveFrom(old(forest.arena.Stack()), old(forest.arena.next), reached) == {})
      ensures r.Err? ==> Mem() == old(Mem()) && log == old(log) && forest.rows == old(forest.rows) && blocks == old(blocks)
    {
      hide Read, Represents, Balanced, InTransaction, View, Trees.WellFormed, UndoFree, Sound, Entries, Count, KeysOf, OpenedRuns, Remembered, AllInLog,
           StackHolds, Overlay, Inverse, Durability.Expected, Block, Stale, Applied, Same, LiveFrom, Durability.LastConnect, Durability.Rollback, Applies;
      ghost var m := Mem();
      reached := forest.arena.next;
      var connected, dead := ModifyBlock(additions, deletions, newPoint, true);
      if connected.Err? { return Err(connected.error), reached; }
      reached := forest.arena.next;
      ghost var t := log[|old(log)|];
      FreshExpected(m, t, Mem());
      BlockStale(m, t, Mem());
      r := RollbackOnlineBlock(true);
      assert blocks == old(blocks);
    }

    /** The state and the trees from before the block are back. */
    ghost predicate RolledBack(top: Past)
      reads this, forest, forest.arena
    {
      && Same(Logical(Mem()).(lsn := top.before.lsn), top.before) && forest.rows == top.rows && forest.TreesValid() && Tipped() && Undoes()
    }
  }

  /** Free slots hold no keys. */
  lemma SimilarKeys(a: Nodes, b: Nodes, bucket: Hash -> nat)
    requires Similar(a, b)
    ensures KeysOf(a, bucket) == KeysOf(b, bucket)
  {
    var ka, kb := KeysOf(a, bucket).hashes, KeysOf(b, bucket).hashes;
    assert ka.Keys == kb.Keys;
    assert forall id | id in ka :: ka[id] == kb[id];
    assert ka == kb;
  }

  lemma RememberedSame(parentHash: Combine, blocks: seq<Past>, a: State, b: State)
    requires Remembered(parentHash, blocks, a) && Same(b, a)
    ensures Remembered(parentHash, blocks, b)
  {
    hide PastOk;
    assert b.(lsn := a.lsn) == b;
    forall k | 0 <= k < |blocks| ensures PastOk(parentHash, blocks[k], After(blocks, k, b)) {
      assert PastOk(parentHash, blocks[k], After(blocks, k, a));
      if k + 1 == |blocks| { PastSame(parentHash, blocks[k], a, b); }
    }
  }

  /** Undoing a block makes live again exactly what was live beyond the end before it. */
  lemma BlockStale(m: Memory, t: Tx, m': Memory)
    requires Block(m, t, m')
    ensures Stale(t) == {} <==> LiveFrom(m.layers, m.next, m'.next) == {}
  {
    hide Read, Overlay, LastChange, Inverse, Images, Links, LiveFrom, Stale, CleanLayers, Durability.CleanChanges;
    StaleBeyond(t, m.layers);
    UndoBalanced(m, t, m', m.layers);
  }

  /** The log's last connect of the tip is the one on top of the blocks. */
  lemma TipFound(f: OnlineForest)
    requires f.Valid()
    ensures Durability.LastConnect(f.log, f.point) == if f.blocks == [] then None else Some(f.blocks[|f.blocks| - 1].tx)
    ensures f.blocks != [] ==> PastOk(f.forest.parentHash, f.blocks[|f.blocks| - 1], Logical(f.Mem()))
  {
    hide Durability.LastConnect, PastOk, AllInLog, Read, Represents, View, Sound, Entries;
    if f.blocks != [] {
      var top := f.blocks[|f.blocks| - 1];
      assert PastOk(f.forest.parentHash, top, After(f.blocks, |f.blocks| - 1, Logical(f.Mem())));
      PastConnects(f.forest.parentHash, top, Logical(f.Mem()));
    }
    TipInLog(f.log, f.blocks, f.start, f.point);
  }

  /** What the block on top says of the undoing. */
  lemma TipUndoes(parentHash: Combine, m: Memory, top: Past)
    requires PastOk(parentHash, top, Logical(m))
    ensures var t, tx := top.tx, Durability.Reversal(m, top.tx);
            && t.afterLeaves == m.leaves && t.afterNext == m.next && t.afterRoots == m.roots && t.previous == top.before.point
            && t.beforeNext <= t.afterNext && Touches(t) && |m.chain| >= 2 && ChainValid(m.point, m.chain, tx)
            && Durability.CleanChanges(tx.changes) && (forall i | 0 <= i < |tx.changes| :: tx.changes[i].id < t.afterNext)
            && (forall id: NodeId | t.beforeNext <= id < t.afterNext :: id in IdsOf(tx.changes))
            && Same(Logical(Durability.Undone(m, tx)).(lsn := top.before.lsn), top.before) && m.point.height == top.before.point.height + 1
  {
    hide Links, Images, InShape, Holds, Touches, Same, Overlay, Inverse, View, ChainValid, Durability.CleanChanges, Chained;
    ConnectedFacts(m, top.before, top.tx);
    InverseIds(top.tx);
    PastConnects(parentHash, top, Logical(m));
    ShapeHeight(top.before);
    Durability.UndoRestores(m, top.before, top.tx);
  }

  lemma ShapeHeight(s: State)
    requires InShape(s)
    ensures |s.chain| == s.point.height + 1 && s.chain[|s.chain| - 1] == s.point.hash
  {}

  lemma SameHeader(a: State, b: State)
    requires Same(a.(lsn := b.lsn), b)
    ensures a.point == b.point && a.chain == b.chain && a.roots == b.roots && a.leaves == b.leaves && a.next == b.next
  {}

  /** After the records, the log and the trees are back, so is what they say of the blocks below. */
  lemma UndoneForest(f: OnlineForest, blocks: seq<Past>, now: State, log: seq<Tx>, tx: Tx)
    requires blocks != [] && Remembered(f.forest.parentHash, blocks, now) && AllInLog(log, blocks, f.start) && tx.kind == DISCONNECT
    requires now.point.height == f.start + |blocks| && now.point.height == blocks[|blocks| - 1].before.point.height + 1
    requires f.blocks == blocks[..|blocks| - 1] && f.log == log + [tx] && f.forest.rows == blocks[|blocks| - 1].rows
    requires var before := blocks[|blocks| - 1].before; Same(Logical(f.Mem()).(lsn := before.lsn), before)
    ensures f.RolledBack(blocks[|blocks| - 1])
  {
    hide Represents, View, Trees.WellFormed, Same, Links, Images, InShape, Touches, Durability.CleanChanges, AllInLog;
    var top := blocks[|blocks| - 1];
    assert PastOk(f.forest.parentHash, top, After(blocks, |blocks| - 1, now));
    ShapeHeight(top.before);
    SameHeader(Logical(f.Mem()), top.before);
    RestoredForest(f.forest.parentHash, Logical(f.Mem()), top.before, top.rows);
    PopBlock(f.forest.parentHash, blocks, now, Logical(f.Mem()), log, tx, f.start);
  }

  lemma ValidHolds(f: OnlineForest)
    requires f.Valid()
    ensures Holds(f.forest.parentHash, Logical(f.Mem()), f.forest.rows) && InShape(Logical(f.Mem()))
  {
    hide Represents, Trees.WellFormed, Read, Balanced, Sound, Entries, Remembered, AllInLog, OpenedRuns;
  }

  /** A block is one more on the chain. */
  lemma BlockPast(parentHash: Combine, m: Memory, tx: Tx, m': Memory, rows: seq<Row>)
    requires Block(m, tx, m') && InShape(Logical(m)) && Holds(parentHash, Logical(m), rows)
    ensures PastOk(parentHash, Past(Logical(m), rows, tx), Logical(m')) && tx.point == m'.point
  {
    hide Holds, Images, Rewrites, InShape, Touches, Durability.CleanChanges, View, ChainValid, Chained, Read, CleanLayers;
    assert Logical(m').(lsn := tx.lsn) == Logical(m');
  }

  /** With nothing live beyond the end, the index holds exactly the leaves below it. */
  lemma IndexShrunk(forest: PackedForest, bound: nat)
    requires IndexCovers(forest, bound) && forest.arena.next <= bound
    ensures LiveFrom(forest.arena.Stack(), forest.arena.next, bound) == {} ==> forest.IndexValid()
  {
    hide Read, Sound, Count, Entries;
    var l, n := forest.arena.Stack(), forest.arena.next;
    if LiveFrom(l, n, bound) == {} {
      forall id: NodeId | n <= id < bound ensures Read(l, id).kind == FREE { assert id !in LiveFrom(l, n, bound); }
      assert KeysOf(View(l, bound), forest.bucket).hashes == KeysOf(View(l, n), forest.bucket).hashes;
    }
  }
}
