/** The packed forest (PackedForest::Impl in src/forest.cpp): roots per row over the arena,
    with the leaf index beside it. */
module Packed {
  import opened Bits
  import opened Position
  import opened Common
  import opened Records
  import opened Trees
  import opened ArenaTrees
  import opened ForestState
  import opened Accumulator
  import opened Arena
  import DeltaRuns
  import opened LeafTable
  import opened LeafIndex
  import opened ArenaPaths
  import Ordered
  import ProofPlan
  import Verify
  import Complete

  /** The arena's live leaves, as the index sees them. */
  function KeysOf(nodes: Nodes, bucket: Hash -> nat): Keys {
    Keys(map id | id in nodes && nodes[id].kind == LEAF :: nodes[id].hash, bucket)
  }

  /** Leaf records keep their hash, and no leaf comes or goes. */
  ghost predicate SameLeaves(nodes: Nodes, nodes': Nodes) {
    && nodes'.Keys == nodes.Keys
    && forall id | id in nodes :: nodes'[id].kind == nodes[id].kind && (nodes[id].kind == LEAF ==> nodes'[id].hash == nodes[id].hash)
  }

  lemma SameKeys(nodes: Nodes, nodes': Nodes, bucket: Hash -> nat)
    requires SameLeaves(nodes, nodes')
    ensures KeysOf(nodes', bucket) == KeysOf(nodes, bucket) && LiveIds(nodes') == LiveIds(nodes)
  {}

  /** The index does not depend on leaves it does not hold. */
  lemma IndexKeys(index: KeylessLeafIndex, keys: Keys, keys': Keys)
    requires index.Valid(keys) && keys'.bucket == keys.bucket
    requires forall id | id in index.Ids() :: id in keys'.hashes && keys'.hashes[id] == keys.hashes[id]
    ensures index.Valid(keys')
  {
    hide Home, PowerOfTwo, Count;
    var t := index.View();
    forall s: nat | IsFull(t, s) ensures t.slots[s] in Entries(t) {}
    forall s: nat, q: nat | IsFull(t, s) && q < Cap(t) && OnPath(keys', t, s, q) ensures t.control[q] != Empty {
      SameHome(keys, keys', t, s);
      assert OnPath(keys, t, s, q);
    }
  }

  lemma SameHome(keys: Keys, keys': Keys, t: Table, s: nat)
    requires Shaped(t) && s < Cap(t) && t.slots[s] in keys.hashes && t.slots[s] in keys'.hashes
    requires keys.bucket == keys'.bucket && keys'.hashes[t.slots[s]] == keys.hashes[t.slots[s]]
    ensures HomeOf(keys, t, s) == HomeOf(keys', t, s)
  {}

  class PackedForest {
    const parentHash: Combine
    const bucket: Hash -> nat
    const arena: NodeArena
    const index: KeylessLeafIndex
    var roots: seq<NodeId>
    var numLeaves: nat
    /** The trees the records stand for. */
    ghost var rows: seq<Row>

    /** The empty forest. */
    constructor (parentHash: Combine, bucket: Hash -> nat, blank: NodeRecord, sketch: DeltaRuns.Sketch, mapped: bool)
      requires blank.kind == FREE && blank.parent == NO_NODE && blank.left == NO_NODE && blank.right == NO_NODE
      ensures Valid() && fresh(arena) && fresh(index) && numLeaves == 0 && rows == seq(ROWS, _ => None)
      ensures arena.transaction.None? && arena.next == 0
    {
      this.parentHash, this.bucket := parentHash, bucket;
      arena := new NodeArena([], blank, [], sketch, mapped);
      index := new KeylessLeafIndex(Keys(map[], bucket));
      roots := seq(ROWS, _ => NO_NODE);
      numLeaves := 0;
      rows := seq(ROWS, _ => None);
      new;
      hide Read, Balanced, Sound, Count, View, Represents, WellFormed, KeysOf, Entries;
      NoNodes(arena.Stack());
      NoKeys(bucket);
      NoTrees(parentHash);
    }

    ghost function Abstract(): Forest
      reads this
    { Forest(numLeaves, rows) }

    ghost predicate TreesValid()
      reads this, arena
    {
      && |roots| == ROWS == |rows|
      && Represents(parentHash, arena.Nodes(), rows)
      && (forall i | 0 <= i < ROWS :: roots[i] == RootId(rows[i]))
      && WellFormed(Abstract())
    }

    ghost predicate IndexValid()
      reads this, arena, index
    {
      var keys := KeysOf(arena.Nodes(), bucket);
      index.Valid(keys) && index.Ids() == keys.hashes.Keys
    }

    ghost predicate Valid()
      reads this, arena, index
    { arena.Valid() && TreesValid() && IndexValid() }

    /** Set branch hashes from `start` up to the root. */
    method Recompute(start: NodeId, ghost t: Tree)
      requires arena.Valid() && StandsBut(parentHash, arena.Nodes(), t, start)
      modifies arena`dirty, arena`transaction
      ensures arena.Valid() && Stands(parentHash, arena.Nodes(), t)
      ensures SameLeaves(old(arena.Nodes()), arena.Nodes()) && arena.Ledger() == old(arena.Ledger())
      ensures forall id | id in arena.Nodes() && id !in Ids(t) :: arena.Nodes()[id] == old(arena.Nodes())[id]
      ensures arena.Continues(old(arena.transaction.Some?), old(arena.held)) && arena.runs == old(arena.runs)
    {
      hide Read, Balanced, InTransaction, OpenedRuns, StackHolds, View, Linked, Hashed, Ids, Depth, StandsBut;
      var node := start;
      ghost var was := arena.Nodes();
      while node != NO_NODE
        invariant arena.Valid() && StandsBut(parentHash, arena.Nodes(), t, node)
        invariant SameLeaves(was, arena.Nodes()) && arena.Ledger() == old(arena.Ledger())
        invariant forall id | id in arena.Nodes() && id !in Ids(t) :: arena.Nodes()[id] == was[id]
        invariant arena.Continues(old(arena.transaction.Some?), old(arena.held)) && arena.runs == old(arena.runs)
        decreases if node != NO_NODE && node in Ids(t) then 1 + Depth(t, node) else 0
      {
        StaleBranch(parentHash, arena.Nodes(), t, node);
        StandsRehash(parentHash, arena.Nodes(), t, node);
        NodesBelow(arena);
        var record := arena.Get(node);
        var left := arena.Get(record.left);
        var right := arena.Get(record.right);
        var hash := parentHash(left.hash, right.hash);
        arena.Set(node, record.(hash := hash));
        node := record.parent;
      }
      StandsAll(parentHash, arena.Nodes(), t);
    }

    /** Drop a deleted leaf from the index, then free it and its former parent. */
    method Release(leaf: NodeId, parent: NodeId, ghost row: nat, ghost o: Row, ghost was: Nodes)
      requires arena.Valid() && IndexValid()
      requires Detached(parentHash, was, arena.Nodes(), rows, row, o, leaf, parent)
      modifies this`rows, arena`dirty, arena`transaction, arena`free, arena`freeSet, arena`freeOperations, arena`live, index`slots, index`control, index`size
      ensures arena.Valid() && IndexValid() && rows == old(rows)[row := o]
      ensures Represents(parentHash, arena.Nodes(), rows)
      ensures arena.next == old(arena.next) && old(arena.freeSet) < arena.freeSet && leaf in arena.freeSet
      ensures (old(arena.Neat()) ==> arena.Neat()) && Pushes(old(arena.free), arena.free, {leaf}, 1)
      ensures index.Ids() == old(index.Ids()) - {leaf}
      ensures index.size == old(index.size) - 1 && index.tombstones == old(index.tombstones) && |index.slots| == |old(index.slots)|
      ensures arena.Continues(old(arena.transaction.Some?), old(arena.held)) && arena.runs == old(arena.runs)
    {
      hide Read, Balanced, InTransaction, OpenedRuns, StackHolds, View, Represents, Stands, Sound, Count, Entries, Detached, KeysOf, RowIds, Exact;
      ghost var mid := arena.Nodes();
      ghost var keys := KeysOf(mid, bucket);
      DetachedReleased(parentHash, was, mid, rows, row, o, leaf, parent);
      DetachedKinds(parentHash, was, mid, rows, row, o, leaf, parent);
      NodesBelow(arena);
      KeysAt(mid, bucket, leaf);
      var record := arena.Get(leaf);
      var erased := index.Erase(LiveKeys(), record.hash, leaf);
      arena.Free(leaf);
      NodesBelow(arena);
      KeysFreed(mid, bucket, leaf);
      IndexKeys(index, keys, KeysOf(arena.Nodes(), bucket));
      if parent != NO_NODE {
        KeysFreed(arena.Nodes(), bucket, parent);
        arena.Free(parent);
      }
      assert arena.free[|old(arena.free)|] == leaf;
      rows := rows[row := o];
    }

    /** The row where a root is registered. */
    method FindRoot(id: NodeId) returns (row: nat)
      requires id in roots
      ensures row < |roots| && roots[row] == id
    {
      ghost var k :| 0 <= k < |roots| && roots[k] == id;
      row := 0;
      while roots[row] != id
        invariant row <= k
        decreases k - row
      {
        row := row + 1;
      }
    }

    /** A leaf that is a whole tree. */
    method DeleteRootLeaf(leaf: NodeId, ghost row: nat)
      requires Valid() && row < ROWS && rows[row].Some? && rows[row].value.Leaf? && rows[row].value.id == leaf
      modifies this, arena`dirty, arena`transaction, arena`free, arena`freeSet, arena`freeOperations, arena`live, index`slots, index`control, index`size
      ensures arena.Valid() && IndexValid() && Represents(parentHash, arena.Nodes(), rows)
      ensures rows == old(rows)[row := None] && roots == old(roots)[row := NO_NODE] && numLeaves == old(numLeaves)
      ensures Shrunk(leaf, old(arena.next), old(arena.freeSet), old(index.size), old(index.tombstones), |old(index.slots)|)
      ensures (old(arena.Neat()) ==> arena.Neat()) && Pushes(old(arena.free), arena.free, {leaf}, 1)
      ensures index.Ids() == old(index.Ids()) - {leaf}
      ensures arena.Continues(old(arena.transaction.Some?), old(arena.held)) && arena.runs == old(arena.runs)
    {
      hide Read, Balanced, InTransaction, OpenedRuns, StackHolds, View, Sound, Count, Entries, Laid, AllIds, WellFormed, Pushes, Exact;
      RootUnique(parentHash, arena.Nodes(), rows, roots, row);
      assert roots[row] == leaf;
      var r := FindRoot(leaf);
      roots := roots[r := NO_NODE];
      DetachRootLeaf(parentHash, arena.Nodes(), rows, row);
      Release(leaf, NO_NODE, row, None, arena.Nodes());
    }

    /** A leaf whose parent is the root of its tree: the sibling becomes the root. */
    method DeleteUnderRoot(leaf: NodeId, parent: NodeId, sibling: NodeId, ghost row: nat)
      requires Valid() && row < ROWS && rows[row].Some?
      requires var t := rows[row].value;
               t.Node? && leaf in LeafIds(t) && Direct(t, leaf) && parent == t.id && sibling == SiblingOf(t, leaf).id
      modifies this, arena`dirty, arena`transaction, arena`free, arena`freeSet, arena`freeOperations, arena`live, index`slots, index`control, index`size
      ensures arena.Valid() && IndexValid() && Represents(parentHash, arena.Nodes(), rows)
      ensures rows == old(rows)[row := Some(SiblingOf(old(rows)[row].value, leaf))]
      ensures roots == old(roots)[row := sibling] && numLeaves == old(numLeaves)
      ensures Shrunk(leaf, old(arena.next), old(arena.freeSet), old(index.size), old(index.tombstones), |old(index.slots)|)
      ensures (old(arena.Neat()) ==> arena.Neat()) && Pushes(old(arena.free), arena.free, {leaf}, 1)
      ensures index.Ids() == old(index.Ids()) - {leaf}
      ensures arena.Continues(old(arena.transaction.Some?), old(arena.held)) && arena.runs == old(arena.runs)
    {
      hide Read, Balanced, InTransaction, OpenedRuns, StackHolds, View, Sound, Count, Entries, Laid, AllIds, WellFormed, Pushes, Exact, SiblingOf, KeysOf, LeafIds;
      ghost var was := arena.Nodes();
      ghost var t := rows[row].value;
      RootUnique(parentHash, was, rows, roots, row);
      assert roots[row] == parent;
      var r := FindRoot(parent);
      roots := roots[r := sibling];
      DetachUnderRoot(parentHash, was, rows, row, leaf, bucket);
      NodesBelow(arena);
      assert sibling in arena.Nodes();
      var record := arena.Get(sibling);
      arena.Set(sibling, record.(parent := NO_NODE));
      Release(leaf, parent, row, Some(SiblingOf(t, leaf)), was);
    }

    /** A leaf further down: the sibling moves below the grandparent and hashes are recomputed. */
    method DeleteDeep(leaf: NodeId, parent: NodeId, sibling: NodeId, grandparent: NodeId, ghost row: nat)
      requires Valid() && row < ROWS && rows[row].Some?
      requires var t := rows[row].value;
               && t.Node? && leaf in LeafIds(t) && !Direct(t, leaf) && parent == ParentOf(t, leaf).id
               && sibling == SiblingOf(t, leaf).id && grandparent == GrandOf(t, leaf, NO_NODE)
      modifies this`rows, arena`dirty, arena`transaction, arena`free, arena`freeSet, arena`freeOperations, arena`live, index`slots, index`control, index`size
      ensures arena.Valid() && IndexValid() && Represents(parentHash, arena.Nodes(), rows)
      ensures rows == old(rows)[row := Prune(old(rows)[row].value, {leaf})]
      ensures Shrunk(leaf, old(arena.next), old(arena.freeSet), old(index.size), old(index.tombstones), |old(index.slots)|)
      ensures (old(arena.Neat()) ==> arena.Neat()) && Pushes(old(arena.free), arena.free, {leaf}, 1)
      ensures index.Ids() == old(index.Ids()) - {leaf}
      ensures arena.Continues(old(arena.transaction.Some?), old(arena.held)) && arena.runs == old(arena.runs)
    {
      hide Read, Balanced, InTransaction, OpenedRuns, StackHolds, View, Sound, Count, Entries, Laid, AllIds, WellFormed, SiblingOf, ParentOf, GrandOf,
           KeysOf, LeafIds, Prune, Stands, StandsBut, Detached, Represents, Pushes, Exact;
      ghost var was := arena.Nodes();
      ghost var t := rows[row].value;
      DeepFacts(parentHash, was, rows, row, leaf);
      NodesBelow(arena);
      var g := arena.Get(grandparent);
      arena.Set(grandparent, if g.left == parent then g.(left := sibling) else g.(right := sibling));
      var s := arena.Get(sibling);
      arena.Set(sibling, s.(parent := grandparent));
      ghost var mid := arena.Nodes();
      StandsDeep(parentHash, was, mid, t, leaf);
      Recompute(grandparent, Prune(t, {leaf}).value);
      DetachDeep(parentHash, was, mid, arena.Nodes(), rows, row, leaf);
      SameKeys(was, arena.Nodes(), bucket);
      Release(leaf, parent, row, Prune(t, {leaf}), was);
    }

    /** Delete one leaf; its sibling, if any, takes the place of their parent. */
    method DeleteId(leaf: NodeId) returns (ok: bool)
      requires Valid()
      modifies this, arena`dirty, arena`transaction, arena`free, arena`freeSet, arena`freeOperations, arena`live, index`slots, index`control, index`size
      ensures Valid() && numLeaves == old(numLeaves)
      ensures ok == (leaf in old(arena.Nodes()) && old(arena.Nodes())[leaf].kind == LEAF)
      ensures ok ==> rows == PruneRows(old(rows), {leaf})
      ensures ok ==> Shrunk(leaf, old(arena.next), old(arena.freeSet), old(index.size), old(index.tombstones), |old(index.slots)|)
      ensures ok ==> (old(arena.Neat()) ==> arena.Neat()) && Pushes(old(arena.free), arena.free, {leaf}, 1)
      ensures ok ==> index.Ids() == old(index.Ids()) - {leaf}
      ensures !ok ==> rows == old(rows) && roots == old(roots) && unchanged(arena) && unchanged(index)
      ensures arena.Continues(old(arena.transaction.Some?), old(arena.held)) && arena.runs == old(arena.runs)
    {
      hide Read, Balanced, InTransaction, OpenedRuns, StackHolds, View, Sound, Count, Entries, Laid, AllIds, WellFormed, SiblingOf, ParentOf, GrandOf,
           KeysOf, LeafIds, Prune, Stands, Represents, PruneRows, Pushes, Exact;
      NodesBelow(arena);
      if leaf >= arena.next { return false; }
      var record := arena.Get(leaf);
      if record.kind != LEAF { return false; }
      ghost var was := arena.Nodes();
      ghost var row := LeafRow(parentHash, was, rows, leaf);
      ghost var old_rows := rows;
      LeafCases(parentHash, was, rows, row, leaf);
      var parent := record.parent;
      if parent == NO_NODE {
        DeleteRootLeaf(leaf, row);
      } else {
        var p := arena.Get(parent);
        var sibling := if p.left == leaf then p.right else p.left;
        var grandparent := p.parent;
        if grandparent == NO_NODE { DeleteUnderRoot(leaf, parent, sibling, row); }
        else { DeleteDeep(leaf, parent, sibling, grandparent, row); }
      }
      ShrinkWellFormed(parentHash, was, numLeaves, old_rows, row, leaf);
      assert forall i | 0 <= i < ROWS :: roots[i] == RootId(rows[i]);
      return true;
    }

    /** Ids the arena can still give out. */
    ghost function Room(): int
      reads this, arena
    { |arena.freeSet| + NO_NODE - arena.next }

    /** A new branch over two roots. */
    method JoinRoots(left: NodeId, right: NodeId) returns (branch: NodeId)
      requires arena.Valid() && Room() >= 1 && left != right
      requires left in arena.Nodes() && right in arena.Nodes() && arena.Nodes()[left].kind != FREE && arena.Nodes()[right].kind != FREE
      modifies arena`dirty, arena`transaction, arena`free, arena`freeSet, arena`freeOperations, arena`live, arena`next, arena`chunks
      ensures arena.Valid() && branch != NO_NODE && Available(old(arena.Nodes()), branch) && branch != left && branch != right
      ensures arena.Nodes() == Joined(parentHash, old(arena.Nodes()), left, right, branch)
      ensures Room() >= old(Room()) - 1 && Took(old(arena.Ledger()), arena.Ledger(), 0)
      ensures old(arena.Neat()) ==> arena.Neat() && Feeds(old(arena.free), old(arena.next), arena.free, arena.next, NO_NODE, branch, 1)
      ensures arena.Ready() >= old(arena.Ready()) - 1 && (old(arena.Ready()) >= 1 ==> arena.chunks == old(arena.chunks))
      ensures arena.Continues(old(arena.transaction.Some?), old(arena.held)) && arena.runs == old(arena.runs)
    {
      hide Read, Balanced, InTransaction, OpenedRuns, StackHolds, View, Feeds, Exact;
      NodesBelow(arena);
      var l := arena.Get(left);
      var r := arena.Get(right);
      branch := arena.Allocate(BRANCH, parentHash(l.hash, r.hash), left, right);
      NodesBelow(arena);
      BelowMax(arena);
      l := arena.Get(left);
      arena.Set(left, l.(parent := branch));
      r := arena.Get(right);
      arena.Set(right, r.(parent := branch));
    }

    /** One step of the binary counter: hand the tree of `row`, if any, on with `node`. The
        carried tree is kept behind the rows of `cur`. */
    method CarryStep(row: nat, node: NodeId, ghost cur: seq<Row>) returns (up: NodeId, ghost cur': seq<Row>)
      requires arena.Valid() && |roots| == ROWS && |cur| == ROWS + 1 && row < ROWS
      requires Represents(parentHash, arena.Nodes(), cur) && cur[ROWS].Some? && node == cur[ROWS].value.id
      requires (forall i | 0 <= i < ROWS :: roots[i] == RootId(cur[i])) && Room() >= 1
      modifies this`roots, arena`dirty, arena`transaction, arena`free, arena`freeSet, arena`freeOperations, arena`live, arena`next, arena`chunks
      ensures arena.Valid() && |roots| == ROWS && |cur'| == ROWS + 1 && Represents(parentHash, arena.Nodes(), cur')
      ensures cur'[ROWS].Some? && up == cur'[ROWS].value.id
      ensures forall i | 0 <= i < ROWS :: roots[i] == RootId(cur'[i])
      ensures cur'[..ROWS] == cur[..ROWS][row := None]
      ensures if cur[row].Some? then cur'[ROWS].value.Node? && cur'[ROWS].value.left == cur[row].value && cur'[ROWS].value.right == cur[ROWS].value
              else cur'[ROWS] == cur[ROWS]
      ensures KeysOf(arena.Nodes(), bucket) == old(KeysOf(arena.Nodes(), bucket)) && Room() >= old(Room()) - 1
      ensures Took(old(arena.Ledger()), arena.Ledger(), 0)
      ensures old(arena.Neat()) ==> arena.Neat() && Feeds(old(arena.free), old(arena.next), arena.free, arena.next, node, up, 1)
      ensures arena.Ready() >= old(arena.Ready()) - 1 && (old(arena.Ready()) >= 1 ==> arena.chunks == old(arena.chunks))
      ensures arena.Continues(old(arena.transaction.Some?), old(arena.held)) && arena.runs == old(arena.runs)
    {
      hide Read, Balanced, InTransaction, OpenedRuns, StackHolds, View, Represents, KeysOf, Joined, Took, Exact;
      TookNothing(arena.Ledger());
      var left := roots[row];
      roots := roots[row := NO_NODE];
      ghost var nodes := arena.Nodes();
      CarriedIds(parentHash, nodes, cur, row);
      if left != NO_NODE {
        var branch := JoinRoots(left, node);
        RepresentsJoined(parentHash, nodes, cur, row, ROWS, branch);
        JoinedKeys(parentHash, nodes, left, node, branch, bucket);
        up := branch;
        cur' := cur[row := None][ROWS := Some(Node(branch, cur[row].value, cur[ROWS].value))];
      } else {
        up := node;
        cur' := cur[row := None];
        assert cur' == cur;
      }
    }

    /** Allocate and index the new leaf, kept behind the rows. */
    method NewLeaf(hash: Hash) returns (node: NodeId, ghost cur: seq<Row>)
      requires Valid() && Room() >= 1
      modifies arena`dirty, arena`transaction, arena`free, arena`freeSet, arena`freeOperations, arena`live, arena`next, arena`chunks, index
      ensures arena.Valid() && IndexValid() && cur == rows + [Some(Leaf(node, hash))]
      ensures Represents(parentHash, arena.Nodes(), cur) && Room() >= old(Room()) - 1 && Took(old(arena.Ledger()), arena.Ledger(), 1)
      ensures old(arena.Neat()) ==> arena.Neat() && Feeds(old(arena.free), old(arena.next), arena.free, arena.next, NO_NODE, node, 1)
      ensures arena.Ready() >= old(arena.Ready()) - 1 && (old(arena.Ready()) >= 1 ==> arena.chunks == old(arena.chunks))
      ensures index.size == old(index.size) + 1
      ensures (old(index.size) + old(index.tombstones) + 1) * 10 < |old(index.slots)| * 8 ==>
                |index.slots| == |old(index.slots)| && index.tombstones <= old(index.tombstones) && index.rehashes == old(index.rehashes)
      ensures arena.Continues(old(arena.transaction.Some?), old(arena.held)) && arena.runs == old(arena.runs)
    {
      hide Read, Balanced, InTransaction, OpenedRuns, StackHolds, View, Represents, KeysOf, WellFormed, Sound, Count, Entries, Took, Feeds, Exact;
      ghost var nodes := arena.Nodes();
      ghost var keys := KeysOf(nodes, bucket);
      node := arena.Allocate(LEAF, hash, NO_NODE, NO_NODE);
      BelowMax(arena);
      KeysAdded(nodes, bucket, node, hash);
      IndexKeys(index, keys, LiveKeys());
      index.Insert(LiveKeys(), hash, node);
      RepresentsPadded(parentHash, nodes, rows);
      RepresentsLeaf(parentHash, nodes, rows + [None], ROWS, node, hash);
      cur := rows + [Some(Leaf(node, hash))];
      assert (rows + [None])[ROWS := Some(Leaf(node, hash))] == cur;
    }

    /** Carry a new tree up through the rows of the set bits. */
    method CarryUp(hash: Hash, leaf: NodeId, ghost was: seq<Row>, ghost start: seq<Row>) returns (row: nat, node: NodeId, ghost cur: seq<Row>)
      requires arena.Valid() && |roots| == ROWS && |start| == ROWS + 1 && start[ROWS].Some? && leaf == start[ROWS].value.id
      requires Represents(parentHash, arena.Nodes(), start) && (forall i | 0 <= i < ROWS :: roots[i] == RootId(start[i]))
      requires Carrying(numLeaves, was, hash, start, numLeaves, 0) && TrailingOnes(numLeaves) < ROWS && Room() >= TrailingOnes(numLeaves)
      modifies this`roots, arena`dirty, arena`transaction, arena`free, arena`freeSet, arena`freeOperations, arena`live, arena`next, arena`chunks
      ensures arena.Valid() && |roots| == ROWS && |cur| == ROWS + 1 && cur[ROWS].Some? && node == cur[ROWS].value.id
      ensures Represents(parentHash, arena.Nodes(), cur) && (forall i | 0 <= i < ROWS :: roots[i] == RootId(cur[i]))
      ensures row == TrailingOnes(numLeaves) && Carrying(numLeaves, was, hash, cur, Shr(numLeaves, row), row) && Shr(numLeaves, row) % 2 == 0
      ensures LiveKeys() == old(LiveKeys()) && Room() >= old(Room()) - row && arena.Ready() >= old(arena.Ready()) - row
      ensures Took(old(arena.Ledger()), arena.Ledger(), 0)
      ensures old(arena.Neat()) ==> arena.Neat() && Feeds(old(arena.free), old(arena.next), arena.free, arena.next, leaf, node, row)
      ensures old(arena.Ready()) >= row ==> arena.chunks == old(arena.chunks)
      ensures arena.Continues(old(arena.transaction.Some?), old(arena.held)) && arena.runs == old(arena.runs)
    {
      hide Read, Balanced, InTransaction, OpenedRuns, StackHolds, View, Represents, KeysOf, Carrying, TrailingOnes, Shr, Took, Draws, Exact;
      var leaves := numLeaves;
      TookNothing(arena.Ledger());
      row, node, cur := 0, leaf, start;
      FeedsNothing(arena.free, arena.next, leaf, TrailingOnes(numLeaves));
      while leaves % 2 == 1
        invariant Carrying(numLeaves, was, hash, cur, leaves, row) && |cur| == ROWS + 1 && cur[ROWS].Some?
        invariant arena.Valid() && |roots| == ROWS && Represents(parentHash, arena.Nodes(), cur) && node == cur[ROWS].value.id
        invariant forall i | 0 <= i < ROWS :: roots[i] == RootId(cur[i])
        invariant LiveKeys() == old(LiveKeys()) && Room() >= old(Room()) - row && arena.Ready() >= old(arena.Ready()) - row
        invariant old(arena.Ready()) >= TrailingOnes(numLeaves) ==> arena.chunks == old(arena.chunks)
        invariant Took(old(arena.Ledger()), arena.Ledger(), 0)
        invariant old(arena.Neat()) ==> arena.Neat() && FeedsFor(old(arena.free), old(arena.next), arena.free, arena.next, leaf, node, row, TrailingOnes(numLeaves))
        invariant arena.Continues(old(arena.transaction.Some?), old(arena.held)) && arena.runs == old(arena.runs)
        decreases leaves
      {
        CarryBound(numLeaves, was, hash, cur, leaves, row);
        ghost var before, books := cur, arena.Ledger();
        ghost var free, up := arena.free, node;
        node, cur := CarryStep(row, node, cur);
        if old(arena.Neat()) {
          FeedsMore(old(arena.free), old(arena.next), free, books.next, arena.free, arena.next, leaf, up, up, node, row, 1, TrailingOnes(numLeaves));
        }
        TookTwice(old(arena.Ledger()), books, arena.Ledger(), 0, 0);
        CarryNext(numLeaves, was, hash, before, cur, leaves, row);
        leaves := leaves / 2;
        row := row + 1;
      }
      CarryBound(numLeaves, was, hash, cur, leaves, row);
      CarryingIs(numLeaves, was, hash, cur, leaves, row);
    }

    /** Make a leaf and carry it up; the tree it ends in is kept behind the rows. */
    method PlaceLeaf(hash: Hash) returns (row: nat, node: NodeId, ghost cur: seq<Row>)
      requires Valid() && numLeaves < Pow2(MAX_ROWS) && Room() >= 1 + TrailingOnes(numLeaves)
      modifies this`roots, arena`dirty, arena`transaction, arena`free, arena`freeSet, arena`freeOperations, arena`live, arena`next, arena`chunks, index
      ensures arena.Valid() && IndexValid() && |roots| == ROWS && |cur| == ROWS + 1 && cur[ROWS].Some? && node == cur[ROWS].value.id
      ensures Represents(parentHash, arena.Nodes(), cur) && (forall i | 0 <= i < ROWS :: roots[i] == RootId(cur[i]))
      ensures row == TrailingOnes(numLeaves) < ROWS && Carrying(numLeaves, rows, hash, cur, Shr(numLeaves, row), row) && Shr(numLeaves, row) % 2 == 0
      ensures Room() >= old(Room()) - 1 - row && index.size == old(index.size) + 1 && Took(old(arena.Ledger()), arena.Ledger(), 1)
      ensures old(arena.Neat()) ==> arena.Neat() && Feeds(old(arena.free), old(arena.next), arena.free, arena.next, NO_NODE, node, 1 + row)
      ensures arena.Ready() >= old(arena.Ready()) - 1 - row && (old(arena.Ready()) >= 1 + row ==> arena.chunks == old(arena.chunks))
      ensures (old(index.size) + old(index.tombstones) + 1) * 10 < |old(index.slots)| * 8 ==>
                |index.slots| == |old(index.slots)| && index.tombstones <= old(index.tombstones) && index.rehashes == old(index.rehashes)
      ensures arena.Continues(old(arena.transaction.Some?), old(arena.held)) && arena.runs == old(arena.runs)
    {
      hide Read, Balanced, InTransaction, OpenedRuns, StackHolds, View, Represents, KeysOf, WellFormed, Sound, Count, Entries,
           Carrying, TrailingOnes, Pow2, Shr, Took, Feeds, Exact;
      TrailingOnesBound(numLeaves, MAX_ROWS);
      node, cur := NewLeaf(hash);
      assert cur[..ROWS] == rows;
      CarryStart(rows, numLeaves, node, hash);
      ghost var books := arena.Ledger();
      ghost var free, leaf := arena.free, node;
      row, node, cur := CarryUp(hash, node, rows, cur);
      FeedsTwice(old(arena.free), old(arena.next), free, books.next, arena.free, arena.next, NO_NODE, leaf, node, 1, row);
      TookTwice(old(arena.Ledger()), books, arena.Ledger(), 1, 0);
    }

    /** Append one leaf. */
    method Add(hash: Hash)
      requires Valid() && numLeaves < Pow2(MAX_ROWS) && Room() >= 1 + TrailingOnes(numLeaves)
      modifies this, arena`dirty, arena`transaction, arena`free, arena`freeSet, arena`freeOperations, arena`live, arena`next, arena`chunks, index
      ensures Valid() && numLeaves == old(numLeaves) + 1
      ensures TrailingOnes(old(numLeaves)) < ROWS
      ensures StripRows(rows) == Carry(StripRows(old(rows)), old(numLeaves), 0, PLeaf(hash))
      ensures Room() >= old(Room()) - 1 - TrailingOnes(old(numLeaves)) && index.size == old(index.size) + 1
      ensures arena.Ready() >= old(arena.Ready()) - 1 - TrailingOnes(old(numLeaves)) && Took(old(arena.Ledger()), arena.Ledger(), 1)
      ensures |roots| == ROWS && roots[TrailingOnes(old(numLeaves))] != NO_NODE
      ensures old(arena.Neat()) ==> arena.Neat() && Feeds(old(arena.free), old(arena.next), arena.free, arena.next, NO_NODE, roots[TrailingOnes(old(numLeaves))],
                                                          1 + TrailingOnes(old(numLeaves)))
      ensures old(arena.Ready()) >= 1 + TrailingOnes(old(numLeaves)) ==> arena.chunks == old(arena.chunks)
      ensures (old(index.size) + old(index.tombstones) + 1) * 10 < |old(index.slots)| * 8 ==>
                |index.slots| == |old(index.slots)| && index.tombstones <= old(index.tombstones) && index.rehashes == old(index.rehashes)
      ensures arena.Continues(old(arena.transaction.Some?), old(arena.held)) && arena.runs == old(arena.runs)
    {
      hide Read, Balanced, InTransaction, OpenedRuns, StackHolds, View, Represents, KeysOf, WellFormed, Sound, Count, Entries, Carry, Strip, StripRows,
           Carrying, TrailingOnes, Pow2, Shr, Took, Feeds, Exact;
      var row, node;
      ghost var cur;
      row, node, cur := PlaceLeaf(hash);
      RootUniqueIn(parentHash, arena.Nodes(), cur, ROWS);
      CarryEnd(parentHash, arena.Nodes(), numLeaves, rows, hash, cur, Shr(numLeaves, row), row);
      roots := roots[row := node];
      rows := cur[..ROWS][row := cur[ROWS]];
      numLeaves := numLeaves + 1;
    }

    /** The arena gained free ids and the index lost one entry, without growing. */
    ghost predicate Shrunk(leaf: NodeId, next: nat, freeSet: set<NodeId>, size: nat, tombstones: nat, capacity: nat)
      reads this, arena, index
    {
      && arena.next == next && freeSet < arena.freeSet && leaf in arena.freeSet
      && index.size == size - 1 && index.tombstones == tombstones && |index.slots| == capacity
    }

    // ---- positions ----------------------------------------------------------------------

    /** Walk up to the root, collecting which side each step came from. */
    method Climb(leaf: NodeId, ghost t: Tree, ghost path: seq<bool>) returns (root: Result<NodeId>, directions: nat, distance: nat)
      requires arena.Valid() && Stands(parentHash, arena.Nodes(), t)
      requires Follow(t, path).Some? && Follow(t, path).value.id == leaf
      ensures root == Ok(t.id) && directions == DirectionBits(path) && distance == |path|
    {
      hide Read, Balanced, InTransaction, OpenedRuns, StackHolds, View, Follow, Hashed, Linked;
      ghost var nodes := arena.Nodes();
      NodesBelow(arena);
      var node := leaf;
      directions, distance := 0, 0;
      ghost var k := |path|;
      assert path[..k] == path && path[k..] == [];
      StepUp(nodes, t, NO_NODE, path[..k]);
      var record := arena.Get(node);
      while record.parent != NO_NODE
        invariant 0 <= k <= |path| && distance + k == |path|
        invariant Follow(t, path[..k]).Some? && Follow(t, path[..k]).value.id == node && node in nodes
        invariant directions == DirectionBits(path[k..])
        invariant k == 0 <==> nodes[node].parent == NO_NODE
        invariant record == nodes[node]
        decreases k
      {
        StepUp(nodes, t, NO_NODE, path[..k]);
        var parent := record.parent;
        record := arena.Get(parent);
        directions := 2 * directions;
        if record.right == node { directions := directions + 1; }
        else if record.left != node { return Err("node parent link is inconsistent"), directions, distance; }
        distance := distance + 1;
        assert path[..k][..k - 1] == path[..k - 1] && path[..k][k - 1] == path[k - 1];
        assert path[k - 1..][1..] == path[k..];
        k := k - 1;
        node := parent;
        StepUp(nodes, t, NO_NODE, path[..k]);
        InTree(nodes, t, path[..k]);
      }
      RootOnly(t, path[..k]);
      root := Ok(node);
    }

    /** The row of a registered root, searched from row 0 up. */
    method RowOfRoot(root: NodeId) returns (r: Option<nat>)
      requires Valid() && root != NO_NODE
      ensures r.Some? ==> r.value < ROWS && rows[r.value].Some? && rows[r.value].value.id == root
      ensures r.None? ==> forall i | 0 <= i < ROWS && rows[i].Some? :: rows[i].value.id != root
    {
      hide Represents, Read, Balanced, View, Sound, Count, Entries, TreeRows, Shr, Height;
      var forestRows := TreeRows(numLeaves);
      var row: nat := 0;
      while row <= forestRows
        invariant row <= forestRows + 1
        invariant forall i | 0 <= i < row && i < ROWS && rows[i].Some? :: rows[i].value.id != root
      {
        if Shr(numLeaves, row) % 2 == 1 && roots[row] == root { return Some(row); }
        row := row + 1;
      }
      forall i | 0 <= i < ROWS && rows[i].Some? ensures rows[i].value.id != root {
        if i > forestRows { HighBitsClear(numLeaves, i); }
      }
      return None;
    }

    /** Walk down from a root position, lowest direction bit first. */
    method Descent(row: nat, directions: nat, distance: nat, ghost path: seq<bool>) returns (pos: nat)
      requires TreeRows(numLeaves) <= MAX_ROWS && Bit(numLeaves, row) && |path| <= row
      requires directions == DirectionBits(path) && distance == |path|
      ensures row <= TreeRows(numLeaves) && pos == PathPosition(numLeaves, row, path)
    {
      hide TreeRows, RootPosition, LeftChild, Bit, PathPosition;
      var forestRows := TreeRows(numLeaves);
      PathRoot(numLeaves, row);
      pos := RootPosition(numLeaves, row, forestRows);
      var bits: nat := directions;
      var i: nat := 0;
      assert path[..0] == [] && path[0..] == path;
      while i < distance
        invariant i <= distance && bits == DirectionBits(path[i..])
        invariant pos == PathPosition(numLeaves, row, path[..i])
      {
        assert path[i..][1..] == path[i + 1..] && path[i..][0] == path[i];
        assert path[..i + 1] == path[..i] + [path[i]];
        PathChild(numLeaves, row, path[..i], path[i]);
        pos := if bits % 2 == 0 then LeftChild(pos, forestRows) else RightChild(pos, forestRows);
        bits := bits / 2;
        i := i + 1;
      }
      assert path[..i] == path;
    }

    /** The position of a live node: it denotes exactly that node. */
    method PositionOf(node: NodeId) returns (r: Result<nat>)
      requires Valid() && node in arena.Nodes() && arena.Nodes()[node].kind != FREE
      ensures r.Ok? && r.value < Pow2(Rows(Abstract()) + 1) <= U64
      ensures At(Abstract(), r.value).Some? && At(Abstract(), r.value).value.id == node
      ensures At(Abstract(), r.value).value.Leaf? <==> arena.Nodes()[node].kind == LEAF
      ensures At(Abstract(), r.value).value.Leaf? ==> At(Abstract(), r.value).value.hash == arena.Nodes()[node].hash
    {
      hide Represents, Read, Balanced, View, Sound, Count, Entries, TreeRows, Follow, At, Bit, Height, Stands, PathPosition, Locate, InTransaction, OpenedRuns, StackHolds;
      ghost var row, path := NodePath(parentHash, arena.Nodes(), Abstract(), node);
      ghost var t := rows[row].value;
      PathRoundTrip(Abstract(), row, path);
      RootUniqueIn(parentHash, arena.Nodes(), rows, row);
      var root, directions, distance := Climb(node, t, path);
      var rootRow := RowOfRoot(root.value);
      if rootRow.None? { return Err("could not locate the leaf's root"); }
      var pos := Descent(rootRow.value, directions, distance, path);
      r := Ok(pos);
    }

    /** The root of the index-th tree, counting set bits from the highest row. */
    method NthRoot(treeIndex: nat) returns (node: NodeId, ghost t: Option<Tree>)
      requires Valid()
      ensures t == NthTree(Abstract(), treeIndex, Rows(Abstract()) + 1) && node == RootId(t)
      ensures t.Some? ==> Stands(parentHash, arena.Nodes(), t.value)
    {
      hide Represents, Read, Balanced, View, Sound, Count, Entries, TreeRows, Height, Stands, Shr, InTransaction, OpenedRuns, StackHolds;
      var k := TreeRows(numLeaves) + 1;
      var index: nat := 0;
      node := NO_NODE;
      while k > 0
        invariant 0 <= k <= TreeRows(numLeaves) + 1 && index <= treeIndex
        invariant NthTree(Abstract(), treeIndex - index, k) == NthTree(Abstract(), treeIndex, Rows(Abstract()) + 1)
      {
        k := k - 1;
        if Shr(numLeaves, k) % 2 == 0 { continue; }
        if index == treeIndex {
          RowStands(parentHash, arena.Nodes(), rows, k);
          return roots[k], rows[k];
        }
        index := index + 1;
      }
      return NO_NODE, None;
    }

    /** The node at a position, by the walk DetectOffset describes. */
    method NodeAt(pos: nat) returns (r: Result<NodeId>)
      requires Valid() && pos < U64
      ensures r.Ok? <==> Locate(Abstract(), pos).Some?
      ensures r.Ok? ==> r.value == Locate(Abstract(), pos).value.id && r.value in arena.Nodes()
      ensures r.Ok? ==> arena.Nodes()[r.value].hash == HashOf(parentHash, Locate(Abstract(), pos).value)
    {
      hide Represents, Read, Balanced, View, Sound, Count, Entries, TreeRows, Height, Stands, OffsetOf, NthTree, InTransaction, OpenedRuns, StackHolds, HashOf, Bit;
      if numLeaves == 0 { return Err("forest is empty"); }
      var offset := DetectOffset(pos, numLeaves);
      var node: NodeId;
      ghost var root: Option<Tree>;
      node, root := NthRoot(offset.treeIndex);
      if node == NO_NODE {
        if root.Some? { StandsRoot(parentHash, arena.Nodes(), root.value); }
        return Err("position belongs to a deleted subtree");
      }
      ghost var t := root.value;
      ghost var up := NO_NODE;
      StandsParts(parentHash, arena.Nodes(), t);
      NodesBelow(arena);
      var k := offset.branchLength;
      while k > 0
        invariant 0 <= k <= offset.branchLength && node == t.id && t.id in arena.Nodes()
        invariant Subtree(parentHash, arena.Nodes(), t, up)
        invariant Descend(t, k, Not(offset.pathBits)) == Locate(Abstract(), pos)
      {
        SubtreeKind(parentHash, arena.Nodes(), t, up);
        var record := arena.Get(node);
        if record.kind != BRANCH { return Err("position descends past a leaf"); }
        k := k - 1;
        PathBit(offset.pathBits, k);
        SubtreeChildren(parentHash, arena.Nodes(), t, up);
        var niece := Shr(offset.pathBits, k) % 2;
        up := t.id;
        t := if niece == 0 then t.right else t.left;
        node := if niece == 0 then record.right else record.left;
      }
      SubtreeHash(parentHash, arena.Nodes(), t, up);
      r := Ok(node);
    }

    // ---- proofs -------------------------------------------------------------------------

    /** Some live leaf has the hash. */
    ghost predicate Contains(hash: Hash)
      reads this, arena
    { exists id :: id in arena.Nodes() && arena.Nodes()[id].kind == LEAF && arena.Nodes()[id].hash == hash }

    method FindLeaf(hash: Hash) returns (r: Option<NodeId>)
      requires Valid()
      ensures r.Some? <==> Contains(hash)
      ensures r.Some? ==> r.value in arena.Nodes() && arena.Nodes()[r.value].kind == LEAF && arena.Nodes()[r.value].hash == hash
    {
      hide Represents, Read, Balanced, View, Sound, Count, Entries, WellFormed, InTransaction, OpenedRuns, StackHolds;
      r := index.Find(LiveKeys(), hash);
      SoundLengths(LiveKeys(), index.View());
      if r.None? {
        forall id | id in arena.Nodes() && arena.Nodes()[id].kind == LEAF ensures arena.Nodes()[id].hash != hash {
          KeysAt(arena.Nodes(), bucket, id);
          assert id in index.Ids();
        }
      }
    }

    /** The positions of the targets. */
    method TargetPositions(targets: seq<Hash>) returns (r: Result<seq<nat>>)
      requires Valid()
      ensures r.Ok? <==> forall h | h in targets :: Contains(h)
      ensures r.Ok? ==> Complete.LeafTargets(Abstract(), r.value, targets)
    {
      hide Represents, Read, Balanced, View, Sound, Count, Entries, WellFormed, InTransaction, OpenedRuns, StackHolds, At, Rows, KeysOf;
      var positions: seq<nat> := [];
      var i := 0;
      while i < |targets|
        invariant 0 <= i <= |targets| && |positions| == i
        invariant Complete.LeafTargets(Abstract(), positions, targets[..i])
        invariant forall h | h in targets[..i] :: Contains(h)
      {
        var id := FindLeaf(targets[i]);
        if id.None? { assert targets[i] in targets; return Err("proof target is not in forest"); }
        var pos := PositionOf(id.value);
        if pos.Err? { return Err("target has no position"); }
        positions := positions + [pos.value];
        assert targets[..i + 1] == targets[..i] + [targets[i]];
        i := i + 1;
      }
      assert targets[..i] == targets;
      r := Ok(positions);
    }

    /** Prove live leaves: succeeds exactly when every target is in the forest. */
    method Prove(targets: seq<Hash>) returns (r: Result<Verify.Proof>)
      requires Valid()
      ensures r.Ok? <==> forall h | h in targets :: Contains(h)
      ensures r.Ok? ==> ProofPlan.Words(r.value.targets) && Complete.LeafTargets(Abstract(), r.value.targets, targets)
      ensures r.Ok? ==> Complete.RightHashes(parentHash, Abstract(),
                          ProofPlan.ProofPositionsOf(Complete.ShapeOf(Abstract()), r.value.targets), r.value.hashes)
    {
      hide Represents, Read, Balanced, View, Sound, Count, Entries, WellFormed, InTransaction, OpenedRuns, StackHolds, At, TreeRows, KeysOf, Locate, HashOf,
           Complete.LeafTargets, ProofPlan.ProofPositionsOf;
      var positions := TargetPositions(targets);
      if positions.Err? { return Err(positions.error); }
      ghost var f := Abstract();
      Complete.RowsBound(f);
      Complete.TargetsDenote(f, positions.value, targets);
      var needed := ProofPlan.ProofPositions(positions.value, numLeaves, TreeRows(numLeaves));
      var hashes: seq<Hash> := [];
      var i := 0;
      while i < |needed|
        invariant 0 <= i <= |needed| && |hashes| == i
        invariant Complete.RightHashes(parentHash, f, needed[..i], hashes)
      {
        NeededLocates(f, positions.value, targets, needed[i]);
        var node := NodeAt(needed[i]);
        if node.Err? { return Err("needed position has no node"); }
        NodesBelow(arena);
        var record := arena.Get(node.value);
        hashes := hashes + [record.hash];
        assert needed[..i + 1] == needed[..i] + [needed[i]];
        i := i + 1;
      }
      assert needed[..i] == needed;
      r := Ok(Verify.Proof(positions.value, hashes));
    }

    /** Prove a block's deletions and check the proof against the current roots, as the sync
        loop does before it applies the block: every such proof is accepted. */
    method ProveAndVerify(targets: seq<Hash>, roots: seq<Hash>) returns (proof: Result<Verify.Proof>, verified: Result<bool>)
      requires Valid() && Verify.RootsMatch(parentHash, Abstract(), roots)
      requires forall i, j | 0 <= i < j < |targets| :: targets[i] != targets[j]
      ensures proof.Ok? <==> forall h | h in targets :: Contains(h)
      ensures proof.Ok? ==> verified == Ok(true)
    {
      hide Represents, Read, Balanced, View, Sound, Count, Entries, WellFormed, InTransaction, OpenedRuns, StackHolds, At, TreeRows, KeysOf, Verify.VerifyOf,
           Complete.LeafTargets, Complete.RightHashes, ProofPlan.ProofPositionsOf, Verify.RootsMatch;
      proof := Prove(targets);
      if proof.Err? { return proof, Err(proof.error); }
      Complete.RowsBound(Abstract());
      DistinctPositions(Abstract(), proof.value.targets, targets);
      Complete.VerifyComplete(parentHash, Abstract(), proof.value, targets, roots);
      verified := Verify.VerifyProof(parentHash, proof.value, targets, roots, numLeaves);
    }

    /** The root hashes, from the highest row down; a tree that was emptied has none. */
    method Roots() returns (r: seq<Option<Hash>>)
      requires Valid()
      ensures Listed(parentHash, Abstract(), r, 0)
    {
      hide Represents, Read, Balanced, View, Sound, Count, Entries, TreeRows, Height, Stands, Shr, Popcount, Bit, InTransaction, OpenedRuns, StackHolds, HashOf,
           Listed, KeysOf;
      var k := TreeRows(numLeaves) + 1;
      r := [];
      NoneListed(parentHash, Abstract());
      while k > 0
        invariant 0 <= k <= TreeRows(numLeaves) + 1 && Listed(parentHash, Abstract(), r, k)
      {
        k := k - 1;
        ListedNext(parentHash, Abstract(), r, k);
        if !Bit(numLeaves, k) { continue; }
        if roots[k] == NO_NODE {
          if rows[k].Some? { RootUniqueIn(parentHash, arena.Nodes(), rows, k); }
          r := r + [None];
        } else {
          RowStands(parentHash, arena.Nodes(), rows, k);
          StandsParts(parentHash, arena.Nodes(), rows[k].value);
          SubtreeHash(parentHash, arena.Nodes(), rows[k].value, NO_NODE);
          NodesBelow(arena);
          var root := arena.Get(roots[k]);
          r := r + [Some(root.hash)];
        }
      }
    }

    // ---- blocks -------------------------------------------------------------------------

    /** The nodes to delete, with their positions. */
    method CollectDeletions(deletions: seq<Hash>) returns (r: Result<seq<Deletion>>)
      requires Valid()
      ensures r.Ok? <==> NoRepeat(deletions) && forall h | h in deletions :: Contains(h)
      ensures r.Ok? ==> Matches(arena.Nodes(), deletions, r.value)
    {
      hide Represents, Read, Balanced, View, Sound, Count, Entries, WellFormed, InTransaction, OpenedRuns, StackHolds, At, Rows, KeysOf;
      var deleting: set<Hash> := {};
      var nodes: seq<Deletion> := [];
      var i := 0;
      while i < |deletions|
        invariant 0 <= i <= |deletions| && deleting == (set h | h in deletions[..i])
        invariant NoRepeat(deletions[..i]) && Matches(arena.Nodes(), deletions[..i], nodes)
        invariant forall h | h in deletions[..i] :: Contains(h)
      {
        assert deletions[..i + 1] == deletions[..i] + [deletions[i]];
        assert deletions[i] in deletions;
        if deletions[i] in deleting {
          Repeats(deletions, i);
          return Err("duplicate deletion");
        }
        var id := FindLeaf(deletions[i]);
        if id.None? { return Err("deletion is not in forest"); }
        var pos := PositionOf(id.value);
        if pos.Err? { return Err("deletion has no position"); }
        deleting := deleting + {deletions[i]};
        nodes := nodes + [Deletion(pos.value, id.value)];
        i := i + 1;
      }
      assert deletions[..i] == deletions;
      r := Ok(nodes);
    }

    /** Branches the additions can create. */
    method BranchAllowance(additions: nat) returns (branches: nat)
      ensures branches == Branches(numLeaves, additions)
      ensures branches + Popcount(numLeaves + additions) == additions + Popcount(numLeaves)
    {
      hide TrailingOnes, Popcount;
      branches := 0;
      for i := 0 to additions
        invariant branches == Branches(numLeaves, i)
      {
        BranchesSnoc(numLeaves, i);
        branches := branches + TrailingOnes(numLeaves + i);
      }
      BranchesTelescope(numLeaves, additions);
    }

    /** Nothing has to grow while these additions are applied. */
    ghost predicate Prepared(additions: nat)
      reads this, arena, index
    {
      && additions + Branches(numLeaves, additions) <= Room() && additions + Branches(numLeaves, additions) <= arena.Ready()
      && (index.size + index.tombstones + additions + 1) * 10 <= |index.slots| * 8
    }

    /** Reserve index room and slots, and refuse a block the 32-bit ids cannot hold before any
        mutation. */
    method PrepareModify(additions: nat, deletions: nat) returns (ok: bool)
      requires Valid()
      modifies index, arena`chunks
      ensures Valid() && index.Ids() == old(index.Ids()) && index.size == old(index.size)
      ensures ok == (additions + Branches(numLeaves, additions) <= Room())
      ensures ok ==> Prepared(additions)
      ensures !ok ==> arena.chunks == old(arena.chunks)
      ensures index.rehashes == old(index.rehashes)
                + if (old(index.size) + old(index.tombstones) + additions + 1) * 10 <= |old(index.slots)| * 8 then 0 else 1
    {
      hide Represents, Read, Balanced, View, Sound, Count, Entries, WellFormed, InTransaction, KeysOf, Branches, Popcount, StackHolds, OpenedRuns;
      var branches := BranchAllowance(additions);
      index.PrepareInsertions(LiveKeys(), deletions, additions);
      BelowMax(arena);
      ok := arena.PrepareAllocations(additions + branches);
    }

    /** Delete a leaf that is known to be there. */
    method DeleteNext(leaf: NodeId)
      requires Valid() && leaf in index.Ids() && |index.slots| == |index.control|
      modifies this, arena`dirty, arena`transaction, arena`free, arena`freeSet, arena`freeOperations, arena`live, index`slots, index`control, index`size
      ensures Valid() && numLeaves == old(numLeaves) && rows == PruneRows(old(rows), {leaf}) && Room() >= old(Room())
      ensures Shrunk(leaf, old(arena.next), old(arena.freeSet), old(index.size), old(index.tombstones), |old(index.slots)|)
      ensures (old(arena.Neat()) ==> arena.Neat()) && Pushes(old(arena.free), arena.free, {leaf}, 1)
      ensures index.Ids() == old(index.Ids()) - {leaf} && |index.slots| == |index.control|
      ensures arena.Continues(old(arena.transaction.Some?), old(arena.held)) && arena.runs == old(arena.runs)
    {
      hide Represents, Read, Balanced, View, Sound, Count, Entries, WellFormed, InTransaction, OpenedRuns, StackHolds, KeysOf, PruneRows, Pushes, Exact;
      KeysAt(arena.Nodes(), bucket, leaf);
      ghost var free := arena.freeSet;
      var deleted := DeleteId(leaf);
      MoreFree(free, arena.freeSet);
      SoundLengths(LiveKeys(), index.View());
    }

    method DeleteAll(nodes: seq<Deletion>)
      requires Valid() && DistinctIds(nodes) && forall i | 0 <= i < |nodes| :: nodes[i].id in index.Ids()
      modifies this, arena`dirty, arena`transaction, arena`free, arena`freeSet, arena`freeOperations, arena`live, index`slots, index`control, index`size
      ensures Valid() && numLeaves == old(numLeaves) && rows == PruneRows(old(rows), DeadIds(nodes))
      ensures forall k: nat | old(Prepared(k)) :: Prepared(k)
      ensures arena.next == old(arena.next) && DeadIds(nodes) <= arena.freeSet && (nodes == [] ==> unchanged(arena) && roots == old(roots))
      ensures (old(arena.Neat()) ==> arena.Neat()) && Pushes(old(arena.free), arena.free, DeadIds(nodes), |nodes|)
      ensures arena.Continues(old(arena.transaction.Some?), old(arena.held)) && arena.runs == old(arena.runs)
    {
      hide Represents, Read, Balanced, View, Sound, Count, Entries, WellFormed, InTransaction, OpenedRuns, StackHolds, KeysOf, PruneRows, Pushes, Exact, DeadIds;
      var i := 0;
      PruneNothing(rows);
      PushesNothing(arena.free, nodes);
      SoundLengths(LiveKeys(), index.View());
      while i < |nodes|
        invariant 0 <= i <= |nodes| && Valid() && numLeaves == old(numLeaves) && |index.slots| == |index.control|
        invariant rows == PruneRows(old(rows), DeadIds(nodes[..i]))
        invariant forall j | i <= j < |nodes| :: nodes[j].id in index.Ids()
        invariant Room() >= old(Room()) && index.size <= old(index.size) && index.tombstones == old(index.tombstones)
        invariant |index.slots| == |old(index.slots)| && arena.next == old(arena.next)
        invariant DeadIds(nodes[..i]) <= arena.freeSet && (i == 0 ==> unchanged(arena) && roots == old(roots))
        invariant (old(arena.Neat()) ==> arena.Neat()) && Pushes(old(arena.free), arena.free, DeadIds(nodes[..i]), i)
        invariant arena.Continues(old(arena.transaction.Some?), old(arena.held)) && arena.runs == old(arena.runs)
      {
        ghost var stack := arena.free;
        DeleteNext(nodes[i].id);
        PushesTwice(old(arena.free), stack, arena.free, DeadIds(nodes[..i]), {nodes[i].id}, i, 1);
        PruneRowsTwice(old(rows), DeadIds(nodes[..i]), {nodes[i].id});
        DeadSnoc(nodes, i);
        i := i + 1;
      }
      assert nodes[..i] == nodes;
    }

    /** Append one of `left` leaves that were prepared for. */
    method AddNext(hash: Hash, ghost left: nat)
      requires Valid() && numLeaves + left <= Pow2(MAX_ROWS) && left > 0 && Prepared(left)
      modifies this, arena`dirty, arena`transaction, arena`free, arena`freeSet, arena`freeOperations, arena`live, arena`next, arena`chunks, index
      ensures Valid() && numLeaves == old(numLeaves) + 1 && Prepared(left - 1) && TrailingOnes(old(numLeaves)) < ROWS
      ensures StripRows(rows) == Carry(StripRows(old(rows)), old(numLeaves), 0, PLeaf(hash))
      ensures index.rehashes == old(index.rehashes) && arena.chunks == old(arena.chunks) && Took(old(arena.Ledger()), arena.Ledger(), 1)
      ensures |roots| == ROWS && roots[TrailingOnes(old(numLeaves))] != NO_NODE
      ensures old(arena.Neat()) ==> arena.Neat() && Feeds(old(arena.free), old(arena.next), arena.free, arena.next, NO_NODE, roots[TrailingOnes(old(numLeaves))],
                                                          1 + TrailingOnes(old(numLeaves)))
      ensures arena.Continues(old(arena.transaction.Some?), old(arena.held)) && arena.runs == old(arena.runs)
    {
      hide Represents, Read, Balanced, View, Sound, Count, Entries, WellFormed, InTransaction, OpenedRuns, StackHolds, KeysOf, StripRows, Carry, TrailingOnes, Took, Branches, Feeds, Exact;
      BranchesStep(numLeaves, left);
      Add(hash);
    }

    method AddAll(additions: seq<Hash>)
      requires Valid() && numLeaves + |additions| <= Pow2(MAX_ROWS)
      requires Prepared(|additions|)
      modifies this, arena`dirty, arena`transaction, arena`free, arena`freeSet, arena`freeOperations, arena`live, arena`next, arena`chunks, index
      ensures Valid() && numLeaves == old(numLeaves) + |additions|
      ensures StripRows(rows) == CarryAll(StripRows(old(rows)), old(numLeaves), additions)
      ensures index.rehashes == old(index.rehashes) && arena.chunks == old(arena.chunks)
      ensures Took(old(arena.Ledger()), arena.Ledger(), |additions|) && (additions == [] ==> unchanged(arena) && roots == old(roots))
      ensures old(arena.Neat()) ==> arena.Neat() && Feeds(old(arena.free), old(arena.next), arena.free, arena.next, NO_NODE,
                                                          NewRoot(roots, old(numLeaves), |additions|), |additions| + Branches(old(numLeaves), |additions|))
      ensures arena.Continues(old(arena.transaction.Some?), old(arena.held)) && arena.runs == old(arena.runs)
    {
      hide Represents, Read, Balanced, View, Sound, Count, Entries, WellFormed, InTransaction, OpenedRuns, StackHolds, KeysOf, StripRows, Carry, TrailingOnes, Took, CarryAll, Branches, Prepared,
           Feeds, Feeding, NewRoot, Exact;
      TookNothing(arena.Ledger());
      ghost var n := numLeaves;
      var i := 0;
      assert additions[0..] == additions;
      FeedsFirst(arena.free, arena.next, roots, n, |additions|);
      while i < |additions|
        invariant 0 <= i <= |additions| && Valid() && numLeaves == n + i && |StripRows(rows)| == ROWS
        invariant CarryAll(StripRows(rows), n + i, additions[i..]) == CarryAll(StripRows(old(rows)), n, additions)
        invariant Prepared(|additions| - i) && index.rehashes == old(index.rehashes) && arena.chunks == old(arena.chunks)
        invariant Took(old(arena.Ledger()), arena.Ledger(), i) && (i == 0 ==> unchanged(arena) && roots == old(roots))
        invariant old(arena.Neat()) ==> arena.Neat() && Feeding(old(arena.free), old(arena.next), arena.free, arena.next, NewRoot(roots, n, i), n, i, |additions|)
        invariant arena.Continues(old(arena.transaction.Some?), old(arena.held)) && arena.runs == old(arena.runs)
      {
        assert additions[i..][1..] == additions[i + 1..] && additions[i..][0] == additions[i];
        CarryAllStep(StripRows(rows), n + i, additions[i..]);
        ghost var books, free, last := arena.Ledger(), arena.free, NewRoot(roots, n, i);
        AddNext(additions[i], |additions| - i);
        TookTwice(old(arena.Ledger()), books, arena.Ledger(), i, 1);
        if old(arena.Neat()) {
          FeedsNext(old(arena.free), old(arena.next), free, books.next, arena.free, arena.next, last, roots, n, i, |additions|);
        }
        i := i + 1;
      }
      assert additions[i..] == [];
      FeedsLast(old(arena.free), old(arena.next), arena.free, arena.next, NewRoot(roots, n, i), n, i);
      CarryAllNone(StripRows(rows), n + i);
    }

    /** Delete, then add. Whatever was prepared suffices: the index is not rebuilt, no chunk is added
        and every id handed out has a slot already. */
    method ApplyBlock(nodes: seq<Deletion>, additions: seq<Hash>)
      requires Valid() && DistinctIds(nodes) && (forall i | 0 <= i < |nodes| :: nodes[i].id in index.Ids())
      requires numLeaves + |additions| <= Pow2(MAX_ROWS) && Prepared(|additions|)
      modifies this, arena`dirty, arena`transaction, arena`free, arena`freeSet, arena`freeOperations, arena`live, arena`next, arena`chunks, index
      ensures Valid() && numLeaves == old(numLeaves) + |additions|
      ensures StripRows(rows) == CarryAll(StripRows(PruneRows(old(rows), DeadIds(nodes))), old(numLeaves), additions)
      ensures index.rehashes == old(index.rehashes) && arena.chunks == old(arena.chunks) && arena.next <= old(arena.Slots())
      ensures Spends(old(arena.Ledger()), arena.Ledger(), DeadIds(nodes), |additions|)
      ensures DeadIds(nodes) == {} && additions == [] ==> unchanged(arena) && roots == old(roots)
      ensures old(arena.Neat()) ==> arena.Neat() && Restacks(old(arena.free), old(arena.next), arena.free, arena.next, DeadIds(nodes), |additions|, old(numLeaves), roots)
      ensures arena.Continues(old(arena.transaction.Some?), old(arena.held)) && arena.runs == old(arena.runs)
    {
      hide Represents, Read, Balanced, View, Sound, Count, Entries, WellFormed, InTransaction, KeysOf, PruneRows, StripRows, CarryAll, Branches,
           StackHolds, OpenedRuns, DeadIds, Pushes, Feeds, Exact, NewRoot;
      DeadNone(nodes);
      DistinctCount(nodes);
      DeleteAll(nodes);
      AddAll(additions);
    }

    /** Apply a block: its deletions, whatever their order, then its additions. The index is rebuilt
        at most once, before anything is changed. */
    method Modify(additions: seq<Hash>, deletions: seq<Hash>) returns (r: Result<()>, ghost dead: set<NodeId>)
      requires Valid() && numLeaves + |additions| <= Pow2(MAX_ROWS)
      modifies this, arena`dirty, arena`transaction, arena`free, arena`freeSet, arena`freeOperations, arena`live, arena`next, arena`chunks, index
      ensures Valid()
      ensures r.Ok? <==> NoRepeat(deletions) && (forall h | h in deletions :: old(Contains(h)))
                         && |additions| + Branches(old(numLeaves), |additions|) <= old(Room())
      ensures r.Err? ==> rows == old(rows) && roots == old(roots) && numLeaves == old(numLeaves)
                         && unchanged(arena) && index.Ids() == old(index.Ids())
      ensures r.Ok? ==> Named(old(arena.Nodes()), deletions, dead) && numLeaves == old(numLeaves) + |additions|
      ensures r.Ok? ==> StripRows(rows) == CarryAll(StripRows(PruneRows(old(rows), dead)), old(numLeaves), additions)
      ensures r.Ok? ==> Order(StripRows(rows), ROWS) == HashesOf(Survivors(AllItems(old(rows), ROWS), dead)) + additions
      ensures r.Ok? ==> Spends(old(arena.Ledger()), arena.Ledger(), dead, |additions|)
      ensures r.Ok? && old(arena.Neat()) ==>
                arena.Neat() && Restacks(old(arena.free), old(arena.next), arena.free, arena.next, dead, |additions|, old(numLeaves), roots)
      ensures deletions == [] && additions == [] ==> arena.dirty == old(arena.dirty) && arena.transaction == old(arena.transaction) && roots == old(roots)
      ensures r.Ok? ==> index.rehashes == old(index.rehashes)
                          + if (old(index.size) + old(index.tombstones) + |additions| + 1) * 10 <= |old(index.slots)| * 8 then 0 else 1
      ensures arena.Continues(old(arena.transaction.Some?), old(arena.held)) && arena.runs == old(arena.runs)
    {
      hide Represents, Read, Balanced, View, Sound, Count, Entries, WellFormed, InTransaction, KeysOf, PruneRows, StripRows, CarryAll,
           Order, Survivors, AllItems, Branches, Matches, SortDeletions, StackHolds, OpenedRuns, Spends, DistinctIds, DeadIds, HashesOf, Restacks, Exact;
      dead := {};
      var collected := CollectDeletions(deletions);
      if collected.Err? { return Err(collected.error), dead; }
      ghost var nodes := arena.Nodes();
      var ordered := SortDeletions(collected.value);
      var ok := PrepareModify(|additions|, |deletions|);
      if !ok { return Err("packed forest exhausted 32-bit node IDs"), dead; }
      OrderedMatches(nodes, deletions, collected.value, bucket);
      dead := DeadIds(ordered);
      BlockOrder(rows, numLeaves, dead, additions);
      ApplyBlock(ordered, additions);
      r := Ok(());
    }

    /** What the index reads through its arena reference. */
    function LiveKeys(): Keys
      reads this, arena
    { KeysOf(arena.Nodes(), bucket) }
  }

  /** A stack that holds `total` ids has fed `k` of them. */
  ghost predicate FeedsFor(a: seq<NodeId>, next: nat, b: seq<NodeId>, next': nat, before: NodeId, node: NodeId, k: nat, total: nat) {
    |a| >= total ==> next' == next && Draws(a, b, before, node, k)
  }

  lemma FeedsNothing(a: seq<NodeId>, next: nat, node: NodeId, total: nat)
    ensures FeedsFor(a, next, a, next, node, node, 0, total)
  {}

  lemma FeedsMore(a: seq<NodeId>, next: nat, b: seq<NodeId>, next': nat, c: seq<NodeId>, next'': nat, before: NodeId, node: NodeId, middle: NodeId, last: NodeId,
                  j: nat, k: nat, total: nat)
    requires FeedsFor(a, next, b, next', before, node, j, total) && Feeds(b, next', c, next'', middle, last, k) && j + k <= total
    requires last == middle ==> node == middle
    ensures FeedsFor(a, next, c, next'', before, last, j + k, total)
  {
    if |a| >= total { DrawsTwice(a, b, c, before, node, middle, last, j, k); }
  }

  lemma FeedsTwice(a: seq<NodeId>, next: nat, b: seq<NodeId>, next': nat, c: seq<NodeId>, next'': nat, before: NodeId, node: NodeId, last: NodeId, j: nat, k: nat)
    ensures Feeds(a, next, b, next', before, node, j) && Feeds(b, next', c, next'', node, last, k) ==> Feeds(a, next, c, next'', before, last, j + k)
  {
    if Feeds(a, next, b, next', before, node, j) && Feeds(b, next', c, next'', node, last, k) && |a| >= j + k {
      DrawsTwice(a, b, c, before, node, node, last, j, k);
    }
  }

  /** The root of the tree that the last addition ended in. */
  function NewRoot(roots: seq<NodeId>, leaves: nat, additions: nat): NodeId {
    if additions == 0 || TrailingOnes(leaves + additions - 1) >= |roots| then NO_NODE else roots[TrailingOnes(leaves + additions - 1)]
  }

  /** What a block does to the stack of free ids: deletions push the leaves they free, and additions
      draw from the top, the root of the last new tree last. */
  ghost predicate Restacks(a: seq<NodeId>, next: nat, b: seq<NodeId>, next': nat, dead: set<NodeId>, additions: nat, leaves: nat, roots: seq<NodeId>) {
    && (additions == 0 ==> Pushes(a, b, dead, |dead|))
    && (dead == {} ==> Feeds(a, next, b, next', NO_NODE, NewRoot(roots, leaves, additions), additions + Branches(leaves, additions)))
  }

  lemma PushesNothing(a: seq<NodeId>, ds: seq<Deletion>)
    ensures Pushes(a, a, DeadIds(ds[..0]), 0) && DeadIds(ds[..0]) == {}
  {}

  /** Of `additions` leaves the first `i` are added, with `node` the root of the last one's tree. */
  ghost predicate Feeding(a: seq<NodeId>, next: nat, b: seq<NodeId>, next': nat, node: NodeId, leaves: nat, i: nat, additions: nat) {
    FeedsFor(a, next, b, next', NO_NODE, node, i + Branches(leaves, i), additions + Branches(leaves, additions))
  }

  lemma FeedsFirst(a: seq<NodeId>, next: nat, roots: seq<NodeId>, leaves: nat, additions: nat)
    ensures Feeding(a, next, a, next, NewRoot(roots, leaves, 0), leaves, 0, additions)
  {}

  lemma FeedsNext(a: seq<NodeId>, next: nat, b: seq<NodeId>, next': nat, c: seq<NodeId>, next'': nat, node: NodeId, roots: seq<NodeId>, leaves: nat, i: nat, additions: nat)
    requires Feeding(a, next, b, next', node, leaves, i, additions) && i < additions
    requires TrailingOnes(leaves + i) < |roots| && roots[TrailingOnes(leaves + i)] != NO_NODE
    requires Feeds(b, next', c, next'', NO_NODE, roots[TrailingOnes(leaves + i)], 1 + TrailingOnes(leaves + i))
    ensures Feeding(a, next, c, next'', NewRoot(roots, leaves, i + 1), leaves, i + 1, additions)
  {
    hide TrailingOnes, Branches, Feeds, FeedsFor;
    BranchesSnoc(leaves, i);
    BranchesMore(leaves, i + 1, additions);
    FeedsMore(a, next, b, next', c, next'', NO_NODE, node, NO_NODE, NewRoot(roots, leaves, i + 1), i + Branches(leaves, i), 1 + TrailingOnes(leaves + i),
              additions + Branches(leaves, additions));
  }

  lemma FeedsLast(a: seq<NodeId>, next: nat, b: seq<NodeId>, next': nat, node: NodeId, leaves: nat, additions: nat)
    ensures Feeding(a, next, b, next', node, leaves, additions, additions) ==> Feeds(a, next, b, next', NO_NODE, node, additions + Branches(leaves, additions))
  {}

  lemma {:induction false} BranchesMore(n: nat, i: nat, j: nat)
    requires i <= j
    ensures Branches(n, i) <= Branches(n, j)
    decreases j
  {
    hide TrailingOnes, Branches;
    if i < j {
      BranchesSnoc(n, j - 1);
      BranchesMore(n, i, j - 1);
    }
  }

  /** What a block does to the books: the arena grows only when no id is left free, deleted leaves are
      freed, and additions only take ids. */
  ghost predicate Spends(a: Books, b: Books, dead: set<NodeId>, additions: nat) {
    && a.next <= b.next && (b.next == a.next || b.freeSet == {})
    && (additions == 0 ==> dead <= b.freeSet && b.next == a.next)
    && (dead == {} ==> b.freeSet <= a.freeSet && a.live + additions <= b.live)
  }

  /** Live nodes are twice the leaves less one for every tree. */
  lemma LiveCount(forest: PackedForest)
    requires forest.Valid()
    ensures forest.arena.live == 2 * |AllItems(forest.rows, |forest.rows|)| - Standing(forest.rows)
  {
    hide Read, InTransaction, OpenedRuns, StackHolds, Stands, AllItems, Standing, AllIds, Apart, WellFormed, Sound, Entries, KeysOf;
    var l, n := forest.arena.Stack(), forest.arena.next;
    FromCount(l, 0, n);
    assert FreeFrom(l, 0, n) == FreeIds(l, n);
    assert LiveFrom(l, 0, n) == LiveIds(forest.arena.Nodes());
    forall i | 0 <= i < |forest.rows| && forest.rows[i].Some? ensures Proper(forest.rows[i].value) {
      StandsProper(forest.parentHash, forest.arena.Nodes(), forest.rows[i].value);
    }
    RowsCount(forest.rows);
  }

  lemma StandsProper(parentHash: Combine, nodes: Nodes, t: Tree)
    requires Stands(parentHash, nodes, t)
    ensures Proper(t)
  {}

  // ---- blocks, seen from the records ----------------------------------------------------

  datatype Deletion = Deletion(pos: nat, id: NodeId)

  ghost predicate NoRepeat(xs: seq<Hash>) { forall i, j | 0 <= i < j < |xs| :: xs[i] != xs[j] }

  /** The i-th node is a live leaf with the i-th hash. */
  ghost predicate Matches(nodes: Nodes, hashes: seq<Hash>, ds: seq<Deletion>) {
    && |ds| == |hashes|
    && forall i | 0 <= i < |ds| :: ds[i].id in nodes && nodes[ds[i].id].kind == LEAF && nodes[ds[i].id].hash == hashes[i]
  }

  /** The dead are live leaves, one for each deleted hash. */
  ghost predicate Named(nodes: Nodes, hashes: seq<Hash>, dead: set<NodeId>) {
    && |dead| == |hashes|
    && (forall id | id in dead :: id in nodes && nodes[id].kind == LEAF && nodes[id].hash in hashes)
    && (forall h | h in hashes :: exists id :: id in dead && nodes[id].hash == h)
  }

  function DeadIds(ds: seq<Deletion>): set<NodeId> { set d | d in ds :: d.id }

  lemma DeadNone(ds: seq<Deletion>)
    ensures DeadIds(ds) == {} ==> ds == []
  {
    if ds != [] { assert ds[0].id in DeadIds(ds); }
  }

  ghost predicate DistinctIds(ds: seq<Deletion>) { forall i, j | 0 <= i < j < |ds| :: ds[i].id != ds[j].id }

  function InsertDeletion(d: Deletion, ds: seq<Deletion>): seq<Deletion> {
    if ds == [] || d.pos <= ds[0].pos then [d] + ds else [ds[0]] + InsertDeletion(d, ds[1..])
  }

  /** std::ranges::sort by position. */
  function SortDeletions(ds: seq<Deletion>): seq<Deletion> {
    if ds == [] then [] else InsertDeletion(ds[0], SortDeletions(ds[1..]))
  }

  lemma {:induction false} InsertDeletionKeeps(d: Deletion, ds: seq<Deletion>)
    ensures multiset(InsertDeletion(d, ds)) == multiset{d} + multiset(ds)
    decreases ds
  {
    if ds != [] && d.pos > ds[0].pos {
      InsertDeletionKeeps(d, ds[1..]);
      assert ds == [ds[0]] + ds[1..];
    }
  }

  lemma {:induction false} SortDeletionsKeeps(ds: seq<Deletion>)
    ensures multiset(SortDeletions(ds)) == multiset(ds)
    decreases ds
  {
    if ds != [] {
      SortDeletionsKeeps(ds[1..]);
      InsertDeletionKeeps(ds[0], SortDeletions(ds[1..]));
      assert ds == [ds[0]] + ds[1..];
    }
  }

  lemma {:induction false} DistinctCount(ds: seq<Deletion>)
    requires DistinctIds(ds)
    ensures |DeadIds(ds)| == |ds|
    decreases |ds|
  {
    if ds != [] {
      var n := |ds| - 1;
      assert ds[..n + 1] == ds;
      DistinctCount(ds[..n]);
      DeadSnoc(ds, n);
      assert ds[n].id !in DeadIds(ds[..n]);
    } else {
      assert DeadIds(ds) == {};
    }
  }

  lemma DeadSnoc(ds: seq<Deletion>, i: nat)
    requires i < |ds|
    ensures DeadIds(ds[..i + 1]) == DeadIds(ds[..i]) + {ds[i].id}
  {
    assert ds[..i + 1] == ds[..i] + [ds[i]];
    assert ds[i] in ds[..i + 1];
  }

  /** Equal ids in a multiset of deletions with distinct ids are the same deletion. */
  lemma DistinctPermuted(ds: seq<Deletion>, es: seq<Deletion>)
    requires DistinctIds(ds) && multiset(es) == multiset(ds)
    ensures DistinctIds(es) && |es| == |ds| && forall d :: d in es <==> d in ds
  {
    assert |multiset(es)| == |es| && |multiset(ds)| == |ds|;
    forall d ensures d in es <==> d in ds { assert d in multiset(es) <==> d in multiset(ds); }
    forall i, j | 0 <= i < j < |es| ensures es[i].id != es[j].id {
      if es[i].id == es[j].id {
        assert es[i] in ds && es[j] in ds;
        assert es[i] == es[j];
        TwiceInside(es, i, j);
        OnceInside(ds, es[i]);
      }
    }
  }

  lemma TwiceInside(es: seq<Deletion>, i: nat, j: nat)
    requires i < j < |es| && es[i] == es[j]
    ensures multiset(es)[es[i]] >= 2
  {
    assert es == es[..j] + [es[j]] + es[j + 1..];
    assert es[i] in es[..j];
  }

  lemma {:induction false} OnceInside(ds: seq<Deletion>, d: Deletion)
    requires DistinctIds(ds)
    ensures multiset(ds)[d] <= 1
    decreases |ds|
  {
    if ds != [] {
      var n := |ds| - 1;
      assert ds == ds[..n] + [ds[n]];
      OnceInside(ds[..n], d);
      if d == ds[n] { assert d !in ds[..n]; }
    }
  }

  lemma OrderedMatches(nodes: Nodes, hashes: seq<Hash>, ds: seq<Deletion>, bucket: Hash -> nat)
    requires Matches(nodes, hashes, ds) && NoRepeat(hashes)
    ensures DistinctIds(SortDeletions(ds)) && Named(nodes, hashes, DeadIds(SortDeletions(ds)))
    ensures forall i | 0 <= i < |SortDeletions(ds)| :: SortDeletions(ds)[i].id in KeysOf(nodes, bucket).hashes
  {
    hide SortDeletions;
    var es := SortDeletions(ds);
    SortDeletionsKeeps(ds);
    assert DistinctIds(ds);
    DistinctPermuted(ds, es);
    DistinctCount(es);
    forall i | 0 <= i < |es| ensures es[i].id in KeysOf(nodes, bucket).hashes { assert es[i] in ds; }
    forall h | h in hashes ensures exists id :: id in DeadIds(es) && nodes[id].hash == h {
      var i :| 0 <= i < |hashes| && hashes[i] == h;
      assert ds[i] in es;
      assert ds[i].id in DeadIds(es);
    }
  }

  lemma Repeats(xs: seq<Hash>, i: nat)
    requires i < |xs| && xs[i] in xs[..i]
    ensures !NoRepeat(xs)
  {
    var j :| 0 <= j < i && xs[..i][j] == xs[i];
    assert xs[j] == xs[i];
  }

  lemma PruneNothing(rows: seq<Row>)
    ensures PruneRows(rows, DeadIds([])) == rows
  {
    hide Prune;
    assert DeadIds([]) == {};
    forall i | 0 <= i < |rows| && rows[i].Some? ensures Prune(rows[i].value, {}) == rows[i] { PruneNone(rows[i].value, {}); }
  }

  lemma MoreFree(a: set<NodeId>, b: set<NodeId>)
    requires a < b
    ensures |a| <= |b|
  {
    assert a + (b - a) == b;
  }

  // ---- positions, seen from the records -------------------------------------------------

  lemma InTree(nodes: Nodes, t: Tree, path: seq<bool>)
    requires Linked(nodes, t, NO_NODE) && Proper(t) && NO_NODE !in Ids(t) && Follow(t, path).Some?
    ensures var x := Follow(t, path).value.id;
            x in nodes && (path == [] <==> nodes[x].parent == NO_NODE)
  {
    StepUp(nodes, t, NO_NODE, path);
  }

  lemma RootOnly(t: Tree, path: seq<bool>)
    requires path == []
    ensures Follow(t, path) == Some(t)
  {}

  lemma NodePath(parentHash: Combine, nodes: Nodes, f: Forest, x: NodeId) returns (row: nat, path: seq<bool>)
    requires Represents(parentHash, nodes, f.trees) && WellFormed(f) && x in nodes && nodes[x].kind != FREE
    ensures row < ROWS && f.trees[row].Some? && Stands(parentHash, nodes, f.trees[row].value) && Bit(f.leaves, row)
    ensures Follow(f.trees[row].value, path).Some? && Follow(f.trees[row].value, path).value.id == x
    ensures var s := Follow(f.trees[row].value, path).value;
            (s.Leaf? <==> nodes[x].kind == LEAF) && (s.Leaf? ==> s.hash == nodes[x].hash)
  {
    hide Apart, Follow, Height, Bit, TreeRows;
    assert x in LiveIds(nodes);
    row :| 0 <= row < |f.trees| && x in RowIds(f.trees[row]);
    var t := f.trees[row].value;
    path := PathTo(t, x);
    FollowLinked(nodes, t, NO_NODE, path);
    var s := Follow(t, path).value;
    var p :| Linked(nodes, s, p);
  }

  lemma RootUniqueIn(parentHash: Combine, nodes: Nodes, rows: seq<Row>, row: nat)
    requires Represents(parentHash, nodes, rows) && row < |rows| && rows[row].Some?
    ensures rows[row].value.id != NO_NODE
    ensures forall i | 0 <= i < |rows| && rows[i].Some? && rows[i].value.id == rows[row].value.id :: i == row
  {
    hide Linked, Hashed, Proper, AllIds;
    forall i | 0 <= i < |rows| && rows[i].Some? && rows[i].value.id == rows[row].value.id ensures i == row {
      if i != row { RowsApart(parentHash, nodes, rows, i, row); }
    }
  }

  lemma RowStands(parentHash: Combine, nodes: Nodes, rows: seq<Row>, row: nat)
    requires Represents(parentHash, nodes, rows) && row < |rows|
    ensures rows[row].Some? ==> Stands(parentHash, nodes, rows[row].value)
  {}

  lemma StandsRoot(parentHash: Combine, nodes: Nodes, t: Tree)
    requires Stands(parentHash, nodes, t)
    ensures t.id != NO_NODE
  {}

  /** A subtree of a standing tree. */
  ghost predicate Subtree(parentHash: Combine, nodes: Nodes, t: Tree, up: NodeId) {
    Linked(nodes, t, up) && Ids(t) <= nodes.Keys && NO_NODE !in Ids(t) && Hashed(parentHash, nodes, t, NO_NODE)
  }

  lemma StandsParts(parentHash: Combine, nodes: Nodes, t: Tree)
    requires Stands(parentHash, nodes, t)
    ensures Subtree(parentHash, nodes, t, NO_NODE)
  {}

  lemma SubtreeKind(parentHash: Combine, nodes: Nodes, t: Tree, up: NodeId)
    requires Subtree(parentHash, nodes, t, up)
    ensures t.id in nodes && (t.Node? <==> nodes[t.id].kind == BRANCH)
  {}

  lemma SubtreeChildren(parentHash: Combine, nodes: Nodes, t: Tree, up: NodeId)
    requires Subtree(parentHash, nodes, t, up) && t.Node?
    ensures Subtree(parentHash, nodes, t.left, t.id) && Subtree(parentHash, nodes, t.right, t.id)
    ensures nodes[t.id].left == t.left.id && nodes[t.id].right == t.right.id && t.left.id in nodes && t.right.id in nodes
  {}

  lemma SubtreeHash(parentHash: Combine, nodes: Nodes, t: Tree, up: NodeId)
    requires Subtree(parentHash, nodes, t, up)
    ensures t.id in nodes && nodes[t.id].hash == HashOf(parentHash, t)
  {
    RootHash(parentHash, nodes, t, up, NO_NODE);
  }

  lemma PathBit(pathBits: nat, k: nat)
    requires pathBits < U64 && k < 64
    ensures Bit(Not(pathBits), k) <==> Shr(pathBits, k) % 2 == 0
  {
    Pow2Word(64);
    BitNot(pathBits, 64, k);
  }

  lemma NeededLocates(f: Forest, targets: seq<nat>, hashes: seq<Hash>, q: nat)
    requires WellFormed(f) && Complete.LeafTargets(f, targets, hashes) && ProofPlan.Words(targets)
    requires q in ProofPlan.ProofPositionsOf(Complete.ShapeOf(f), targets)
    ensures q < U64 && Rows(f) <= MAX_ROWS && Locate(f, q).Some? && At(f, q) == Locate(f, q)
  {
    hide At, TreeRows, Height, Locate, Complete.LeafTargets, ProofPlan.PlanOf, ProofPlan.Needed, Ordered.Ascending, ProofPlan.ClosedUp, Populated, Bit;
    var known, proofs := Complete.PlanPart(f, targets, hashes);
    Ordered.AscendingIs(proofs);
    assert q in Ordered.Elements(Ordered.Ascending(proofs));
    Pow2Word(Rows(f) + 1);
    assert q in known + proofs;
    AtPopulated(f, q);
    LocateIs(f, q);
  }

  lemma DistinctPositions(f: Forest, targets: seq<nat>, hashes: seq<Hash>)
    requires Complete.LeafTargets(f, targets, hashes)
    requires forall i, j | 0 <= i < j < |hashes| :: hashes[i] != hashes[j]
    ensures Complete.NoRepeat(targets)
  {
    hide At, TreeRows;
  }

  function RowHash(parentHash: Combine, row: Row): Option<Hash> {
    if row.None? then None else Some(HashOf(parentHash, row.value))
  }

  /** The root hashes of the rows from `k` up, the highest first. */
  ghost predicate Listed(parentHash: Combine, f: Forest, hashes: seq<Option<Hash>>, k: nat) {
    && |hashes| == Popcount(Shr(f.leaves, k)) && |f.trees| == ROWS
    && forall row | k <= row < ROWS && Bit(f.leaves, row) ::
        && Popcount(Shr(f.leaves, row + 1)) < |hashes|
        && hashes[Popcount(Shr(f.leaves, row + 1))] == RowHash(parentHash, f.trees[row])
  }

  lemma NoneListed(parentHash: Combine, f: Forest)
    requires WellFormed(f)
    ensures Listed(parentHash, f, [], Rows(f) + 1)
  {
    hide Shr, Popcount, Bit, TreeRows, Height;
    TreeRowsBound(f.leaves);
    NoTreesAbove(f.leaves, Rows(f));
    forall row | Rows(f) < row < ROWS ensures !Bit(f.leaves, row) { HighBitsClear(f.leaves, row); }
  }

  lemma ListedNext(parentHash: Combine, f: Forest, hashes: seq<Option<Hash>>, k: nat)
    requires Listed(parentHash, f, hashes, k + 1) && k < ROWS
    ensures if Bit(f.leaves, k) then Listed(parentHash, f, hashes + [RowHash(parentHash, f.trees[k])], k) else Listed(parentHash, f, hashes, k)
  {
    hide Shr, Popcount, Bit, HashOf;
    PopcountStep(f.leaves, k);
  }

  /** The list holds a hash for every tree exactly when no tree was emptied, and then it is what a
      proof is checked against. */
  lemma ListedRoots(parentHash: Combine, f: Forest, hashes: seq<Option<Hash>>, known: seq<Hash>)
    requires WellFormed(f) && Listed(parentHash, f, hashes, 0) && |known| == |hashes|
    requires forall i | 0 <= i < |hashes| :: hashes[i] == Some(known[i])
    ensures Verify.AllPresent(f) && Verify.RootsMatch(parentHash, f, known)
  {
    hide Popcount, Bit, HashOf, TreeRows, Height;
    assert Shr(f.leaves, 0) == f.leaves;
    hide Shr;
  }

  lemma {:induction false} HigherRoots(n: nat, k: nat, row: nat)
    requires k <= row && Bit(n, row)
    ensures Popcount(Shr(n, row + 1)) < Popcount(Shr(n, k))
    decreases row - k
  {
    hide Shr, Popcount, Bit;
    PopcountStep(n, k);
    if k < row { HigherRoots(n, k + 1, row); }
  }

  /** A missing hash is that of an emptied tree. */
  lemma {:induction false} MissingRoot(parentHash: Combine, f: Forest, hashes: seq<Option<Hash>>, k: nat, i: nat)
    requires Listed(parentHash, f, hashes, k) && k <= ROWS && i < |hashes| && hashes[i].None? && TreeRows(f.leaves) < ROWS
    ensures !Verify.AllPresent(f)
    decreases ROWS - k
  {
    hide Shr, Popcount, Bit, HashOf, TreeRows;
    if k == ROWS {
      TreeRowsBound(f.leaves);
      Pow2Mono(TreeRows(f.leaves), ROWS - 1);
      NoTreesAbove(f.leaves, ROWS - 1);
    } else {
      PopcountStep(f.leaves, k);
      if !(Bit(f.leaves, k) && Popcount(Shr(f.leaves, k + 1)) == i) {
        forall row | k < row < ROWS && Bit(f.leaves, row) ensures Popcount(Shr(f.leaves, row + 1)) < Popcount(Shr(f.leaves, k + 1)) {
          HigherRoots(f.leaves, k + 1, row);
        }
        MissingRoot(parentHash, f, hashes[..Popcount(Shr(f.leaves, k + 1))], k + 1, i);
      }
    }
  }

  lemma HighBitsClear(n: nat, i: nat)
    requires i > TreeRows(n)
    ensures !Bit(n, i)
  {
    TreeRowsBound(n);
    Pow2Mono(TreeRows(n), i);
    ShrSmall(n, i);
  }

  // ---- addition, seen from the records --------------------------------------------------

  /** The counter is at `row` with `leaves` bits to go and the carried tree behind the rows. */
  ghost predicate Carrying(n: nat, rows: seq<Row>, hash: Hash, cur: seq<Row>, leaves: nat, row: nat) {
    && |rows| == ROWS && |cur| == ROWS + 1 && cur[ROWS].Some? && Height(cur[ROWS].value) <= row
    && n < Pow2(MAX_ROWS) && WellFormed(Forest(n, rows))
    && row + TrailingOnes(leaves) == TrailingOnes(n) <= MAX_ROWS && leaves == Shr(n, row)
    && (forall i | 0 <= i < ROWS :: cur[i] == if i < row then None else rows[i])
    && Carry(StripRows(cur[..ROWS]), leaves, row, Strip(cur[ROWS].value)) == Carry(StripRows(rows), n, 0, PLeaf(hash))
  }

  lemma CarryStart(rows: seq<Row>, n: nat, node: NodeId, hash: Hash)
    requires |rows| == ROWS && n < Pow2(MAX_ROWS) && WellFormed(Forest(n, rows)) && TrailingOnes(n) <= MAX_ROWS
    ensures Carrying(n, rows, hash, rows + [Some(Leaf(node, hash))], n, 0)
  {
    hide WellFormed, Carry;
    var cur := rows + [Some(Leaf(node, hash))];
    assert cur[..ROWS] == rows;
  }

  lemma CarryBound(n: nat, rows: seq<Row>, hash: Hash, cur: seq<Row>, leaves: nat, row: nat)
    requires Carrying(n, rows, hash, cur, leaves, row)
    ensures row <= MAX_ROWS && row <= TrailingOnes(n) && (leaves % 2 == 1 ==> row < TrailingOnes(n))
    ensures |cur| == ROWS + 1 && cur[ROWS].Some?
  {
    hide WellFormed, Carry, Shr, Strip, StripRows, Height;
  }

  lemma CarryingIs(n: nat, rows: seq<Row>, hash: Hash, cur: seq<Row>, leaves: nat, row: nat)
    requires Carrying(n, rows, hash, cur, leaves, row) && leaves % 2 == 0
    ensures leaves == Shr(n, row) && row == TrailingOnes(n)
  {
    hide WellFormed, Carry, Shr, Strip, StripRows, Height;
  }

  lemma CarryNext(n: nat, rows: seq<Row>, hash: Hash, cur: seq<Row>, cur': seq<Row>, leaves: nat, row: nat)
    requires Carrying(n, rows, hash, cur, leaves, row) && leaves % 2 == 1 && row < ROWS
    requires |cur'| == ROWS + 1 && cur'[ROWS].Some? && cur'[..ROWS] == cur[..ROWS][row := None]
    requires if cur[row].Some? then cur'[ROWS].value.Node? && cur'[ROWS].value.left == cur[row].value && cur'[ROWS].value.right == cur[ROWS].value
             else cur'[ROWS] == cur[ROWS]
    ensures Carrying(n, rows, hash, cur', leaves / 2, row + 1)
  {
    hide StripRows, Shr, TreeRows, Bit;
    ShrStep(n, row);
    assert forall i | 0 <= i < ROWS :: cur'[i] == cur'[..ROWS][i];
    StripSet(cur[..ROWS], row);
    assert cur[..ROWS][row] == cur[row];
    assert Height(cur'[ROWS].value) <= row + 1 by { if cur[row].Some? { assert rows[row] == cur[row]; } }
  }

  lemma StripSet(rows: seq<Row>, row: nat)
    requires row < |rows|
    ensures StripRows(rows[row := None]) == StripRows(rows)[row := None]
    ensures StripRows(rows)[row] == StripRow(rows[row])
  {}

  lemma StripFill(rows: seq<Row>, row: nat, t: Tree)
    requires row < |rows|
    ensures StripRows(rows[row := Some(t)]) == StripRows(rows)[row := Some(Strip(t))]
  {}

  /** At the first clear bit the carried tree is registered. */
  lemma CarryEnd(parentHash: Combine, nodes: Nodes, n: nat, rows: seq<Row>, hash: Hash, cur: seq<Row>, leaves: nat, row: nat)
    requires Carrying(n, rows, hash, cur, leaves, row) && leaves % 2 == 0 && row < ROWS
    requires Represents(parentHash, nodes, cur)
    ensures var rows' := cur[..ROWS][row := cur[ROWS]];
            && WellFormed(Forest(n + 1, rows')) && Represents(parentHash, nodes, rows')
            && StripRows(rows') == Carry(StripRows(rows), n, 0, PLeaf(hash))
  {
    hide Represents, Shr, Strip, StripRows, TreeRows, Bit, Height;
    var rows' := cur[..ROWS][row := cur[ROWS]];
    assert row == TrailingOnes(n);
    EndShape(n, rows, cur, row);
    assert cur[row].None? by { IncrementBits(n, row); }
    RepresentsMoved(parentHash, nodes, cur, row, ROWS);
    assert cur[row := cur[ROWS]][ROWS := None] == rows' + [None];
    RepresentsTrimmed(parentHash, nodes, rows');
    StripFill(cur[..ROWS], row, cur[ROWS].value);
  }

  lemma EndShape(n: nat, rows: seq<Row>, cur: seq<Row>, row: nat)
    requires |rows| == ROWS && |cur| == ROWS + 1 && cur[ROWS].Some? && Height(cur[ROWS].value) <= row == TrailingOnes(n) < ROWS
    requires n < Pow2(MAX_ROWS) && WellFormed(Forest(n, rows))
    requires forall i | 0 <= i < ROWS :: cur[i] == if i < row then None else rows[i]
    ensures WellFormed(Forest(n + 1, cur[..ROWS][row := cur[ROWS]]))
  {
    hide TreeRows, Height, Bit, Pow2, TrailingOnes;
    var rows' := cur[..ROWS][row := cur[ROWS]];
    forall i | 0 <= i < ROWS && rows'[i].Some? ensures Bit(n + 1, i) && Height(rows'[i].value) <= i {
      IncrementBits(n, i);
      assert i != row ==> rows'[i] == cur[i];
    }
    TreeRowsLimit(n + 1);
  }

  lemma TreeRowsLimit(n: nat)
    requires n <= Pow2(MAX_ROWS)
    ensures TreeRows(n) <= MAX_ROWS
  {
    if n > 1 {
      BitWidthBounds(n - 1);
      if BitWidth(n - 1) > MAX_ROWS { Pow2Mono(MAX_ROWS, BitWidth(n - 1) - 1); assert false; }
    }
  }

  lemma RepresentsPadded(parentHash: Combine, nodes: Nodes, rows: seq<Row>)
    requires Represents(parentHash, nodes, rows)
    ensures Represents(parentHash, nodes, rows + [None])
  {
    hide Stands;
    PaddedIds(rows);
  }

  lemma RepresentsTrimmed(parentHash: Combine, nodes: Nodes, rows: seq<Row>)
    requires Represents(parentHash, nodes, rows + [None])
    ensures Represents(parentHash, nodes, rows)
  {
    hide Stands;
    PaddedIds(rows);
    assert forall i | 0 <= i < |rows| :: (rows + [None])[i] == rows[i];
  }

  lemma PaddedIds(rows: seq<Row>)
    ensures AllIds(rows + [None]) == AllIds(rows)
  {
    var rows' := rows + [None];
    forall id | id in AllIds(rows') ensures id in AllIds(rows) {
      var i :| 0 <= i < |rows'| && id in RowIds(rows'[i]);
      assert rows'[i] == rows[i];
    }
    forall id | id in AllIds(rows) ensures id in AllIds(rows') {
      var i :| 0 <= i < |rows| && id in RowIds(rows[i]);
      assert rows'[i] == rows[i];
    }
  }

  lemma KeysAdded(nodes: Nodes, bucket: Hash -> nat, id: NodeId, hash: Hash)
    requires Available(nodes, id)
    ensures KeysOf(nodes[id := LeafRecord(hash)], bucket) == Keys(KeysOf(nodes, bucket).hashes[id := hash], bucket)
    ensures id !in KeysOf(nodes, bucket).hashes && KeysOf(nodes, bucket).bucket == bucket
  {}

  lemma CarriedIds(parentHash: Combine, nodes: Nodes, cur: seq<Row>, row: nat)
    requires Represents(parentHash, nodes, cur) && row < |cur| - 1 && cur[|cur| - 1].Some?
    ensures cur[|cur| - 1].value.id in nodes && nodes[cur[|cur| - 1].value.id].kind != FREE
    ensures cur[row].Some? ==> cur[row].value.id in nodes && cur[row].value.id != NO_NODE && nodes[cur[row].value.id].kind != FREE
    ensures cur[row].Some? ==> cur[row].value.id != cur[|cur| - 1].value.id
  {
    hide Stands, Apart;
    RowLive(parentHash, nodes, cur, row);
    RowLive(parentHash, nodes, cur, |cur| - 1);
    RowsApart(parentHash, nodes, cur, row, |cur| - 1);
  }

  lemma JoinedKeys(parentHash: Combine, nodes: Nodes, a: NodeId, b: NodeId, id: NodeId, bucket: Hash -> nat)
    requires a in nodes && b in nodes && a != b && a != id && b != id && Available(nodes, id)
    ensures KeysOf(Joined(parentHash, nodes, a, b, id), bucket) == KeysOf(nodes, bucket)
  {}

  lemma BelowMax(arena: NodeArena)
    requires arena.Valid()
    ensures arena.next <= NO_NODE
  {}

  // ---- deletion, seen from the records --------------------------------------------------

  lemma LeafRow(parentHash: Combine, nodes: Nodes, rows: seq<Row>, x: NodeId) returns (row: nat)
    requires Represents(parentHash, nodes, rows) && x in nodes && nodes[x].kind == LEAF
    ensures row < |rows| && rows[row].Some? && x in LeafIds(rows[row].value)
  {
    hide Stands, Apart;
    assert x in LiveIds(nodes);
    row :| 0 <= row < |rows| && x in RowIds(rows[row]);
    StandsKinds(parentHash, nodes, rows[row].value);
  }

  lemma StandsKinds(parentHash: Combine, nodes: Nodes, t: Tree)
    requires Stands(parentHash, nodes, t)
    ensures forall id | id in Ids(t) :: id in nodes && nodes[id].kind == if id in LeafIds(t) then LEAF else BRANCH
  {
    LinkedIds(nodes, t, NO_NODE);
  }

  function FreedRecord(r: NodeRecord): NodeRecord { NodeRecord(r.hash, NO_NODE, NO_NODE, NO_NODE, FREE) }

  function FreedNodes(nodes: Nodes, x: NodeId): Nodes
    requires x in nodes
  { nodes[x := FreedRecord(nodes[x])] }

  /** State between the surgery on a tree and the release of the ids it lost. */
  ghost predicate Detached(parentHash: Combine, was: Nodes, mid: Nodes, rows: seq<Row>, row: nat, o: Row, leaf: NodeId, parent: NodeId) {
    && Represents(parentHash, was, rows) && row < |rows| && rows[row].Some?
    && SameLeaves(was, mid)
    && (forall id | id in was && id !in RowIds(rows[row]) :: mid[id] == was[id])
    && (o.Some? ==> Stands(parentHash, mid, o.value))
    && RowIds(o) == RowIds(rows[row]) - {leaf} - {parent}
    && leaf in was && was[leaf].kind == LEAF && leaf in RowIds(rows[row]) && leaf != parent
    && (parent != NO_NODE ==> parent in was && was[parent].kind == BRANCH && parent in RowIds(rows[row]))
  }

  /** The three shapes of a deletion, told apart by the links. */
  lemma LeafCases(parentHash: Combine, nodes: Nodes, rows: seq<Row>, row: nat, x: NodeId)
    requires Represents(parentHash, nodes, rows) && row < |rows| && rows[row].Some? && x in LeafIds(rows[row].value)
    ensures var t := rows[row].value;
            && x in nodes
            && (t.Leaf? ==> t.id == x && nodes[x].parent == NO_NODE && Prune(t, {x}) == None)
            && (t.Node? ==>
                var p := nodes[x].parent;
                && p == ParentOf(t, x).id && p in nodes && p != NO_NODE
                && SiblingOf(t, x).id == (if nodes[p].left == x then nodes[p].right else nodes[p].left)
                && nodes[p].parent == GrandOf(t, x, NO_NODE)
                && (nodes[p].parent == NO_NODE <==> Direct(t, x))
                && (Direct(t, x) ==> p == t.id && Prune(t, {x}) == Some(SiblingOf(t, x)))
                && (!Direct(t, x) ==> Prune(t, {x}).Some? && Prune(t, {x}).value.id == t.id))
  {
    hide AllIds, Apart, SiblingOf, ParentOf, GrandOf;
    var t := rows[row].value;
    if t.Node? {
      AroundLeaf(nodes, t, x, NO_NODE);
      if Direct(t, x) {
        GrandDirect(t, x, NO_NODE);
        StandsDirect(parentHash, nodes, t, x);
      } else {
        PruneRoot(t, x);
      }
    }
  }

  lemma ShrinkWellFormed(parentHash: Combine, nodes: Nodes, n: nat, rows: seq<Row>, row: nat, x: NodeId)
    requires Represents(parentHash, nodes, rows) && WellFormed(Forest(n, rows)) && row < |rows| && rows[row].Some?
    requires x in LeafIds(rows[row].value)
    ensures WellFormed(Forest(n, rows[row := Prune(rows[row].value, {x})]))
    ensures PruneRows(rows, {x}) == rows[row := Prune(rows[row].value, {x})]
  {
    hide Linked, Hashed, Proper, Prune, LeafIds, Ids, Height, Bit, TreeRows;
    PruneShape(rows[row].value, {x});
    PruneOneRow(rows, row, x);
  }

  lemma RootUnique(parentHash: Combine, nodes: Nodes, rows: seq<Row>, roots: seq<NodeId>, row: nat)
    requires Represents(parentHash, nodes, rows) && |roots| == |rows| && row < |rows| && rows[row].Some?
    requires forall i | 0 <= i < |rows| :: roots[i] == RootId(rows[i])
    ensures forall i | 0 <= i < |roots| && roots[i] == roots[row] :: i == row
    ensures roots[row] in nodes && roots[row] != NO_NODE
  {
    hide Linked, Hashed, Proper, AllIds;
    forall i | 0 <= i < |roots| && roots[i] == roots[row] ensures i == row {
      if i != row && rows[i].Some? { RowsApart(parentHash, nodes, rows, i, row); }
    }
  }

  lemma DetachRootLeaf(parentHash: Combine, nodes: Nodes, rows: seq<Row>, row: nat)
    requires Represents(parentHash, nodes, rows) && row < |rows| && rows[row].Some? && rows[row].value.Leaf?
    ensures Detached(parentHash, nodes, nodes, rows, row, None, rows[row].value.id, NO_NODE)
  {
    hide AllIds, Apart;
  }

  lemma DetachUnderRoot(parentHash: Combine, nodes: Nodes, rows: seq<Row>, row: nat, x: NodeId, bucket: Hash -> nat)
    requires Represents(parentHash, nodes, rows) && row < |rows| && rows[row].Some?
    requires rows[row].value.Node? && x in LeafIds(rows[row].value) && Direct(rows[row].value, x)
    ensures var t := rows[row].value;
            var s := SiblingOf(t, x);
            && s.id in nodes && nodes[s.id].kind != FREE
            && var mid := nodes[s.id := nodes[s.id].(parent := NO_NODE)];
            && Detached(parentHash, nodes, mid, rows, row, Some(s), x, t.id)
            && KeysOf(mid, bucket) == KeysOf(nodes, bucket)
  {
    hide AllIds, Apart, Prune, SiblingOf, ParentOf, GrandOf;
    var t := rows[row].value;
    StandsDirect(parentHash, nodes, t, x);
    PruneOne(t, x);
    GrandDirect(t, x, NO_NODE);
    AroundLeaf(nodes, t, x, NO_NODE);
    LinkedIds(nodes, t, NO_NODE);
    SameKeys(nodes, nodes[SiblingOf(t, x).id := nodes[SiblingOf(t, x).id].(parent := NO_NODE)], bucket);
  }

  lemma DeepFacts(parentHash: Combine, nodes: Nodes, rows: seq<Row>, row: nat, x: NodeId)
    requires Represents(parentHash, nodes, rows) && row < |rows| && rows[row].Some?
    requires rows[row].value.Node? && x in LeafIds(rows[row].value) && !Direct(rows[row].value, x)
    ensures var t := rows[row].value;
            var p, s, g := ParentOf(t, x).id, SiblingOf(t, x).id, GrandOf(t, x, NO_NODE);
            && Stands(parentHash, nodes, t)
            && p in nodes && s in nodes && g in nodes && s != g && nodes[g].kind == BRANCH && nodes[s].kind != FREE
            && s in Ids(t) && g in Ids(t) && p in Ids(t)
  {
    hide AllIds, Apart, SiblingOf, ParentOf, GrandOf;
    var t := rows[row].value;
    AroundLeaf(nodes, t, x, NO_NODE);
    LinkedIds(nodes, t, NO_NODE);
    SiblingNotGrand(nodes, t, x, NO_NODE);
  }

  lemma {:induction false} SiblingNotGrand(nodes: Nodes, t: Tree, x: NodeId, above: NodeId)
    requires t.Node? && x in LeafIds(t) && Proper(t) && above !in Ids(t)
    ensures SiblingOf(t, x).id != GrandOf(t, x, above)
    decreases t
  {
    ParentInside(t, x);
    if !Direct(t, x) {
      if x in LeafIds(t.left) { SiblingNotGrand(nodes, t.left, x, t.id); } else { SiblingNotGrand(nodes, t.right, x, t.id); }
    }
  }

  lemma DetachDeep(parentHash: Combine, was: Nodes, mid: Nodes, nodes: Nodes, rows: seq<Row>, row: nat, x: NodeId)
    requires Represents(parentHash, was, rows) && row < |rows| && rows[row].Some?
    requires rows[row].value.Node? && x in LeafIds(rows[row].value) && !Direct(rows[row].value, x)
    requires var t := rows[row].value;
             && Promoted(was, mid, ParentOf(t, x).id, SiblingOf(t, x).id, GrandOf(t, x, NO_NODE))
             && SameLeaves(mid, nodes) && Prune(t, {x}).Some? && Stands(parentHash, nodes, Prune(t, {x}).value)
             && forall id | id in nodes && id !in Ids(Prune(t, {x}).value) :: nodes[id] == mid[id]
    ensures Detached(parentHash, was, nodes, rows, row, Prune(rows[row].value, {x}), x, ParentOf(rows[row].value, x).id)
    ensures SameLeaves(was, nodes)
  {
    hide AllIds, Apart, SiblingOf, ParentOf, GrandOf, Prune, Stands, Represents, Ids, LeafIds;
    var t := rows[row].value;
    DeepFacts(parentHash, was, rows, row, x);
    StandsKinds(parentHash, was, t);
    StandsAround(parentHash, was, t, x);
    PruneOne(t, x);
    assert SameLeaves(was, mid);
  }

  lemma StandsAround(parentHash: Combine, nodes: Nodes, t: Tree, x: NodeId)
    requires Stands(parentHash, nodes, t) && t.Node? && x in LeafIds(t)
    ensures Proper(t) && ParentOf(t, x).id != x && x in Ids(t) && ParentOf(t, x).id in Ids(t) && ParentOf(t, x).id !in LeafIds(t)
  {
    AroundLeaf(nodes, t, x, NO_NODE);
  }

  lemma DetachedReleased(parentHash: Combine, was: Nodes, mid: Nodes, rows: seq<Row>, row: nat, o: Row, leaf: NodeId, parent: NodeId)
    requires Detached(parentHash, was, mid, rows, row, o, leaf, parent)
    ensures leaf in mid && (parent != NO_NODE ==> parent in mid)
    ensures var nodes := if parent == NO_NODE then FreedNodes(mid, leaf) else FreedNodes(FreedNodes(mid, leaf), parent);
            Represents(parentHash, nodes, rows[row := o])
  {
    hide Represents, Stands, Ids;
    var nodes := if parent == NO_NODE then FreedNodes(mid, leaf) else FreedNodes(FreedNodes(mid, leaf), parent);
    NoNodeId(parentHash, was, rows);
    SameKeys(was, mid, (h: Hash) => 0);
    RowLive(parentHash, was, rows, row);
    RepresentsPruned(parentHash, was, mid, rows, row, o, nodes);
  }

  lemma DetachedKinds(parentHash: Combine, was: Nodes, mid: Nodes, rows: seq<Row>, row: nat, o: Row, leaf: NodeId, parent: NodeId)
    requires Detached(parentHash, was, mid, rows, row, o, leaf, parent)
    ensures row < |rows| && leaf in mid && mid[leaf].kind == LEAF && leaf != parent && (parent != NO_NODE ==> parent in mid && mid[parent].kind == BRANCH)
  {}

  lemma KeysAt(nodes: Nodes, bucket: Hash -> nat, id: NodeId)
    ensures KeysOf(nodes, bucket).bucket == bucket
    ensures id in KeysOf(nodes, bucket).hashes <==> id in nodes && nodes[id].kind == LEAF
    ensures id in nodes && nodes[id].kind == LEAF ==> KeysOf(nodes, bucket).hashes[id] == nodes[id].hash
  {}

  lemma KeysFreed(nodes: Nodes, bucket: Hash -> nat, x: NodeId)
    requires x in nodes
    ensures KeysOf(FreedNodes(nodes, x), bucket).hashes == KeysOf(nodes, bucket).hashes - {x}
    ensures KeysOf(FreedNodes(nodes, x), bucket).bucket == bucket
    ensures nodes[x].kind == BRANCH ==> KeysOf(FreedNodes(nodes, x), bucket) == KeysOf(nodes, bucket)
  {}

  lemma NoNodeId(parentHash: Combine, nodes: Nodes, rows: seq<Row>)
    requires Represents(parentHash, nodes, rows)
    ensures NO_NODE !in nodes
  {}

  lemma RowLive(parentHash: Combine, nodes: Nodes, rows: seq<Row>, row: nat)
    requires Represents(parentHash, nodes, rows) && row < |rows|
    ensures RowIds(rows[row]) <= LiveIds(nodes) <= nodes.Keys
  {
    RowInside(rows, row);
  }

  lemma StaleBranch(parentHash: Combine, nodes: Nodes, t: Tree, x: NodeId)
    requires StandsBut(parentHash, nodes, t, x) && x != NO_NODE
    ensures x in Ids(t) && x in nodes && nodes[x].kind == BRANCH
  {}

  lemma StandsAll(parentHash: Combine, nodes: Nodes, t: Tree)
    requires StandsBut(parentHash, nodes, t, NO_NODE)
    ensures Stands(parentHash, nodes, t)
  {}

  lemma NoKeys(bucket: Hash -> nat)
    ensures KeysOf(map[], bucket) == Keys(map[], bucket)
  {}

  lemma NoTrees(parentHash: Combine)
    ensures Represents(parentHash, map[], seq(ROWS, _ => None)) && WellFormed(Forest(0, seq(ROWS, _ => None)))
  {
    assert AllIds(seq(ROWS, _ => None)) == {};
  }

  lemma NoNodes(l: Layers)
    ensures View(l, 0) == map[]
  {}

  lemma NodesBelow(arena: NodeArena)
    ensures forall id | id in arena.Nodes() :: id < arena.next
  {}
}
