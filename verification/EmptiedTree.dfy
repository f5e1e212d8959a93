/** A run of the synchroniser that stops although its blocks apply: once a tree of the forest is
    emptied, proofs can no longer be checked against the roots (SequentialSync::ProcessNext in
    src/sync.cpp). */
module EmptiedTree {
  import opened Common
  import opened Records
  import opened Arena
  import opened ForestState
  import opened ArenaTrees
  import opened Accumulator
  import opened Packed
  import opened Blocks
  import opened Online
  import opened Sync
  import opened Transactions
  import Trees
  import Verify
  import Bits
  import Position

  /** The only tree is one leaf with hash `h`. */
  ghost predicate OneLeaf(f: Trees.Forest, h: Hash) {
    && f.leaves == 1 && |f.trees| == Trees.ROWS && f.trees[0].Some? && f.trees[0].value.Leaf? && f.trees[0].value.hash == h
    && forall row | 0 < row < Trees.ROWS :: f.trees[row].None?
  }

  lemma OneLeafPresent(f: Trees.Forest, h: Hash)
    requires OneLeaf(f, h)
    ensures Verify.AllPresent(f)
  {
    forall row | 0 < row < Trees.ROWS ensures !Bits.Bit(1, row) { Bits.ShrSmall(1, row); Bits.Pow2Mono(1, row); }
  }

  /** An empty forest and one added leaf. */
  lemma LeafAdded(nodes: Nodes, rows: seq<Row>, rows': seq<Row>, h: Hash, dead: set<NodeId>)
    requires Trees.WellFormed(Trees.Forest(0, rows)) && Applied(rows', 1, nodes, rows, 0, [h], [], dead)
    ensures OneLeaf(Trees.Forest(1, rows'), h)
  {
    hide Named, Bits.Pow2, CarryAll;
    forall row | 0 <= row < Trees.ROWS ensures rows[row].None? { Bits.ShrSmall(0, row); }
    var plain := StripRows(PruneRows(rows, dead));
    CarryAllStep(plain, 0, [h]);
    assert [h][1..] == [];
    CarryAllNone(Carry(plain, 0, 0, PLeaf(h)), 1);
    assert StripRows(rows') == plain[0 := Some(PLeaf(h))];
    forall row | 0 <= row < Trees.ROWS ensures StripRow(rows'[row]) == if row == 0 then Some(PLeaf(h)) else None {
      assert StripRows(rows')[row] == StripRow(rows'[row]);
    }
  }

  /** That leaf, deleted, leaves an emptied tree behind. */
  lemma LeafDeleted(parentHash: Combine, nodes: Nodes, rows: seq<Row>, rows': seq<Row>, h: Hash, dead: set<NodeId>)
    requires OneLeaf(Trees.Forest(1, rows), h) && Represents(parentHash, nodes, rows) && Applied(rows', 1, nodes, rows, 1, [], [h], dead)
    ensures !Verify.AllPresent(Trees.Forest(1, rows'))
  {
    hide Bits.Pow2, CarryAll, Represents, NodeFits;
    assert h in [h];
    var x :| x in dead && nodes[x].hash == h;
    var row := LiveFits(parentHash, nodes, rows, x);
    assert Prune(rows[0].value, dead) == None;
    CarryAllNone(StripRows(PruneRows(rows, dead)), 1);
    assert StripRows(rows')[0] == StripRow(rows'[0]) && StripRows(PruneRows(rows, dead))[0] == None;
    assert Bits.Bit(1, 0);
  }

  /** The leaf of a one-leaf forest is found. */
  lemma LeafThere(f: PackedForest, h: Hash)
    requires f.TreesValid() && OneLeaf(f.Abstract(), h)
    ensures f.Contains(h)
  {
    hide Trees.WellFormed, Apart, AllIds, LiveIds, View, Hashed;
    RowStands(f.parentHash, f.arena.Nodes(), f.rows, 0);
    assert f.arena.Nodes()[f.rows[0].value.id].hash == h;
  }

  lemma NothingMissing(f: PackedForest)
    requires f.Valid() && f.numLeaves == 0
    ensures Verify.AllPresent(f.Abstract()) && Trees.WellFormed(Trees.Forest(0, f.rows))
  {
    hide Represents, View, PackedForest.IndexValid;
    forall row | 0 <= row < Trees.ROWS ensures !Bits.Bit(0, row) { Bits.ShrSmall(0, row); }
  }

  /** After the first block. */
  lemma OneLeafAfter(sync: SequentialSync, nodes: Nodes, rows: seq<Row>, h: Hash)
    requires sync.Valid() && Trees.WellFormed(Trees.Forest(0, rows))
    requires exists dead :: Applied(sync.forest.forest.rows, sync.forest.forest.numLeaves, nodes, rows, 0, [h], [], dead)
    ensures OneLeaf(sync.forest.forest.Abstract(), h) && Verify.AllPresent(sync.forest.forest.Abstract())
    ensures sync.forest.forest.numLeaves == 1 <= Bits.Pow2(Position.MAX_ROWS) && sync.forest.Applies([], [h])
    ensures Represents(sync.forest.forest.parentHash, sync.forest.forest.arena.Nodes(), sync.forest.forest.rows)
  {
    hide PackedForest.IndexValid, Represents, View, Applied, OneLeaf, Bits.Pow2;
    var f := sync.forest.forest;
    var dead :| Applied(f.rows, f.numLeaves, nodes, rows, 0, [h], [], dead);
    AppliedCount(f.rows, f.numLeaves, nodes, rows, 0, [h], [], dead);
    LeafAdded(nodes, rows, f.rows, h, dead);
    OneLeafPresent(f.Abstract(), h);
    LeafThere(f, h);
    RoomLeft(sync.forest);
  }

  lemma AppliedCount(rows': seq<Row>, leaves': nat, nodes: Nodes, rows: seq<Row>, leaves: nat, additions: seq<Hash>, deletions: seq<Hash>, dead: set<NodeId>)
    requires Applied(rows', leaves', nodes, rows, leaves, additions, deletions, dead)
    ensures leaves' == leaves + |additions| <= Bits.Pow2(Position.MAX_ROWS)
  {
    hide Named, StripRows, CarryAll, PruneRows, Bits.Pow2;
  }

  /** After the second. */
  lemma EmptiedAfter(sync: SequentialSync, nodes: Nodes, rows: seq<Row>, h: Hash)
    requires sync.Valid() && OneLeaf(Trees.Forest(1, rows), h) && Represents(sync.forest.forest.parentHash, nodes, rows)
    requires exists dead :: Applied(sync.forest.forest.rows, sync.forest.forest.numLeaves, nodes, rows, 1, [], [h], dead)
    ensures sync.forest.forest.numLeaves == 1 <= Bits.Pow2(Position.MAX_ROWS) && !Verify.AllPresent(sync.forest.forest.Abstract()) && sync.forest.Applies([], [])
  {
    hide PackedForest.IndexValid, Represents, View, Applied, OneLeaf, Bits.Pow2;
    var f := sync.forest.forest;
    var dead :| Applied(f.rows, f.numLeaves, nodes, rows, 1, [], [h], dead);
    AppliedCount(f.rows, f.numLeaves, nodes, rows, 1, [], [h], dead);
    LeafDeleted(f.parentHash, nodes, rows, f.rows, h, dead);
    RoomLeft(sync.forest);
  }

  lemma RoomLeft(f: OnlineForest)
    requires f.Valid()
    ensures Branches(f.forest.numLeaves, 0) <= f.forest.Room()
  {
    hide PackedForest.IndexValid, PackedForest.TreesValid, OnlineForest.Undoes, Read, View;
  }

  lemma NothingApplies(f: OnlineForest)
    requires f.forest.numLeaves <= Bits.Pow2(Position.MAX_ROWS) && Branches(f.forest.numLeaves, 0) <= f.forest.Room()
    ensures f.Applies([], [])
  {
    hide Bits.Pow2;
  }

  /** Over an empty forest, with proofs wanted: a block that adds a leaf and a block that spends it
      are both connected, and from then on the empty block is refused, although it applies. */
  method ProofsStop(sync: SequentialSync, h: Hash, p: Point, q: Point, s: Point)
    returns (added: Result<Option<Verify.Proof>>, spent: Result<Option<Verify.Proof>>, refused: Result<Option<Verify.Proof>>)
    requires sync.Valid() && sync.forest.forest.numLeaves == 0 && sync.forest.Applies([h], [])
    requires p.height == |sync.chainHashes| && q.height == p.height + 1 && s.height == q.height + 1 && s.height <= MAX_HEIGHT
    modifies sync, sync.forest`point, sync.forest`chain, sync.forest`lsn, sync.forest`log, sync.forest`blocks,
             sync.forest.forest, sync.forest.forest.arena, sync.forest.forest.index
    ensures added.Ok? && spent.Ok? && refused.Err? && sync.chainHashes == old(sync.chainHashes) + [p.hash, q.hash]
    ensures sync.forest.forest.numLeaves == 1 && sync.forest.Applies([], [])
  {
    hide PackedForest.Valid, OnlineForest.Undoes, OnlineForest.Applies, Applied, Block, Proves, OneLeaf, Bits.Pow2, Verify.AllPresent;
    ghost var f := sync.forest.forest;
    var tip := sync.chainHashes[|sync.chainHashes| - 1];
    NothingMissing(f);
    added := sync.ProcessNext(Ok(p), Ok(Delta(p, tip, [h], [])), Ok(true), true);
    OneLeafAfter(sync, old(f.arena.Nodes()), old(f.rows), h);
    ghost var nodes, rows := f.arena.Nodes(), f.rows;
    spent := sync.ProcessNext(Ok(q), Ok(Delta(q, p.hash, [], [h])), Ok(true), true);
    EmptiedAfter(sync, nodes, rows, h);
    RoomLeft(sync.forest);
    refused := sync.ProcessNext(Ok(s), Ok(Delta(s, q.hash, [], [])), Ok(true), true);
    NothingApplies(sync.forest);
  }
}
