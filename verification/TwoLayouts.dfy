/** Calls on the forest class after which a rollback leaves records that stand for no forest, although
    every point always carries the same block. Deleting a leaf puts its id on top of the stack of free
    ids, a block draws ids from the top, and undoing that block puts them back in ascending order
    (Allocate and ApplyRuntime in src/forest.cpp); so connecting it again lays the same trees out
    differently. */
module TwoLayouts {
  import opened Common
  import opened Records
  import opened Ordered
  import opened Layering
  import opened Arena
  import opened ArenaTrees
  import opened ForestState
  import opened Accumulator
  import opened Transactions
  import opened DeltaStore
  import opened Durability
  import opened LogRecords
  import opened LogSteps
  import opened OnlineRuns
  import opened UndoRuns
  import opened Packed
  import opened Blocks
  import opened Online
  import opened Refinement
  import opened SameBlocks
  import opened Layouts
  import opened CleanRecords
  import GenuineRuns
  import Scenarios
  import StaleLeaf
  import Trees
  import Bits
  import Position

  // ---- the stack of free ids ------------------------------------------------------------

  lemma {:induction false} FreedIs(changes: seq<Change>, x: NodeId)
    ensures x in FreedBy(changes) <==> exists i | 0 <= i < |changes| :: changes[i].id == x && changes[i].before.kind != FREE && changes[i].after.kind == FREE
    decreases |changes|
  {
    if changes != [] {
      var n := |changes| - 1;
      FreedIs(changes[..n], x);
      if x in FreedBy(changes[..n]) {
        var i :| 0 <= i < n && changes[..n][i].id == x && changes[..n][i].before.kind != FREE && changes[..n][i].after.kind == FREE;
        assert changes[i].id == x;
      }
      forall i | 0 <= i < |changes| && changes[i].id == x && changes[i].before.kind != FREE && changes[i].after.kind == FREE ensures x in FreedBy(changes) {
        if i < n { assert changes[..n][i] == changes[i]; }
      }
    }
  }

  lemma {:induction false} FreedSorted(changes: seq<Change>)
    requires StrictlySorted(IdsOf(changes))
    ensures StrictlySorted(FreedBy(changes))
    decreases |changes|
  {
    if changes != [] {
      var n := |changes| - 1;
      assert IdsOf(changes[..n]) == IdsOf(changes)[..n];
      FreedSorted(changes[..n]);
      var before := FreedBy(changes[..n]);
      forall k | 0 <= k < |before| ensures before[k] < changes[n].id {
        FreedIs(changes[..n], before[k]);
        var i :| 0 <= i < n && changes[..n][i].id == before[k];
        assert IdsOf(changes)[i] < IdsOf(changes)[n];
      }
    }
  }

  lemma InverseSorted(changes: seq<Change>)
    requires StrictlySorted(IdsOf(changes))
    ensures StrictlySorted(IdsOf(Inverse(changes)))
  {
    assert IdsOf(Inverse(changes)) == IdsOf(changes);
  }

  /** Undoing a block that only took ids frees exactly those, in ascending order. */
  lemma UndoFrees(m: Memory, t: Tx, m': Memory)
    requires Block(m, t, m') && m'.next == m.next && FreeIds(m'.layers, m'.next) <= FreeIds(m.layers, m.next)
    ensures var freed := FreedBy(Inverse(t.changes));
            NoneRevived(Inverse(t.changes)) && StrictlySorted(freed) && Elements(freed) == FreeIds(m.layers, m.next) - FreeIds(m'.layers, m'.next)
  {
    hide Read, Overlay, LastChange, Images, CleanLayers, CleanChanges, Links, FreedBy, StrictlySorted;
    var inverse := Inverse(t.changes);
    InverseSorted(t.changes);
    FreedSorted(inverse);
    StaleLeaf.BlockIds(m, t, m');
    forall i | 0 <= i < |inverse| ensures inverse[i].before == Read(m'.layers, inverse[i].id) && inverse[i].after == Read(m.layers, inverse[i].id) {}
    forall i | 0 <= i < |inverse| ensures inverse[i].before.kind == FREE ==> inverse[i].after.kind == FREE {
      if inverse[i].before.kind == FREE { assert inverse[i].id in FreeIds(m'.layers, m'.next); }
    }
    forall x: NodeId ensures x in FreedBy(inverse) <==> x in FreeIds(m.layers, m.next) - FreeIds(m'.layers, m'.next) {
      FreedIs(inverse, x);
      if x < m.next && Read(m.layers, x) != Read(m'.layers, x) {
        var i := Listed(m, t, m', x);
        assert inverse[i].id == x;
      }
    }
  }

  /** What a block changed is in its list. */
  lemma Listed(m: Memory, t: Tx, m': Memory, x: NodeId) returns (i: nat)
    requires Block(m, t, m') && Read(m.layers, x) != Read(m'.layers, x)
    ensures i < |t.changes| && t.changes[i].id == x
  {
    hide Read, Overlay, Images, CleanLayers, CleanChanges, Links;
    OverlayRead(m.layers, t.changes, x);
    i := ChangeIndex(t.changes, x);
  }

  /** The ids come back in another order when the lowest of them was pushed last. */
  lemma Turned(stack: seq<NodeId>, size: nat, k: nat, id: NodeId, freed: seq<NodeId>)
    requires size <= |stack| <= size + 2 && k + 3 <= |stack| && (forall j | 0 <= j < size :: id < stack[j]) && id in stack[size..]
    requires StrictlySorted(freed) && Elements(freed) == Elements(stack[k..])
    ensures freed != [] && freed[0] < stack[k]
  {
    assert stack[k..] == stack[k..size] + stack[size..];
    assert id in Elements(freed);
  }

  // ---- following the class --------------------------------------------------------------

  /** The base, its trees, and the block behind every point. */
  datatype World = World(base: Base, rows: seq<Row>, blocks: Point -> GenuineRuns.BlockInfo)

  /** A run of genuine blocks that ends in step with the class, with this log. */
  ghost predicate There(w: World, states: seq<Sys>, steps: seq<Step>, wal: seq<seq<Tx>>, f: OnlineForest)
    reads f, f.forest, f.forest.arena, f.forest.index
  { Scenarios.At(w.base, states, steps, wal, f) && GenuineRuns.GenuineRun(f.forest.parentHash, w.base, w.rows, w.blocks, states, steps) }

  lemma GenuineMore(parentHash: Combine, w: World, states: seq<Sys>, steps: seq<Step>, states': seq<Sys>, steps': seq<Step>)
    requires GenuineRuns.GenuineRun(parentHash, w.base, w.rows, w.blocks, states, steps)
    requires |states'| == |steps'| + 1 && |steps'| == |steps| + 1 && steps <= steps' && states <= states'
    requires GenuineRuns.Connecting(steps'[|steps|]) ==>
               GenuineRuns.Genuine(parentHash, w.blocks, states[|steps|].m, steps'[|steps|].tx, GenuineRuns.Outcome(steps'[|steps|], states'[|steps'|]))
    ensures GenuineRuns.GenuineRun(parentHash, w.base, w.rows, w.blocks, states', steps')
  {
    hide GenuineRuns.Genuine, Injective, Blocks.Holds;
    forall j | 0 <= j < |steps'| && GenuineRuns.Connecting(steps'[j])
      ensures GenuineRuns.Genuine(parentHash, w.blocks, states'[j].m, steps'[j].tx, GenuineRuns.Outcome(steps'[j], states'[j + 1]))
    {
      if j < |steps| { assert steps[j] == steps'[j] && states[j] == states'[j] && states[j + 1] == states'[j + 1]; }
    }
  }

  /** The trees that a block makes of these. */
  function Grown(trees: seq<Option<Plain>>, leaves: nat, additions: seq<Hash>, deletions: seq<Hash>): seq<Option<Plain>> {
    if |trees| != Trees.ROWS || leaves + |additions| > Bits.Pow2(Position.MAX_ROWS) then trees
    else CarryAll(GenuineRuns.PlainPruneRows(trees, GenuineRuns.HashSet(deletions)), leaves, additions)
  }

  lemma AppliedGrown(parentHash: Combine, rows': seq<Row>, leaves': nat, nodes: Nodes, rows: seq<Row>, leaves: nat, additions: seq<Hash>, deletions: seq<Hash>,
                     dead: set<NodeId>)
    requires Applied(rows', leaves', nodes, rows, leaves, additions, deletions, dead) && Represents(parentHash, nodes, rows)
    requires GenuineRuns.PlainDistinct(parentHash, StripRows(rows))
    ensures StripRows(rows') == Grown(StripRows(rows), leaves, additions, deletions) && leaves' == leaves + |additions| && Named(nodes, deletions, dead)
  {
    hide Represents, GenuineRuns.PlainDistinct, CarryAll, Bits.Pow2, PruneRows, GenuineRuns.PlainPruneRows, Named, StripRows;
    GenuineRuns.DistinctLaidOut(parentHash, nodes, rows);
    GenuineRuns.PruneByHash(parentHash, nodes, rows, deletions, dead);
    assert |StripRows(rows)| == Trees.ROWS;
  }

  /** The block takes no fresh id. */
  ghost predicate Suffices(f: OnlineForest, additions: seq<Hash>, deletions: seq<Hash>)
    reads f, f.forest, f.forest.arena
  {
    additions == [] || (deletions == [] && f.forest.arena.Neat() && |f.forest.arena.free| >= |additions| + Branches(f.forest.numLeaves, |additions|))
  }

  lemma NoneNamed(nodes: Nodes, dead: set<NodeId>)
    requires Named(nodes, [], dead)
    ensures dead == {}
  {}

  /** Connect the block of the next point. */
  method ConnectThere(f: OnlineForest, ghost w: World, ghost states: seq<Sys>, ghost steps: seq<Step>, ghost wal: seq<seq<Tx>>, additions: seq<Hash>, deletions: seq<Hash>,
                      point: Point, ghost newSegment: bool) returns (ghost states': seq<Sys>, ghost steps': seq<Step>, ghost tx: Tx, ghost dead: set<NodeId>)
    requires There(w, states, steps, wal, f) && point.height == f.point.height + 1 && w.blocks(point) == GenuineRuns.BlockInfo(f.point, additions, deletions)
    requires f.forest.numLeaves + |additions| <= Bits.Pow2(Position.MAX_ROWS) && f.Applies(additions, deletions) && Suffices(f, additions, deletions)
    requires GenuineRuns.PlainDistinct(f.forest.parentHash, StripRows(f.forest.rows))
    requires GenuineRuns.PlainDistinct(f.forest.parentHash, Grown(StripRows(f.forest.rows), f.forest.numLeaves, additions, deletions))
    modifies f`point, f`chain, f`lsn, f`log, f`blocks, f.forest, f.forest.arena, f.forest.index
    ensures There(w, states', steps', Appended(wal, tx, newSegment), f) && f.point == point && f.forest.arena.next == old(f.forest.arena.next)
    ensures Block(old(f.Mem()), tx, f.Mem()) && f.blocks == old(f.blocks) + [Past(old(Logical(f.Mem())), old(f.forest.rows), tx)]
    ensures StripRows(f.forest.rows) == Grown(StripRows(old(f.forest.rows)), old(f.forest.numLeaves), additions, deletions)
    ensures f.forest.numLeaves == old(f.forest.numLeaves) + |additions| && Named(old(f.forest.arena.Nodes()), deletions, dead)
    ensures Spends(old(f.forest.arena.Ledger()), f.forest.arena.Ledger(), dead, |additions|)
    ensures old(f.forest.arena.Neat()) ==>
              f.forest.arena.Neat() && Restacks(old(f.forest.arena.free), old(f.forest.arena.next), f.forest.arena.free, f.forest.arena.next, dead, |additions|,
                                                old(f.forest.numLeaves), f.forest.roots)
    ensures additions == [] && deletions == [] ==> tx.changes == [] && f.forest.roots == old(f.forest.roots)
  {
    hide Inv, Next, Block, Init, f.Valid, Applied, Named, TxWal, Appended, Bits.Pow2, f.Applies, Connects, GenuineRuns.PlainDistinct, Grown, StripRows, View,
         Blocks.Holds, Exact, Restacks, Spends, GenuineRuns.GenuineRun, GenuineRuns.Genuine, Draws;
    ghost var m, rows, books, nodes, free := f.Mem(), f.forest.rows, f.forest.arena.Ledger(), f.forest.arena.Nodes(), f.forest.arena.free;
    ValidHolds(f);
    GenuineRuns.HoldsRepresents(f.forest.parentHash, Logical(m), rows);
    ghost var s := states[|steps|];
    var r;
    ghost var s';
    r, s', tx, dead := ConnectStep(f, w.base, 1, s, additions, deletions, point, true, newSegment);
    AppliedGrown(f.forest.parentHash, f.forest.rows, f.forest.numLeaves, nodes, rows, m.leaves, additions, deletions, dead);
    SameEnd(books, f.forest.arena.Ledger(), free, f.forest.arena.free, nodes, additions, deletions, dead, m.leaves, f.forest.roots);
    BlockHeader(m, tx, f.Mem());
    BlockGenuine(f, m, tx, rows, books, additions, deletions, dead, w.blocks);
    Scenarios.ConnectWal(w.base, s, tx, newSegment, s');
    Scenarios.Extend(w.base, 1, states, steps, Connect(tx, newSegment), s');
    states', steps' := states + [s'], steps + [Connect(tx, newSegment)];
    GenuineMore(f.forest.parentHash, w, states, steps, states', steps');
  }

  lemma SameEnd(a: Books, b: Books, free: seq<NodeId>, free': seq<NodeId>, nodes: Nodes, additions: seq<Hash>, deletions: seq<Hash>, dead: set<NodeId>, leaves: nat,
                roots: seq<NodeId>)
    requires Spends(a, b, dead, |additions|) && Named(nodes, deletions, dead)
    requires additions == [] || (deletions == [] && |free| >= |additions| + Branches(leaves, |additions|) && Restacks(free, a.next, free', b.next, dead, |additions|, leaves, roots))
    ensures a.next == b.next
  {
    hide Draws, Named, NewRoot;
    if additions != [] { NoneNamed(nodes, dead); }
  }

  // ---- empty blocks ---------------------------------------------------------------------

  /** What an empty block and its undoing leave alone. */
  ghost predicate Still(f: OnlineForest, layers: Layers, next: nat, roots: seq<NodeId>, leaves: nat, rows: seq<Row>, free: seq<NodeId>)
    reads f, f.forest, f.forest.arena
  {
    && f.forest.arena.Stack() == layers && f.forest.arena.next == next && f.forest.roots == roots && f.forest.numLeaves == leaves && f.forest.rows == rows
    && f.forest.arena.free == free && f.forest.arena.Neat()
  }

  lemma EmptyKeeps(m: Memory, tx: Tx, m': Memory)
    requires Block(m, tx, m') && tx.changes == []
    ensures m'.layers == m.layers
  {
    hide Images, Rewrites, CleanLayers, CleanChanges, Touches, Read;
  }

  lemma NothingFreedByEmpty(t: Tx)
    requires t.changes == []
    ensures NoneRevived(Inverse(t.changes)) && FreedBy(Inverse(t.changes)) == [] && Inverse(t.changes) == []
  {
    assert Inverse(t.changes) == [];
  }

  lemma NothingGrown(parentHash: Combine, f: OnlineForest)
    requires f.Valid() && GenuineRuns.PlainDistinct(parentHash, StripRows(f.forest.rows)) && f.forest.numLeaves <= Bits.Pow2(Position.MAX_ROWS)
    ensures Grown(StripRows(f.forest.rows), f.forest.numLeaves, [], []) == StripRows(f.forest.rows)
  {
    hide f.Valid, Bits.Pow2, GenuineRuns.PlainDistinct, Strip;
    var trees := StripRows(f.forest.rows);
    if |trees| == Trees.ROWS {
      forall i | 0 <= i < |trees| && trees[i].Some? ensures GenuineRuns.PlainPrune(trees[i].value, {}) == trees[i] { PruneNone(trees[i].value); }
      assert GenuineRuns.HashSet([]) == {};
      assert GenuineRuns.PlainPruneRows(trees, {}) == trees;
      CarryAllNone(trees, f.forest.numLeaves);
    }
  }

  lemma {:induction false} PruneNone(t: Plain)
    ensures GenuineRuns.PlainPrune(t, {}) == Some(t)
    decreases t
  {
    if t.PNode? {
      PruneNone(t.left);
      PruneNone(t.right);
    }
  }

  /** Connect an empty block. */
  method EmptyThere(f: OnlineForest, ghost w: World, ghost states: seq<Sys>, ghost steps: seq<Step>, ghost wal: seq<seq<Tx>>, point: Point, ghost newSegment: bool)
    returns (ghost states': seq<Sys>, ghost steps': seq<Step>, ghost tx: Tx)
    requires There(w, states, steps, wal, f) && point.height == f.point.height + 1 && w.blocks(point) == GenuineRuns.BlockInfo(f.point, [], [])
    requires f.forest.numLeaves <= Bits.Pow2(Position.MAX_ROWS) && f.forest.arena.Neat() && GenuineRuns.PlainDistinct(f.forest.parentHash, StripRows(f.forest.rows))
    modifies f`point, f`chain, f`lsn, f`log, f`blocks, f.forest, f.forest.arena, f.forest.index
    ensures There(w, states', steps', Appended(wal, tx, newSegment), f) && f.point == point && f.lsn == old(f.lsn) + 1
    ensures tx.kind == CONNECT && tx.point == point && tx.previous == old(f.point) && tx.lsn == f.lsn && tx.changes == [] && tx.afterRoots == f.forest.roots
    ensures tx.beforeNext == tx.afterNext
    ensures f.blocks == old(f.blocks) + [Past(old(Logical(f.Mem())), old(f.forest.rows), tx)]
    ensures Still(f, old(f.forest.arena.Stack()), old(f.forest.arena.next), old(f.forest.roots), old(f.forest.numLeaves), old(f.forest.rows), old(f.forest.arena.free))
  {
    hide There, Block, Appended, f.Applies, Bits.Pow2, GenuineRuns.PlainDistinct, Grown, StripRows, View, Exact, Feeds, Blocks.Holds, f.Valid, Spends, Named;
    ghost var m := f.Mem();
    ThereValid(w, states, steps, wal, f);
    Scenarios.EmptyApplies(f);
    NothingGrown(f.forest.parentHash, f);
    ValidHolds(f);
    ghost var dead;
    states', steps', tx, dead := ConnectThere(f, w, states, steps, wal, [], [], point, newSegment);
    NoneNamed(old(f.forest.arena.Nodes()), dead);
    ThereValid(w, states', steps', Appended(wal, tx, newSegment), f);
    ValidHolds(f);
    EmptyKeeps(m, tx, f.Mem());
    BlockHeader(m, tx, f.Mem());
    Scenarios.BlockIs(m, tx, f.Mem());
    SameRows(f.forest.parentHash, m, f.Mem(), old(f.forest.rows), f.forest.rows);
    PushedNone(old(f.forest.arena.free), f.forest.arena.free);
  }

  lemma AtLength(base: Base, states: seq<Sys>, steps: seq<Step>, wal: seq<seq<Tx>>, f: OnlineForest)
    requires Scenarios.At(base, states, steps, wal, f)
    ensures |states| == |steps| + 1
  {
    hide IsRun, Refinement.Matches, f.Valid, TxWal;
  }

  lemma PushedNone(a: seq<NodeId>, b: seq<NodeId>)
    requires Pushes(a, b, {}, 0)
    ensures a == b
  {}

  lemma ThereValid(w: World, states: seq<Sys>, steps: seq<Step>, wal: seq<seq<Tx>>, f: OnlineForest)
    requires There(w, states, steps, wal, f)
    ensures f.Valid() && f.forest.arena.next < NO_NODE
  {
    hide IsRun, Refinement.Matches, f.Valid, TxWal, GenuineRuns.GenuineRun;
  }

  lemma SameRows(parentHash: Combine, m: Memory, m': Memory, rows: seq<Row>, rows': seq<Row>)
    requires Blocks.Holds(parentHash, Logical(m), rows) && Blocks.Holds(parentHash, Logical(m'), rows') && m'.layers == m.layers && m'.next == m.next && m'.roots == m.roots
             && m'.leaves == m.leaves
    ensures rows' == rows
  {
    hide View, Represents, Trees.WellFormed;
    GenuineRuns.HoldsUnique(parentHash, Logical(m'), rows', rows);
  }

  /** Take the tip off. */
  method UndoThere(f: OnlineForest, ghost w: World, ghost states: seq<Sys>, ghost steps: seq<Step>, ghost wal: seq<seq<Tx>>, ghost newSegment: bool)
    returns (ghost states': seq<Sys>, ghost steps': seq<Step>, ghost tx: Tx)
    requires There(w, states, steps, wal, f) && f.blocks != [] && f.forest.arena.Neat()
    requires var t := f.blocks[|f.blocks| - 1].tx;
             && Expected(f.forest.arena.Stack(), Inverse(t.changes)) && Stale(t) == {} && t.beforeNext == t.afterNext && NoneRevived(Inverse(t.changes))
             && LastConnect(Flat(wal), f.point) == Some(t)
    modifies f`point, f`chain, f`lsn, f`log, f`blocks, f.forest, f.forest.arena, f.forest.index
    ensures There(w, states', steps', Appended(wal, tx, newSegment), f) && tx.kind == DISCONNECT && tx.lsn == f.lsn == old(f.lsn) + 1 && tx.point == f.point
    ensures f.blocks == old(f.blocks)[..|old(f.blocks)| - 1] && f.forest.rows == old(f.blocks)[|old(f.blocks)| - 1].rows
    ensures var top := old(f.blocks)[|old(f.blocks)| - 1];
            && f.forest.arena.Neat() && f.forest.arena.free == old(f.forest.arena.free) + FreedBy(Inverse(top.tx.changes))
            && f.point == top.before.point && f.forest.roots == top.before.roots && f.forest.numLeaves == top.before.leaves && f.forest.arena.next == top.before.next
            && f.forest.arena.Stack() == old(f.forest.arena.Stack()).(dirty := Overlay(old(f.forest.arena.dirty), Inverse(top.tx.changes)))
  {
    hide Scenarios.At, LastConnect, Flat, Appended, Same, Expected, Stale, Inverse, GenuineRuns.GenuineRun, FreedBy, NoneRevived, Exact, View, Overlay;
    ghost var top := f.blocks[|f.blocks| - 1];
    states', steps', tx := Scenarios.DisconnectAt(f, w.base, states, steps, wal, newSegment);
    SameHeader(Logical(f.Mem()), top.before);
    AtLength(w.base, states', steps', Appended(wal, tx, newSegment), f);
    GenuineMore(f.forest.parentHash, w, states, steps, states', steps');
  }

  // ---- the block that draws from the stack ----------------------------------------------

  lemma DrawnSet(stack: seq<NodeId>, k: nat, freeSet: set<NodeId>, freeSet': set<NodeId>)
    requires Exact(stack, freeSet) && k <= |stack| && Exact(stack[..k], freeSet')
    ensures Elements(stack[k..]) == freeSet - freeSet'
  {
    assert stack == stack[..k] + stack[k..];
  }

  /** The size of the stack depends on the trees and the end of the arena alone. */
  lemma StackSize(f: OnlineForest)
    requires f.Valid() && f.forest.arena.Neat()
    ensures |f.forest.arena.free| + GenuineRuns.PlainNodes(StripRows(f.forest.rows)) == f.forest.arena.next
    ensures |f.forest.arena.free| + f.forest.arena.live == f.forest.arena.next
  {
    hide f.Valid, Exact, View, Represents, StripRows, GenuineRuns.PlainNodes, LiveIds;
    LiveBooks(f);
    ValidHolds(f);
    GenuineRuns.HoldsRepresents(f.forest.parentHash, Logical(f.Mem()), f.forest.rows);
    GenuineRuns.LiveNodes(f.forest.parentHash, Logical(f.Mem()).view, f.forest.rows);
    ExactCount(f.forest.arena.free, f.forest.arena.freeSet);
  }

  /** The block on top can be undone, and that puts these ids back on the stack. */
  ghost predicate Returns(layers: Layers, t: Tx, ids: seq<NodeId>) {
    && Expected(layers, Inverse(t.changes)) && Stale(t) == {} && t.beforeNext == t.afterNext && NoneRevived(Inverse(t.changes))
    && StrictlySorted(FreedBy(Inverse(t.changes))) && Elements(FreedBy(Inverse(t.changes))) == Elements(ids)
  }

  lemma BlockReturns(m: Memory, t: Tx, m': Memory, free: seq<NodeId>, k: nat)
    requires Block(m, t, m') && m'.next == m.next && k <= |free|
    requires Exact(free, FreeIds(m.layers, m.next)) && Exact(free[..k], FreeIds(m'.layers, m'.next))
    ensures Returns(m'.layers, t, free[k..])
  {
    hide Block, Expected, Stale, NoneRevived, FreedBy, StrictlySorted, Inverse, Read;
    DrawnSet(free, k, FreeIds(m.layers, m.next), FreeIds(m'.layers, m'.next));
    assert free[..k] <= free;
    assert FreeIds(m'.layers, m'.next) <= FreeIds(m.layers, m.next) by {
      hide FreeIds;
      forall x | x in FreeIds(m'.layers, m'.next) ensures x in FreeIds(m.layers, m.next) { assert x in Elements(free[..k]); }
    }
    UndoFrees(m, t, m');
    FreshExpected(m, t, m');
    BlockStale(m, t, m');
    BlockHeader(m, t, m');
  }

  /** Connect a block of additions over ids from the stack. */
  method PlaceThere(f: OnlineForest, ghost w: World, ghost states: seq<Sys>, ghost steps: seq<Step>, ghost wal: seq<seq<Tx>>, additions: seq<Hash>, point: Point,
                    ghost newSegment: bool) returns (ghost states': seq<Sys>, ghost steps': seq<Step>, ghost tx: Tx)
    requires There(w, states, steps, wal, f) && point.height == f.point.height + 1 && w.blocks(point) == GenuineRuns.BlockInfo(f.point, additions, [])
    requires f.forest.numLeaves + |additions| <= Bits.Pow2(Position.MAX_ROWS) && additions != [] && Suffices(f, additions, [])
    requires GenuineRuns.PlainDistinct(f.forest.parentHash, StripRows(f.forest.rows))
    requires GenuineRuns.PlainDistinct(f.forest.parentHash, Grown(StripRows(f.forest.rows), f.forest.numLeaves, additions, []))
    modifies f`point, f`chain, f`lsn, f`log, f`blocks, f.forest, f.forest.arena, f.forest.index
    ensures There(w, states', steps', Appended(wal, tx, newSegment), f) && f.point == point && f.forest.arena.next == old(f.forest.arena.next) && f.lsn == old(f.lsn) + 1
    ensures tx.kind == CONNECT && tx.point == point && tx.previous == old(f.point) && tx.lsn == f.lsn
    ensures f.blocks == old(f.blocks) + [Past(old(Logical(f.Mem())), old(f.forest.rows), tx)]
    ensures StripRows(f.forest.rows) == Grown(StripRows(old(f.forest.rows)), old(f.forest.numLeaves), additions, [])
    ensures f.forest.numLeaves == old(f.forest.numLeaves) + |additions| && f.forest.arena.Neat()
    ensures f.forest.arena.free <= old(f.forest.arena.free) && |f.forest.arena.free| + |additions| <= |old(f.forest.arena.free)|
    ensures NewRoot(f.forest.roots, old(f.forest.numLeaves), |additions|) == old(f.forest.arena.free)[|f.forest.arena.free|]
    ensures Returns(f.forest.arena.Stack(), tx, old(f.forest.arena.free)[|f.forest.arena.free|..])
  {
    hide There, Block, Appended, f.Applies, Bits.Pow2, GenuineRuns.PlainDistinct, Grown, StripRows, View, Exact, Blocks.Holds, f.Valid, Named, NewRoot, Branches, Returns,
         FreeIds, GenuineRuns.PlainNodes;
    ghost var m, free := f.Mem(), f.forest.arena.free;
    ThereValid(w, states, steps, wal, f);
    SufficesApplies(f, additions);
    StackSize(f);
    ghost var books := StaleLeaf.ValidBooks(f);
    ghost var dead;
    states', steps', tx, dead := ConnectThere(f, w, states, steps, wal, additions, [], point, newSegment);
    NoneNamed(old(f.forest.arena.Nodes()), dead);
    ThereValid(w, states', steps', Appended(wal, tx, newSegment), f);
    StackSize(f);
    ghost var books' := StaleLeaf.ValidBooks(f);
    Scenarios.BlockIs(m, tx, f.Mem());
    assert free[..|f.forest.arena.free|] == f.forest.arena.free;
    BlockReturns(m, tx, f.Mem(), free, |f.forest.arena.free|);
  }

  lemma SufficesApplies(f: OnlineForest, additions: seq<Hash>)
    requires f.forest.numLeaves + |additions| <= Bits.Pow2(Position.MAX_ROWS) && additions != [] && Suffices(f, additions, []) && f.forest.arena.next < NO_NODE
    ensures f.Applies(additions, [])
  {
    hide Bits.Pow2, Branches, Exact;
    ExactCount(f.forest.arena.free, f.forest.arena.freeSet);
  }

  /** Take off an empty block. */
  method UndoEmpty(f: OnlineForest, ghost w: World, ghost states: seq<Sys>, ghost steps: seq<Step>, ghost wal: seq<seq<Tx>>, ghost newSegment: bool)
    returns (ghost states': seq<Sys>, ghost steps': seq<Step>, ghost tx: Tx)
    requires There(w, states, steps, wal, f) && f.blocks != [] && f.forest.arena.Neat()
    requires var t := f.blocks[|f.blocks| - 1].tx; t.changes == [] && t.beforeNext == t.afterNext && LastConnect(Flat(wal), f.point) == Some(t)
    modifies f`point, f`chain, f`lsn, f`log, f`blocks, f.forest, f.forest.arena, f.forest.index
    ensures There(w, states', steps', Appended(wal, tx, newSegment), f) && tx.kind == DISCONNECT && tx.lsn == f.lsn == old(f.lsn) + 1 && tx.point == f.point
    ensures var top := old(f.blocks)[|old(f.blocks)| - 1];
            && f.blocks == old(f.blocks)[..|old(f.blocks)| - 1] && f.point == top.before.point
            && Still(f, old(f.forest.arena.Stack()), top.before.next, top.before.roots, top.before.leaves, top.rows, old(f.forest.arena.free))
  {
    hide There, LastConnect, Flat, Appended, Expected, Stale, Inverse, FreedBy, NoneRevived, Exact, View, Overlay;
    ghost var t := f.blocks[|f.blocks| - 1].tx;
    Scenarios.NothingExpected(f.forest.arena.Stack(), t);
    NothingFreedByEmpty(t);
    NoOverlay(f.forest.arena.Stack());
    states', steps', tx := UndoThere(f, w, states, steps, wal, newSegment);
  }

  // ---- the run --------------------------------------------------------------------------

  /** One block deletes a leaf, the next adds leaves, and all blocks above are empty. */
  datatype Plan = Plan(origin: Point, d: Point, p: Point, g: Hash, additions: seq<Hash>)

  function Contents(plan: Plan): Point -> GenuineRuns.BlockInfo {
    (q: Point) =>
      if q == plan.d then GenuineRuns.BlockInfo(plan.origin, [], [plan.g])
      else if q == plan.p then GenuineRuns.BlockInfo(plan.d, plan.additions, [])
      else GenuineRuns.BlockInfo(Point(if q.height > 0 then q.height - 1 else 0, plan.p.hash), [], [])
  }

  /** The trees after the deletion. */
  function Pruned(plan: Plan, trees: seq<Option<Plain>>, leaves: nat): seq<Option<Plain>> { Grown(trees, leaves, [], [plan.g]) }

  /** The trees after the additions. */
  function Added(plan: Plan, trees: seq<Option<Plain>>, leaves: nat): seq<Option<Plain>> { Grown(Pruned(plan, trees, leaves), leaves, plan.additions, []) }

  /** Heights fit, at least three leaves are added, and leaf hashes are distinct throughout. */
  ghost predicate Planned(plan: Plan, parentHash: Combine, trees: seq<Option<Plain>>, leaves: nat) {
    && plan.d.height == plan.origin.height + 1 && plan.p.height == plan.d.height + 1
    && |plan.additions| >= 3 && leaves + |plan.additions| <= Bits.Pow2(Position.MAX_ROWS)
    && GenuineRuns.PlainDistinct(parentHash, trees) && GenuineRuns.PlainDistinct(parentHash, Pruned(plan, trees, leaves))
    && GenuineRuns.PlainDistinct(parentHash, Added(plan, trees, leaves))
  }

  function Above(p: Point, n: nat): Point { Scenarios.Above(p, n) }

  predicate ConnectOf(tx: Tx, point: Point) { Scenarios.ConnectOf(tx, point) }

  lemma ContentsAt(plan: Plan, n: nat)
    requires plan.p.height == plan.d.height + 1
    ensures Contents(plan)(plan.d) == GenuineRuns.BlockInfo(plan.origin, [], [plan.g])
    ensures Contents(plan)(plan.p) == GenuineRuns.BlockInfo(plan.d, plan.additions, [])
    ensures Contents(plan)(Above(plan.p, n + 1)) == GenuineRuns.BlockInfo(Above(plan.p, n), [], []) && Above(plan.p, 0) == plan.p
  {}

  /** The additions with ids drawn from this stack, and two empty blocks; then the empty ones off. */
  method FirstLayout(f: OnlineForest, ghost w: World, ghost states: seq<Sys>, ghost steps: seq<Step>, ghost d1: Tx, plan: Plan, ghost trees: seq<Option<Plain>>, ghost leaves: nat)
    returns (ghost states': seq<Sys>, ghost steps': seq<Step>, ghost p1: Tx, ghost x1: Tx, ghost later: seq<Tx>)
    requires There(w, states, steps, [[d1]], f) && w.blocks == Contents(plan) && Planned(plan, f.forest.parentHash, trees, leaves)
    requires f.point == plan.d && StripRows(f.forest.rows) == Pruned(plan, trees, leaves) && f.forest.numLeaves == leaves && Suffices(f, plan.additions, [])
    modifies f`point, f`chain, f`lsn, f`log, f`blocks, f.forest, f.forest.arena, f.forest.index
    ensures There(w, states', steps', [[d1, p1, x1] + later], f) && f.point == plan.p && f.lsn == old(f.lsn) + 5 && |later| == 3
    ensures f.blocks == old(f.blocks) + [Past(old(Logical(f.Mem())), old(f.forest.rows), p1)]
    ensures ConnectOf(p1, plan.p) && ConnectOf(x1, Above(plan.p, 1)) && x1.changes == [] && x1.previous == plan.p && x1.afterRoots == f.forest.roots
    ensures ConnectOf(later[0], Above(plan.p, 2)) && later[1].kind == DISCONNECT && later[2].kind == DISCONNECT
    ensures StripRows(f.forest.rows) == Added(plan, trees, leaves) && f.forest.arena.next == old(f.forest.arena.next) && f.forest.arena.Neat()
    ensures f.forest.arena.free <= old(f.forest.arena.free) && |f.forest.arena.free| + 3 <= |old(f.forest.arena.free)|
    ensures NewRoot(f.forest.roots, leaves, |plan.additions|) == old(f.forest.arena.free)[|f.forest.arena.free|]
    ensures Returns(f.forest.arena.Stack(), p1, old(f.forest.arena.free)[|f.forest.arena.free|..])
  {
    hide There, LastConnect, Flat, Appended, GenuineRuns.PlainDistinct, Grown, StripRows, View, Exact, Returns, NewRoot, Suffices, Bits.Pow2, Contents;
    ContentsAt(plan, 0);
    ContentsAt(plan, 1);
    states', steps', p1 := PlaceThere(f, w, states, steps, [[d1]], plan.additions, plan.p, false);
    Scenarios.AppendLast([d1], [], [], p1);
    assert [d1] + [p1] == [d1, p1];
    states', steps', x1 := EmptyThere(f, w, states', steps', [[d1, p1]], Above(plan.p, 1), false);
    Scenarios.AppendLast([d1, p1], [], [], x1);
    ghost var three := [d1, p1, x1];
    assert [d1, p1] + [x1] == three;
    ghost var y1, y2, x2;
    states', steps', y1 := EmptyThere(f, w, states', steps', [three], Above(plan.p, 2), false);
    Scenarios.AppendLast(three, [], [], y1);
    Scenarios.FlatOne(three + [y1]);
    LastConnectAt(three + [y1], 3);
    states', steps', y2 := UndoEmpty(f, w, states', steps', [three + [y1]], false);
    Scenarios.AppendLast(three + [y1], [], [], y2);
    assert three + [y1] + [y2] == three + [y1, y2];
    Scenarios.FlatOne(three + [y1, y2]);
    LastConnectAt(three + [y1, y2], 2);
    states', steps', x2 := UndoEmpty(f, w, states', steps', [three + [y1, y2]], false);
    Scenarios.AppendLast(three + [y1, y2], [], [], x2);
    later := [y1, y2, x2];
    assert three + [y1, y2] + [x2] == three + later;
  }

  /** The additions off and on again, and the empty block behind them. Their last root is now the
      lowest of the ids that were put back. */
  method SecondLayout(f: OnlineForest, ghost w: World, ghost states: seq<Sys>, ghost steps: seq<Step>, ghost first: seq<Tx>, plan: Plan, ghost trees: seq<Option<Plain>>,
                      ghost leaves: nat, ghost stack: seq<NodeId>, ghost p1: Tx)
    returns (ghost states': seq<Sys>, ghost steps': seq<Step>, ghost p2: Tx, ghost p3: Tx, ghost x3: Tx)
    requires There(w, states, steps, [first], f) && w.blocks == Contents(plan) && Planned(plan, f.forest.parentHash, trees, leaves) && f.point == plan.p
    requires |f.blocks| >= 1 && f.blocks[|f.blocks| - 1].tx == p1 && ConnectOf(p1, plan.p) && LastConnect(Flat([first]), plan.p) == Some(p1)
    requires var top := f.blocks[|f.blocks| - 1];
             top.before.point == plan.d && top.before.leaves == leaves && top.before.next == f.forest.arena.next && StripRows(top.rows) == Pruned(plan, trees, leaves)
    requires StripRows(f.forest.rows) == Added(plan, trees, leaves) && f.forest.arena.Neat() && f.forest.arena.free <= stack && |f.forest.arena.free| < |stack|
    requires Returns(f.forest.arena.Stack(), p1, stack[|f.forest.arena.free|..])
    requires |stack| + GenuineRuns.PlainNodes(Pruned(plan, trees, leaves)) == f.forest.arena.next && |stack| >= |plan.additions| + Branches(leaves, |plan.additions|)
    modifies f`point, f`chain, f`lsn, f`log, f`blocks, f.forest, f.forest.arena, f.forest.index
    ensures There(w, states', steps', [first, [p2, p3, x3]], f) && f.point == Above(plan.p, 1) && f.lsn == old(f.lsn) + 3 && f.forest.arena.Neat()
    ensures p2.kind == DISCONNECT && p2.point == plan.d && p2.lsn == old(f.lsn) + 1 && ConnectOf(p3, plan.p) && p3.lsn == old(f.lsn) + 2
    ensures ConnectOf(x3, Above(plan.p, 1)) && x3.lsn == old(f.lsn) + 3 && x3.changes == [] && x3.previous == plan.p
    ensures f.blocks != [] && f.blocks[|f.blocks| - 1].tx == x3
    ensures StripRows(f.forest.rows) == Added(plan, trees, leaves) && f.forest.numLeaves == leaves + |plan.additions|
    ensures FreedBy(Inverse(p1.changes)) != [] && NewRoot(f.forest.roots, leaves, |plan.additions|) == FreedBy(Inverse(p1.changes))[0]
  {
    hide There, LastConnect, Flat, Appended, GenuineRuns.PlainDistinct, Grown, StripRows, View, Exact, NewRoot, Bits.Pow2, Contents, FreedBy, Inverse, Expected, Stale,
         NoneRevived, StrictlySorted, GenuineRuns.PlainNodes, Branches, f.Valid;
    ContentsAt(plan, 0);
    ghost var k, freed := |f.forest.arena.free|, FreedBy(Inverse(p1.changes));
    assert stack[k] in Elements(freed);
    ThereValid(w, states, steps, [first], f);
    StackSize(f);
    states', steps', p2 := UndoThere(f, w, states, steps, [first], true);
    Scenarios.AppendLast(first, [], [], p2);
    ThereValid(w, states', steps', [first, [p2]], f);
    StackSize(f);
    ghost var stack' := f.forest.arena.free;
    states', steps', p3 := PlaceThere(f, w, states', steps', [first, [p2]], plan.additions, plan.p, false);
    Scenarios.AppendLast(first, [p2], [], p3);
    assert [p2] + [p3] == [p2, p3];
    ThereValid(w, states', steps', [first, [p2, p3]], f);
    StackSize(f);
    assert stack'[k] == freed[0];
    states', steps', x3 := EmptyThere(f, w, states', steps', [first, [p2, p3]], Above(plan.p, 1), false);
    Scenarios.AppendLast(first, [p2, p3], [], x3);
    assert [p2, p3] + [x3] == [p2, p3, x3];
  }

  /** Seal what is dirty. */
  method SealThere(f: OnlineForest, ghost w: World, ghost states: seq<Sys>, ghost steps: seq<Step>, ghost wal: seq<seq<Tx>>)
    returns (ghost states': seq<Sys>, ghost steps': seq<Step>)
    requires There(w, states, steps, wal, f)
    modifies f`durableLsn, f`generation, f.forest.arena`dirty, f.forest.arena`runs, f.forest.arena`indexes
    ensures There(w, states', steps', wal, f) && f.durableLsn == f.lsn
  {
    hide Scenarios.At, GenuineRuns.GenuineRun, View;
    states', steps' := Scenarios.SealAt(f, w.base, states, steps, wal);
    AtLength(w.base, states', steps', wal, f);
    GenuineMore(f.forest.parentHash, w, states, steps, states', steps');
  }

  lemma PruneThere(f: OnlineForest, w: World, states: seq<Sys>, steps: seq<Step>, wal: seq<seq<Tx>>, i: nat) returns (states': seq<Sys>, steps': seq<Step>)
    requires There(w, states, steps, wal, f) && i < |wal|
    requires forall tx | tx in wal[i] :: tx.lsn <= f.durableLsn && tx.point.height < Floor(f.point.height, 1)
    ensures There(w, states', steps', wal[..i] + wal[i + 1..], f)
  {
    hide Scenarios.At, GenuineRuns.GenuineRun;
    states', steps' := Scenarios.PruneAt(f, w.base, states, steps, wal, i);
    AtLength(w.base, states', steps', wal[..i] + wal[i + 1..], f);
    GenuineMore(f.forest.parentHash, w, states, steps, states', steps');
  }

  /** Two more empty blocks into a third segment; seal, prune the second segment, and the two off again. */
  method PrunedBack(f: OnlineForest, ghost w: World, ghost states: seq<Sys>, ghost steps: seq<Step>, ghost first: seq<Tx>, ghost second: seq<Tx>, plan: Plan)
    returns (ghost states': seq<Sys>, ghost steps': seq<Step>, ghost third: seq<Tx>)
    requires There(w, states, steps, [first, second], f) && w.blocks == Contents(plan) && plan.p.height == plan.d.height + 1 && f.point == Above(plan.p, 1)
    requires GenuineRuns.PlainDistinct(f.forest.parentHash, StripRows(f.forest.rows)) && f.forest.numLeaves <= Bits.Pow2(Position.MAX_ROWS) && f.forest.arena.Neat()
    requires forall tx | tx in second :: tx.lsn <= f.lsn && tx.point.height <= plan.p.height + 1
    modifies f`point, f`chain, f`lsn, f`log, f`blocks, f`durableLsn, f`generation, f.forest, f.forest.arena, f.forest.index
    ensures There(w, states', steps', [first, third], f) && f.point == Above(plan.p, 1) && f.blocks == old(f.blocks) && f.forest.roots == old(f.forest.roots)
    ensures forall k | 0 <= k < |third| :: !ConnectOf(third[k], Above(plan.p, 1))
  {
    hide There, LastConnect, Flat, Appended, GenuineRuns.PlainDistinct, StripRows, View, Exact, Bits.Pow2, Contents;
    ContentsAt(plan, 1);
    ContentsAt(plan, 2);
    ghost var z, v, v2, z2;
    states', steps', z := EmptyThere(f, w, states, steps, [first, second], Above(plan.p, 2), true);
    Scenarios.AppendLast(first, second, [], z);
    states', steps', v := EmptyThere(f, w, states', steps', [first, second, [z]], Above(plan.p, 3), false);
    Scenarios.AppendLast(first, second, [z], v);
    assert [z] + [v] == [z, v];
    ghost var wal := [first, second, [z, v]];
    states', steps' := SealThere(f, w, states', steps', wal);
    states', steps' := PruneThere(f, w, states', steps', wal, 1);
    assert wal[..1] + wal[2..] == [first, [z, v]];
    Scenarios.FlatTwo(first, [z, v]);
    LastConnectAt(first + [z, v], |first| + 1);
    states', steps', v2 := UndoEmpty(f, w, states', steps', [first, [z, v]], false);
    Scenarios.AppendLast(first, [z, v], [], v2);
    ghost var later := [z, v] + [v2];
    Scenarios.FlatTwo(first, later);
    LastConnectAt(first + later, |first|);
    states', steps', z2 := UndoEmpty(f, w, states', steps', [first, later], false);
    Scenarios.AppendLast(first, later, [], z2);
    third := later + [z2];
    assert f.blocks == old(f.blocks);
  }

  /** The log finds the first connect of the tip, and the roots are not where it left them. */
  lemma WrongLayout(f: OnlineForest, w: World, states: seq<Sys>, steps: seq<Step>, first: seq<Tx>, third: seq<Tx>, i: nat) returns (m': Memory, trees: seq<Option<Plain>>)
    requires There(w, states, steps, [first, third], f) && f.point.height > 0 && f.blocks != [] && i < |first|
    requires ConnectOf(first[i], f.point) && first[i].changes == [] && first[i].previous == f.blocks[|f.blocks| - 1].tx.previous && first[i].afterRoots != f.forest.roots
    requires (forall k | i < k < |first| :: !ConnectOf(first[k], f.point)) && forall k | 0 <= k < |third| :: !ConnectOf(third[k], f.point)
    ensures f.Valid() && IsRun(w.base, 1, states, steps) && GenuineRuns.GenuineRun(f.forest.parentHash, w.base, w.rows, w.blocks, states, steps)
    ensures Wrong(f.forest.parentHash, states[|steps|], m', trees) && states[|steps|].m == f.Mem()
  {
    hide Inv, Same, LastConnect, Flat, Init, Next, Read, Rollback, TxWal, f.Valid, Undone, ChainValid, GenuineRuns.Genuine, Injective, Blocks.Holds, StandsFor, GenuineRuns.At;
    var s, own := states[|steps|], f.blocks[|f.blocks| - 1].tx;
    MatchesBase(w.base, s);
    FlatTxWal(s.wal);
    Scenarios.FlatTwo(first, third);
    LastConnectAt(first + third, i);
    TipFound(f);
    TipUndoes(f.forest.parentHash, f.Mem(), f.blocks[|f.blocks| - 1]);
    Scenarios.SameReversal(s.m, Txs(Recs(s)), own, first[i]);
    m' := Undone(s.m, Reversal(s.m, first[i]));
    GenuineRuns.SameBlockUndo(f.forest.parentHash, w.base, 1, w.rows, w.blocks, states, steps, |steps|, m');
    trees := GenuineRuns.At(w.base, w.rows, w.blocks, Tip(s).before.point).trees;
  }

  /** A rollback succeeds here and leaves records that do not stand for the trees from before the tip. */
  ghost predicate Wrong(parentHash: Combine, s: Sys, m': Memory, trees: seq<Option<Plain>>) {
    && Rollback(s.m, Txs(Recs(s))) == Ok(m') && s.history != [] && LastSnap(s).marks != []
    && StandsFor(parentHash, Tip(s).before, trees) && !StandsFor(parentHash, Logical(m'), trees)
  }

  lemma Begins(f: OnlineForest, plan: Plan, generation: nat, fingerprint: Hash) returns (w: World)
    requires f.Valid() && Untouched(f) && f.forest.arena.next < NO_NODE && Injective(f.forest.parentHash)
    ensures w == World(BaseOf(f, generation, fingerprint), f.forest.rows, Contents(plan)) && There(w, [Opening(w.base)], [], [], f)
  {
    hide f.Valid, Refinement.Matches, View, Init, Injective, Blocks.Holds;
    w := World(BaseOf(f, generation, fingerprint), f.forest.rows, Contents(plan));
    InitMatches(f, generation, fingerprint);
    assert TxWal(Opening(w.base).wal) == [];
    ValidHolds(f);
    MatchesStart(f, w.base);
  }

  lemma MatchesStart(f: OnlineForest, base: Base)
    requires Refinement.Matches(base, Opening(base), f)
    ensures Start(base) == f.Mem()
  {
    hide Inv;
  }

  /** The leaf is named by its hash. */
  lemma NamedIs(parentHash: Combine, nodes: Nodes, rows: seq<Row>, g: Hash, id: NodeId, dead: set<NodeId>)
    requires Represents(parentHash, nodes, rows) && GenuineRuns.PlainDistinct(parentHash, StripRows(rows)) && Named(nodes, [g], dead)
    requires id in nodes && nodes[id].kind == LEAF && nodes[id].hash == g
    ensures id in dead && |dead| == 1
  {
    hide Represents, GenuineRuns.PlainDistinct, StripRows;
    GenuineRuns.DistinctLaidOut(parentHash, nodes, rows);
    assert g in [g];
    var x :| x in dead && nodes[x].hash == g;
    Layouts.OneLeaf(parentHash, nodes, x, id);
  }

  /** The leaf to delete stands below every free id. */
  ghost predicate Lowest(f: OnlineForest, g: Hash, id: NodeId)
    reads f, f.forest, f.forest.arena
  {
    && id in f.forest.arena.Nodes() && f.forest.arena.Nodes()[id].kind == LEAF && f.forest.arena.Nodes()[id].hash == g
    && forall x | x in f.forest.arena.free :: id < x
  }

  lemma LowestAt(f: OnlineForest, g: Hash, id: NodeId)
    requires Lowest(f, g, id)
    ensures forall j | 0 <= j < |f.forest.arena.free| :: id < f.forest.arena.free[j]
  {
    hide View;
    forall j | 0 <= j < |f.forest.arena.free| ensures id < f.forest.arena.free[j] { assert f.forest.arena.free[j] in f.forest.arena.free; }
  }

  lemma TurnedBack(layers: Layers, t: Tx, stack: seq<NodeId>, size: nat, k: nat, id: NodeId)
    requires size <= |stack| <= size + 2 && k + 3 <= |stack| && (forall j | 0 <= j < size :: id < stack[j]) && id in stack[size..]
    requires Returns(layers, t, stack[k..])
    ensures FreedBy(Inverse(t.changes)) != [] && FreedBy(Inverse(t.changes))[0] < stack[k]
  {
    hide Expected, Inverse, FreedBy, Stale, NoneRevived, StrictlySorted;
    Turned(stack, size, k, id, FreedBy(Inverse(t.changes)));
  }

  /** Delete the leaf: its id goes on top of the stack. */
  method DeleteLowest(f: OnlineForest, ghost w: World, plan: Plan, ghost id: NodeId) returns (ghost states: seq<Sys>, ghost steps: seq<Step>, ghost d1: Tx)
    requires There(w, [Opening(w.base)], [], [], f) && w.blocks == Contents(plan) && f.point == plan.origin
    requires Planned(plan, f.forest.parentHash, StripRows(f.forest.rows), f.forest.numLeaves) && f.forest.arena.Neat() && Lowest(f, plan.g, id)
    modifies f`point, f`chain, f`lsn, f`log, f`blocks, f.forest, f.forest.arena, f.forest.index
    ensures There(w, states, steps, [[d1]], f) && f.point == plan.d && f.lsn == old(f.lsn) + 1 && ConnectOf(d1, plan.d)
    ensures StripRows(f.forest.rows) == Pruned(plan, StripRows(old(f.forest.rows)), old(f.forest.numLeaves)) && f.forest.numLeaves == old(f.forest.numLeaves)
    ensures f.forest.arena.Neat() && old(f.forest.arena.free) <= f.forest.arena.free && |f.forest.arena.free| <= |old(f.forest.arena.free)| + 2
    ensures id in f.forest.arena.free[|old(f.forest.arena.free)|..]
  {
    hide There, Block, Appended, Bits.Pow2, GenuineRuns.PlainDistinct, Grown, StripRows, View, Exact, Blocks.Holds, f.Valid, Named, Spends, Contents, Feeds;
    ghost var m, nodes, rows := f.Mem(), f.forest.arena.Nodes(), f.forest.rows;
    ContentsAt(plan, 0);
    ThereValid(w, [Opening(w.base)], [], [], f);
    ValidHolds(f);
    GenuineRuns.HoldsRepresents(f.forest.parentHash, Logical(m), rows);
    LeafApplies(f, plan.g, id);
    ghost var dead;
    states, steps, d1, dead := ConnectThere(f, w, [Opening(w.base)], [], [], [], [plan.g], plan.d, true);
    NamedIs(f.forest.parentHash, nodes, rows, plan.g, id, dead);
    Scenarios.AppendLast([], [], [], d1);
    Scenarios.BlockIs(m, d1, f.Mem());
  }

  lemma LeafApplies(f: OnlineForest, g: Hash, id: NodeId)
    requires f.forest.arena.next <= NO_NODE && f.forest.numLeaves <= Bits.Pow2(Position.MAX_ROWS) && Lowest(f, g, id)
    ensures f.Applies([], [g])
  {
    hide Bits.Pow2, View;
  }

  /** The deletion, then the additions and the empty block twice: the roots are not where they were. */
  method BothLayouts(f: OnlineForest, ghost w: World, plan: Plan, ghost id: NodeId)
    returns (ghost states: seq<Sys>, ghost steps: seq<Step>, ghost first: seq<Tx>, ghost second: seq<Tx>)
    requires There(w, [Opening(w.base)], [], [], f) && w.blocks == Contents(plan) && f.point == plan.origin
    requires Planned(plan, f.forest.parentHash, StripRows(f.forest.rows), f.forest.numLeaves) && f.forest.arena.Neat() && Lowest(f, plan.g, id)
    requires |f.forest.arena.free| >= |plan.additions| + Branches(f.forest.numLeaves, |plan.additions|)
    modifies f`point, f`chain, f`lsn, f`log, f`blocks, f.forest, f.forest.arena, f.forest.index
    ensures There(w, states, steps, [first, second], f) && f.point == Above(plan.p, 1) && f.forest.arena.Neat()
    ensures f.forest.numLeaves <= Bits.Pow2(Position.MAX_ROWS) && GenuineRuns.PlainDistinct(f.forest.parentHash, StripRows(f.forest.rows))
    ensures |first| == 6 && ConnectOf(first[2], Above(plan.p, 1)) && first[2].changes == [] && first[2].previous == plan.p && first[2].afterRoots != f.forest.roots
    ensures forall k | 2 < k < 6 :: !ConnectOf(first[k], Above(plan.p, 1))
    ensures forall tx | tx in second :: tx.lsn <= f.lsn && tx.point.height <= plan.p.height + 1
    ensures f.blocks != [] && f.blocks[|f.blocks| - 1].tx.previous == plan.p
  {
    hide There, LastConnect, Flat, GenuineRuns.PlainDistinct, Grown, StripRows, View, Exact, NewRoot, Bits.Pow2, Contents, FreedBy, Inverse, Expected, Stale, NoneRevived,
         StrictlySorted, GenuineRuns.PlainNodes, Branches, f.Valid, Returns, Lowest;
    ghost var start, leaves, free, size := StripRows(f.forest.rows), f.forest.numLeaves, f.forest.arena.free, |f.forest.arena.free|;
    LowestAt(f, plan.g, id);
    ghost var d1, p1, x1, later, p2, p3, x3;
    states, steps, d1 := DeleteLowest(f, w, plan, id);
    ghost var stack := f.forest.arena.free;
    assert forall j | 0 <= j < size :: stack[j] == free[j];
    ThereValid(w, states, steps, [[d1]], f);
    StackSize(f);
    states, steps, p1, x1, later := FirstLayout(f, w, states, steps, d1, plan, start, leaves);
    first := [d1, p1, x1] + later;
    ghost var k := |f.forest.arena.free|;
    Scenarios.FlatOne(first);
    LastConnectAt(first, 1);
    TurnedBack(f.forest.arena.Stack(), p1, stack, size, k, id);
    states, steps, p2, p3, x3 := SecondLayout(f, w, states, steps, first, plan, start, leaves, stack, p1);
    second := [p2, p3, x3];
  }

  /** Over any forest just opened, with enough free ids and a leaf below all of them: delete the leaf,
      add leaves, and connect an empty block; reorganise the last two away, connect them again, each
      with the same contents, and let pruning take the segment of the second connect. Rolling the empty
      block back then succeeds with the transaction of its first connect, and what is left stands for
      no forest with the trees from before it. */
  method SameBlockWrong(f: OnlineForest, plan: Plan, ghost id: NodeId, generation: nat, fingerprint: Hash)
    returns (ghost w: World, ghost states: seq<Sys>, ghost steps: seq<Step>, ghost m': Memory, ghost trees: seq<Option<Plain>>)
    requires f.Valid() && Untouched(f) && f.forest.arena.next < NO_NODE && f.forest.arena.Neat()
    requires f.point == plan.origin && Injective(f.forest.parentHash) && Planned(plan, f.forest.parentHash, StripRows(f.forest.rows), f.forest.numLeaves)
    requires Lowest(f, plan.g, id) && |f.forest.arena.free| >= |plan.additions| + Branches(f.forest.numLeaves, |plan.additions|)
    modifies f`point, f`chain, f`lsn, f`log, f`blocks, f`durableLsn, f`generation, f.forest, f.forest.arena, f.forest.index
    ensures f.Valid() && IsRun(w.base, 1, states, steps) && GenuineRuns.GenuineRun(f.forest.parentHash, w.base, w.rows, w.blocks, states, steps) && w.blocks == Contents(plan)
    ensures Wrong(f.forest.parentHash, states[|steps|], m', trees) && states[|steps|].m == f.Mem()
  {
    hide There, GenuineRuns.PlainDistinct, Grown, StripRows, View, Exact, Bits.Pow2, Contents, StrictlySorted, Branches, f.Valid, Injective, Untouched, Wrong,
         GenuineRuns.GenuineRun, IsRun, Lowest;
    w := Begins(f, plan, generation, fingerprint);
    ghost var first, second, third;
    states, steps, first, second := BothLayouts(f, w, plan, id);
    states, steps, third := PrunedBack(f, w, states, steps, first, second, plan);
    m', trees := WrongLayout(f, w, states, steps, first, third, 2);
  }
}
