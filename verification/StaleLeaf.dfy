/** A run of the forest class after which live + free = next no longer holds: two blocks that are
    connected and taken off again, with seals in between (ModifyBlock, SealDelta and
    RollbackOnlineBlock in src/forest.cpp). */
module StaleLeaf {
  import opened Common
  import opened Records
  import opened Layering
  import opened Transactions
  import opened Arena
  import opened ForestState
  import opened ArenaTrees
  import opened Accumulator
  import opened Packed
  import opened Blocks
  import opened Online
  import opened CleanRecords
  import Durability
  import Trees
  import DeltaStore
  import Bits
  import Position

  /** The newest run shows what was dirty below the end. */
  lemma RunShows(l: Layers, next: nat, id: NodeId)
    ensures LookupAll(Seal(l, next).runs, id) == if id in l.dirty && id < next then Some(l.dirty[id]) else LookupAll(l.runs, id)
  {
    hide Lookup, RunOf;
    var run := RunOf(Visible(l.dirty, next));
    RunOfIs(Visible(l.dirty, next), id);
    assert (l.runs + [run])[..|l.runs|] == l.runs;
  }

  /** Sealing drops what is beyond the end, and an older run shows through. */
  lemma SealUncovers(l: Layers, next: nat, id: NodeId)
    requires next <= id && LookupAll(l.runs, id).Some?
    ensures Read(Seal(l, next), id) == LookupAll(l.runs, id).value
  {
    hide LookupAll;
    RunShows(l, next, id);
  }

  /** What an undoing expects does not change with a seal. */
  lemma SealExpected(l: Layers, next: nat, changes: seq<Change>)
    requires Durability.Expected(l, changes) && forall i | 0 <= i < |changes| :: changes[i].id < next
    ensures Durability.Expected(Seal(l, next), changes)
  {
    hide Read, Seal, Overlay, LastChange;
    var l' := Seal(l, next);
    forall i | 0 <= i < |changes| ensures Read(l'.(dirty := Overlay(l'.dirty, changes[..i])), changes[i].id) == changes[i].before {
      OverlayRead(l, changes[..i], changes[i].id);
      OverlayRead(l', changes[..i], changes[i].id);
      SealRead(l, next, changes[i].id);
    }
  }

  /** No id is free, and no record beyond the end is live. */
  ghost predicate Full(f: OnlineForest)
    reads f, f.forest, f.forest.arena
  { f.forest.arena.freeSet == {} && NothingBeyond(f.forest.arena.Stack(), f.forest.arena.next) }

  /** There are ids for one more leaf. */
  ghost predicate HasRoom(f: OnlineForest)
    reads f, f.forest, f.forest.arena
  { f.forest.numLeaves + 1 <= Bits.Pow2(Position.MAX_ROWS) && 1 + Branches(f.forest.numLeaves, 1) <= f.forest.Room() }

  lemma OneApplies(f: OnlineForest, h: Hash)
    requires HasRoom(f)
    ensures f.Applies([h], [])
  {
    hide Branches, Bits.Pow2;
  }

  /** With no id free before, a leaf and its branches take fresh ids. */
  lemma AllFresh(a: Books, b: Books, rows': seq<Row>, leaves': nat, nodes: Nodes, rows: seq<Row>, leaves: nat, h: Hash, dead: set<NodeId>)
    requires Applied(rows', leaves', nodes, rows, leaves, [h], [], dead) && Spends(a, b, dead, 1)
    requires a.freeSet == {} && a.live + |a.freeSet| == a.next && b.live + |b.freeSet| == b.next
    ensures b.freeSet == {} && a.next < b.next
  {
    hide StripRows, CarryAll, PruneRows, Bits.Pow2;
  }

  lemma ValidBooks(f: OnlineForest) returns (b: Books)
    requires f.Valid()
    ensures b == f.forest.arena.Ledger() && b.live + |b.freeSet| == b.next && b.freeSet == FreeIds(f.forest.arena.Stack(), b.next)
  {
    hide Read, FreeIds, CleanLayers, InTransaction, StackHolds, OpenedRuns, Remembered, AllInLog, Represents, Trees.WellFormed;
    b := f.forest.arena.Ledger();
  }

  /** The records the block wrote beyond the old end are dirty, and live. */
  lemma WrittenBeyond(m: Memory, t: Tx, m': Memory, id: NodeId)
    requires Block(m, t, m') && m.next <= id < m'.next
    ensures id in m'.layers.dirty && m'.layers.dirty[id] == Read(m'.layers, id)
  {
    hide Read, Overlay, LastChange, Images, CleanLayers, Durability.CleanChanges, Rewrites;
    assert t.beforeNext == m.next && t.afterNext == m'.next;
    assert id in IdsOf(t.changes);
    var i :| 0 <= i < |t.changes| && IdsOf(t.changes)[i] == id;
    ChangeFound(t.changes, i);
    OverlayAt(m.layers.dirty, t.changes, id);
    DirtyFirst(m'.layers, id);
  }

  lemma DirtyFirst(l: Layers, id: NodeId)
    requires id in l.dirty
    ensures Read(l, id) == l.dirty[id]
  {}

  /** Nothing live lies beyond the end. */
  ghost predicate NothingBeyond(l: Layers, next: nat) { forall id: NodeId | id >= next :: Read(l, id).kind == FREE }

  /** A block on a full arena, once sealed: it can be taken off cleanly, and its first record is in
      the newest run. */
  lemma SealedBlock(m: Memory, t: Tx, m': Memory)
    requires Block(m, t, m') && NothingBeyond(m.layers, m.next) && FreeIds(m'.layers, m'.next) == {} && m.next < m'.next
    ensures Stale(t) == {} && Durability.Expected(Seal(m'.layers, m'.next), Inverse(t.changes))
    ensures var shown := LookupAll(Seal(m'.layers, m'.next).runs, m.next); shown.Some? && shown.value.kind != FREE
  {
    hide Read, Seal, Stale, LookupAll, Durability.Expected, Inverse, Overlay, LastChange, Images, CleanLayers, Durability.CleanChanges, Links;
    BlockStale(m, t, m');
    FreshExpected(m, t, m');
    BlockIds(m, t, m');
    SealExpected(m'.layers, m'.next, Inverse(t.changes));
    WrittenBeyond(m, t, m', m.next);
    RunShows(m'.layers, m'.next, m.next);
    assert m.next !in FreeIds(m'.layers, m'.next);
  }

  lemma BlockIds(m: Memory, t: Tx, m': Memory)
    requires Block(m, t, m')
    ensures forall i | 0 <= i < |Inverse(t.changes)| :: Inverse(t.changes)[i].id < m'.next
  {
    hide Images, Rewrites, CleanLayers, Durability.CleanChanges, Overlay, Read;
  }

  /** Connect a block of one leaf on a full arena, and seal. */
  method AddAndSeal(f: OnlineForest, h: Hash, p: Point)
    requires f.Valid() && Full(f) && HasRoom(f) && p.height == f.point.height + 1
    modifies f`point, f`chain, f`lsn, f`log, f`blocks, f`durableLsn, f`generation, f.forest, f.forest.arena, f.forest.index
    ensures f.Valid() && |f.blocks| == |old(f.blocks)| + 1 && f.blocks[..|old(f.blocks)|] == old(f.blocks)
    ensures f.blocks[|old(f.blocks)|].before == old(Logical(f.Mem())) && Stale(f.blocks[|old(f.blocks)|].tx) == {}
    ensures Durability.Expected(f.forest.arena.Stack(), Inverse(f.blocks[|old(f.blocks)|].tx.changes))
    ensures var shown := LookupAll(f.forest.arena.runs, old(f.forest.arena.next)); shown.Some? && shown.value.kind != FREE
  {
    hide Read, Seal, Block, Applied, Spends, Stale, Branches, LookupAll, Durability.Expected, Inverse, FreeIds, f.Valid, View, NothingBeyond;
    ghost var m := f.Mem();
    OneApplies(f, h);
    ghost var books := ValidBooks(f);
    var r, dead := f.ModifyBlock([h], [], p, true);
    ghost var books' := ValidBooks(f);
    AllFresh(books, books', f.forest.rows, f.forest.numLeaves, old(f.forest.arena.Nodes()), old(f.forest.rows), old(f.forest.numLeaves), h, dead);
    SealedBlock(m, f.log[|old(f.log)|], f.Mem());
    f.SealDelta();
  }

  /** Take the tip off, and seal: an older run's record shows beyond the end. */
  method UndoAndSeal(f: OnlineForest, ghost n: nat)
    requires f.Valid() && f.blocks != [] && n == f.blocks[|f.blocks| - 1].before.next
    requires Stale(f.blocks[|f.blocks| - 1].tx) == {} && Durability.Expected(f.forest.arena.Stack(), Inverse(f.blocks[|f.blocks| - 1].tx.changes))
    requires LookupAll(f.forest.arena.runs, n).Some? && LookupAll(f.forest.arena.runs, n).value.kind != FREE
    modifies f`point, f`chain, f`lsn, f`log, f`blocks, f`durableLsn, f`generation, f.forest, f.forest.arena, f.forest.index
    ensures f.Valid() && f.blocks == old(f.blocks)[..|old(f.blocks)| - 1]
    ensures var before := old(f.blocks)[|old(f.blocks)| - 1].before; Same(Logical(f.Mem()).(lsn := before.lsn), before)
    ensures f.forest.arena.next == n && Read(f.forest.arena.Stack(), n).kind != FREE
  {
    hide Read, Seal, Stale, LookupAll, Durability.Expected, Inverse, f.Valid, View, Same, Durability.Rollback, Durability.LastConnect;
    ghost var before := f.blocks[|f.blocks| - 1].before;
    ghost var runs := f.forest.arena.runs;
    ghost var m := f.Mem();
    var r := f.RollbackOnlineBlock(true);
    RollbackRuns(m, old(f.log), f.Mem());
    SameHeader(Logical(f.Mem()), before);
    SealUncovers(f.forest.arena.Stack(), n, n);
    f.SealDelta();
  }

  lemma RollbackRuns(m: Memory, txs: seq<Tx>, m': Memory)
    requires Durability.Rollback(m, txs) == Ok(m')
    ensures m'.layers.runs == m.layers.runs
  {
    hide Durability.LastConnect, Durability.Expected, ChainValid, Overlay;
  }

  /** A record live beyond the end is put back live by the undoing. */
  lemma StaleAgain(m: Memory, t: Tx, m': Memory)
    requires Block(m, t, m') && m.next < m'.next && Read(m.layers, m.next).kind != FREE
    ensures |Stale(t)| > 0
  {
    hide Read, Stale, Images, CleanLayers, Durability.CleanChanges, Links, Overlay;
    BlockStale(m, t, m');
    assert m.next in LiveFrom(m.layers, m.next, m'.next);
  }

  /** No record became free on the way back. */
  lemma StillFull(start: State, m: Memory)
    requires Same(Logical(m).(lsn := start.lsn), start) && forall id | id in start.view :: start.view[id].kind != FREE
    ensures FreeIds(m.layers, m.next) == {}
  {
    hide Read;
    forall id: NodeId | id < m.next ensures Read(m.layers, id).kind != FREE {
      ViewAt(m.layers, m.next, id);
      assert id in start.view;
    }
  }

  lemma StartsFull(f: OnlineForest)
    requires f.Valid() && f.forest.arena.freeSet == {}
    ensures forall id | id in Logical(f.Mem()).view :: Logical(f.Mem()).view[id].kind != FREE
  {
    hide Read, FreeIds, View, f.Valid;
    var b := ValidBooks(f);
    var l := f.forest.arena.Stack();
    forall id | id in Logical(f.Mem()).view ensures Logical(f.Mem()).view[id].kind != FREE {
      ViewAt(l, f.forest.arena.next, id);
      FreeAt(l, f.forest.arena.next, id);
    }
  }

  lemma FreeAt(l: Layers, n: nat, id: NodeId)
    ensures id in FreeIds(l, n) <==> id < n && Read(l, id).kind == FREE
  {
    hide Read;
  }

  lemma SameLate(a: State, b: State, c: State)
    requires Same(a.(lsn := b.lsn), b) && Same(b.(lsn := c.lsn), c)
    ensures Same(a.(lsn := c.lsn), c)
  {
    SimilarTrans(a.view, b.view, c.view);
  }

  /** Over any full forest: connect a leaf, seal, take it off, seal, connect another leaf, take it off.
      All of it succeeds and the state is back, but live + free exceeds next. */
  method SealUncoversStaleLeaf(f: OnlineForest, h: Hash, h': Hash, p: Point, p': Point)
    requires f.Valid() && Full(f) && HasRoom(f) && p.height == p'.height == f.point.height + 1
    modifies f`point, f`chain, f`lsn, f`log, f`blocks, f`durableLsn, f`generation, f.forest, f.forest.arena, f.forest.index
    ensures Same(Logical(f.Mem()).(lsn := old(f.lsn)), old(Logical(f.Mem()))) && f.forest.TreesValid() && f.blocks == old(f.blocks)
    ensures f.forest.arena.next < f.forest.arena.live + |f.forest.arena.freeSet| && !f.Valid()
  {
    hide Read, Seal, Stale, LookupAll, Durability.Expected, Inverse, f.Valid, View, Same, Branches, Applied, Spends, Block, FreeIds, LiveFrom, NothingBeyond,
         Durability.Rollback, Durability.LastConnect;
    ghost var start, n := Logical(f.Mem()), f.forest.arena.next;
    StartsFull(f);
    AddAndSeal(f, h, p);
    UndoAndSeal(f, n);
    SameHeader(Logical(f.Mem()), start);
    ghost var was := Logical(f.Mem());
    ghost var m := f.Mem();
    ghost var books := ValidBooks(f);
    StillFull(start, m);
    OneApplies(f, h');
    ghost var nodes, rows, leaves := f.forest.arena.Nodes(), f.forest.rows, f.forest.numLeaves;
    var r, dead := f.ModifyBlock([h'], [], p', true);
    ghost var books' := ValidBooks(f);
    AllFresh(books, books', f.forest.rows, f.forest.numLeaves, nodes, rows, leaves, h', dead);
    ghost var t := f.blocks[|f.blocks| - 1].tx;
    StaleAgain(m, t, f.Mem());
    FreshExpected(m, t, f.Mem());
    var undone := f.RollbackOnlineBlock(true);
    SameLate(Logical(f.Mem()), was, start);
  }
}
