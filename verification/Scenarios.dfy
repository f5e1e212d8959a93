/** Runs of the online store that end where a reader would not expect them to, driven by calls on the
    forest class: a rollback that finds the wrong transaction, and a log that recovery refuses. */
module Scenarios {
  import opened Common
  import opened Records
  import opened Layering
  import opened Transactions
  import opened DeltaStore
  import opened Durability
  import opened CleanRecords
  import opened LogRecords
  import opened LogSteps
  import opened OnlineRuns
  import opened UndoRuns
  import opened Arena
  import opened ArenaTrees
  import opened ForestState
  import opened Accumulator
  import opened Packed
  import opened Blocks
  import opened Online
  import opened Refinement
  import StaleLeaf
  import Wal
  import WalParts
  import Bits
  import Position

  // ---- following the class with the machine ---------------------------------------------

  lemma Extend(base: Base, depth: nat, states: seq<Sys>, steps: seq<Step>, step: Step, s': Sys)
    requires IsRun(base, depth, states, steps) && Next(base, depth, states[|steps|], step, s')
    ensures IsRun(base, depth, states + [s'], steps + [step])
  {
    hide Next, Init;
    var states', steps' := states + [s'], steps + [step];
    forall i | 0 <= i < |steps'| ensures Next(base, depth, states'[i], steps'[i], states'[i + 1]) {
      if i < |steps| { assert Next(base, depth, states[i], steps[i], states[i + 1]); }
    }
  }

  /** A run of the machine that ends in step with the class, with this log. */
  ghost predicate At(base: Base, states: seq<Sys>, steps: seq<Step>, wal: seq<seq<Tx>>, f: OnlineForest)
    reads f, f.forest, f.forest.arena, f.forest.index
  {
    && |states| == |steps| + 1 && IsRun(base, 1, states, steps) && TxWal(states[|steps|].wal) == wal
    && Refinement.Matches(base, states[|steps|], f) && f.Valid() && f.forest.arena.next < NO_NODE
  }

  lemma TxWalAppended(wal: seq<seq<Rec>>, r: Rec, newSegment: bool)
    ensures TxWal(Appended(wal, r, newSegment)) == Appended(TxWal(wal), r.tx, newSegment)
  {
    var f := (r: Rec) => r.tx;
    var left, right := TxWal(Appended(wal, r, newSegment)), Appended(TxWal(wal), r.tx, newSegment);
    assert |left| == |right|;
    forall i | 0 <= i < |left| ensures left[i] == right[i] {
      if i == |left| - 1 {
        assert newSegment || wal == [] ==> Map(f, [r]) == [r.tx];
        assert !(newSegment || wal == []) ==> Map(f, wal[|wal| - 1] + [r]) == Map(f, wal[|wal| - 1]) + [r.tx];
      }
    }
  }

  lemma ConnectWal(base: Base, s: Sys, tx: Tx, newSegment: bool, s': Sys)
    requires Next(base, 1, s, Connect(tx, newSegment), s')
    ensures TxWal(s'.wal) == Appended(TxWal(s.wal), tx, newSegment)
  {
    hide Connects, Logical, Appended, TxWal;
    TxWalAppended(s.wal, Rec(tx, false, OnlineRuns.Pushed(s, tx, s'.m)), newSegment);
  }

  lemma DisconnectWal(base: Base, s: Sys, newSegment: bool, s': Sys)
    requires Next(base, 1, s, Disconnect(newSegment), s')
    ensures Found(s).Some? && TxWal(s'.wal) == Appended(TxWal(s.wal), Undoing(s), newSegment)
  {
    hide Logical, Appended, TxWal, Rollback, LastConnect, Flat;
    TxWalAppended(s.wal, Rec(Undoing(s), false, PoppedTo(s, s'.m)), newSegment);
  }

  /** Connect a block without additions. */
  method ConnectAt(f: OnlineForest, ghost base: Base, ghost states: seq<Sys>, ghost steps: seq<Step>, ghost wal: seq<seq<Tx>>, deletions: seq<Hash>, point: Point,
                   ghost newSegment: bool) returns (ghost states': seq<Sys>, ghost steps': seq<Step>, ghost tx: Tx, ghost dead: set<NodeId>)
    requires At(base, states, steps, wal, f) && point.height == f.point.height + 1 && f.forest.numLeaves <= Bits.Pow2(Position.MAX_ROWS) && f.Applies([], deletions)
    modifies f`point, f`chain, f`lsn, f`log, f`blocks, f.forest, f.forest.arena, f.forest.index
    ensures At(base, states', steps', Appended(wal, tx, newSegment), f) && f.point == point && f.forest.arena.next == old(f.forest.arena.next)
    ensures Block(old(f.Mem()), tx, f.Mem()) && (deletions == [] ==> tx.changes == [])
    ensures f.blocks == old(f.blocks) + [Past(old(Logical(f.Mem())), old(f.forest.rows), tx)]
    ensures Named(old(f.forest.arena.Nodes()), deletions, dead) && dead <= f.forest.arena.freeSet && f.forest.numLeaves == old(f.forest.numLeaves)
  {
    hide Inv, Next, Block, Init, f.Valid, Applied, Named, TxWal, Appended, Bits.Pow2, f.Applies, Connects;
    var r;
    ghost var s';
    r, s', tx, dead := ConnectStep(f, base, 1, states[|steps|], [], deletions, point, true, newSegment);
    ConnectWal(base, states[|steps|], tx, newSegment, s');
    Extend(base, 1, states, steps, Connect(tx, newSegment), s');
    states', steps' := states + [s'], steps + [Connect(tx, newSegment)];
    AppliedNames(f.forest.rows, f.forest.numLeaves, old(f.forest.arena.Nodes()), old(f.forest.rows), old(f.forest.numLeaves), deletions, dead);
  }

  lemma AppliedNames(rows': seq<Row>, leaves': nat, nodes: Nodes, rows: seq<Row>, leaves: nat, deletions: seq<Hash>, dead: set<NodeId>)
    requires Applied(rows', leaves', nodes, rows, leaves, [], deletions, dead)
    ensures Named(nodes, deletions, dead) && leaves' == leaves
  {
    hide Named, StripRows, CarryAll, PruneRows, Bits.Pow2;
  }

  /** Take off a tip whose records are still those it left and whose transaction the log still finds. */
  method DisconnectAt(f: OnlineForest, ghost base: Base, ghost states: seq<Sys>, ghost steps: seq<Step>, ghost wal: seq<seq<Tx>>, ghost newSegment: bool)
    returns (ghost states': seq<Sys>, ghost steps': seq<Step>, ghost tx: Tx)
    requires At(base, states, steps, wal, f) && f.blocks != []
    requires Expected(f.forest.arena.Stack(), Inverse(f.blocks[|f.blocks| - 1].tx.changes)) && Stale(f.blocks[|f.blocks| - 1].tx) == {}
    requires LastConnect(Flat(wal), f.point) == Some(f.blocks[|f.blocks| - 1].tx)
    modifies f`point, f`chain, f`lsn, f`log, f`blocks, f.forest, f.forest.arena, f.forest.index
    ensures At(base, states', steps', Appended(wal, tx, newSegment), f) && tx.kind == DISCONNECT && tx.lsn == old(f.lsn) + 1
    ensures f.blocks == old(f.blocks)[..|old(f.blocks)| - 1] && f.lsn == old(f.lsn) + 1 && tx.point == f.point
    ensures var before := old(f.blocks)[|old(f.blocks)| - 1].before; Same(Logical(f.Mem()).(lsn := before.lsn), before) && f.point == before.point
    ensures |old(f.chain)| >= 2 && f.Mem() == Undone(old(f.Mem()), Reversal(old(f.Mem()), old(f.blocks)[|old(f.blocks)| - 1].tx))
    ensures f.forest.rows == old(f.blocks)[|old(f.blocks)| - 1].rows && |steps'| == |steps| + 1 && steps' == steps + [Disconnect(newSegment)] && states <= states'
    ensures var t := old(f.blocks)[|old(f.blocks)| - 1].tx;
            old(f.forest.arena.Neat()) && t.beforeNext == t.afterNext && NoneRevived(Inverse(t.changes)) ==>
              f.forest.arena.Neat() && f.forest.arena.free == old(f.forest.arena.free) + FreedBy(Inverse(t.changes))
  {
    hide Inv, Next, Init, f.Valid, TxWal, Appended, LastConnect, Flat, Stale, Expected, Same, Inverse, Undone, FreedBy, NoneRevived, Exact, View, OnlineForest.Undoes,
         PackedForest.TreesValid;
    ghost var s, top := states[|steps|], f.blocks[|f.blocks| - 1];
    FlatTxWal(s.wal);
    TipEnds(f);
    ghost var m := f.Mem();
    var r;
    ghost var s';
    r, s' := DisconnectStep(f, base, 1, s, true, newSegment);
    SameHeader(Logical(f.Mem()), top.before);
    DisconnectWal(base, s, newSegment, s');
    Extend(base, 1, states, steps, Disconnect(newSegment), s');
    tx := Reversal(m, top.tx);
    states', steps' := states + [s'], steps + [Disconnect(newSegment)];
  }

  lemma TipEnds(f: OnlineForest)
    requires f.Valid() && f.blocks != []
    ensures var top := f.blocks[|f.blocks| - 1]; top.tx.previous == top.before.point && top.before.next <= f.forest.arena.next
  {
    hide f.Valid, PastOk, View, Same, Inverse;
    TipFound(f);
    TipUndoes(f.forest.parentHash, f.Mem(), f.blocks[|f.blocks| - 1]);
    SameHeader(Logical(Undone(f.Mem(), Reversal(f.Mem(), f.blocks[|f.blocks| - 1].tx))), f.blocks[|f.blocks| - 1].before);
  }

  lemma NothingExpected(l: Layers, t: Tx)
    requires t.changes == []
    ensures Expected(l, Inverse(t.changes)) && Stale(t) == {}
  {
    assert Inverse(t.changes) == [];
  }

  /** Seal what is dirty. */
  method SealAt(f: OnlineForest, ghost base: Base, ghost states: seq<Sys>, ghost steps: seq<Step>, ghost wal: seq<seq<Tx>>)
    returns (ghost states': seq<Sys>, ghost steps': seq<Step>)
    requires At(base, states, steps, wal, f)
    modifies f`durableLsn, f`generation, f.forest.arena`dirty, f.forest.arena`runs, f.forest.arena`indexes
    ensures At(base, states', steps', wal, f) && Logical(f.Mem()) == old(Logical(f.Mem())) && f.durableLsn == f.lsn
    ensures steps' == steps + [SealRun] && states <= states'
  {
    hide Inv, Next, Init, f.Valid, TxWal, Logical;
    ghost var s';
    ghost var s := states[|steps|];
    s' := SealStep(f, base, 1, s);
    SealDurable(base, s, s');
    Extend(base, 1, states, steps, SealRun, s');
    states', steps' := states + [s'], steps + [SealRun];
  }

  lemma SealDurable(base: Base, s: Sys, s': Sys)
    requires Next(base, 1, s, SealRun, s')
    ensures s'.m.durableLsn == s'.m.lsn
  {
    hide Seal, Writable, FileOk, SealFile;
  }

  /** Pruning touches the log files only. */
  lemma PruneAt(f: OnlineForest, base: Base, states: seq<Sys>, steps: seq<Step>, wal: seq<seq<Tx>>, i: nat) returns (states': seq<Sys>, steps': seq<Step>)
    requires At(base, states, steps, wal, f) && i < |wal|
    requires forall tx | tx in wal[i] :: tx.lsn <= f.durableLsn && tx.point.height < Floor(f.point.height, 1)
    ensures At(base, states', steps', wal[..i] + wal[i + 1..], f)
    ensures |steps'| == |steps| + 1 && steps <= steps' && steps'[|steps|].Prune? && states <= states'
  {
    hide Inv, Init, Next, Floor, f.Valid;
    var s := states[|steps|];
    var bound := Floor(f.point.height, 1);
    var s' := s.(wal := s.wal[..i] + s.wal[i + 1..], floor := if bound > s.floor then bound else s.floor);
    forall r | r in s.wal[i] ensures r.tx.lsn <= s.m.durableLsn && r.tx.point.height < bound {
      var k :| 0 <= k < |s.wal[i]| && s.wal[i][k] == r;
      assert wal[i][k] == r.tx;
    }
    MatchesBase(base, s);
    PruneNext(base, s, i, bound, s');
    StepKeeps(base, 1, s, Prune(i, bound), s');
    Extend(base, 1, states, steps, Prune(i, bound), s');
    states', steps' := states + [s'], steps + [Prune(i, bound)];
  }

  lemma PruneNext(base: Base, s: Sys, i: nat, bound: nat, s': Sys)
    requires s.history != [] && i < |s.wal| && bound == Floor(s.m.point.height, 1)
    requires forall r | r in s.wal[i] :: r.tx.lsn <= s.m.durableLsn && r.tx.point.height < bound
    requires s' == s.(wal := s.wal[..i] + s.wal[i + 1..], floor := if bound > s.floor then bound else s.floor)
    ensures Next(base, 1, s, Prune(i, bound), s')
  {
    hide Floor;
  }

  // ---- a rollback that finds the wrong transaction --------------------------------------

  function Above(x: Point, n: nat): Point { Point(x.height + n, x.hash) }

  predicate ConnectOf(tx: Tx, point: Point) { tx.kind == CONNECT && tx.point == point }

  lemma AppendLast(a: seq<Tx>, b: seq<Tx>, c: seq<Tx>, tx: Tx)
    ensures Appended([], tx, true) == [[tx]] && Appended([a], tx, true) == [a, [tx]] && Appended([a, b], tx, true) == [a, b, [tx]]
    ensures Appended([a], tx, false) == [a + [tx]] && Appended([a, b], tx, false) == [a, b + [tx]]
    ensures Appended([a, b, c], tx, false) == [a, b, c + [tx]]
  {
    assert [a][..0] == [] && [a, b][..1] == [a] && [a, b, c][..2] == [a, b];
  }

  lemma FlatOne(a: seq<Tx>)
    ensures Flat([a]) == a
  {
    assert [a][..0] == [] && [] + a == a;
  }

  lemma FlatTwo(a: seq<Tx>, b: seq<Tx>)
    ensures Flat([a, b]) == a + b
  {
    FlatOne(a);
    assert [a, b][..1] == [a];
  }

  lemma EmptyApplies(f: OnlineForest)
    requires f.forest.arena.next <= NO_NODE && f.forest.numLeaves <= Bits.Pow2(Position.MAX_ROWS)
    ensures f.Applies([], [])
  {
    hide Bits.Pow2;
  }

  lemma DeletionApplies(f: OnlineForest, g: Hash, start: State)
    requires f.forest.arena.next <= NO_NODE && f.forest.numLeaves <= Bits.Pow2(Position.MAX_ROWS)
    requires Same(Logical(f.Mem()).(lsn := start.lsn), start) && HasLeaf(start, g)
    ensures f.Applies([], [g])
  {
    hide Bits.Pow2, View;
    var id :| id in start.view && start.view[id].kind == LEAF && start.view[id].hash == g;
    assert id in f.forest.arena.Nodes() && f.forest.arena.Nodes()[id] == start.view[id];
  }

  ghost predicate HasLeaf(s: State, g: Hash) { exists id :: id in s.view && s.view[id].kind == LEAF && s.view[id].hash == g }

  lemma BlockIs(m: Memory, tx: Tx, m': Memory)
    requires Block(m, tx, m')
    ensures tx.kind == CONNECT && tx.lsn == m.lsn + 1 == m'.lsn && tx.point == m'.point && tx.previous == m.point && tx.beforeNext == m.next
    ensures m'.chain == m.chain + [tx.point.hash] && m'.leaves == tx.afterLeaves && m.leaves == tx.beforeLeaves && m'.durableLsn == m.durableLsn
  {
    hide Images, Rewrites, CleanLayers, CleanChanges, Touches, Read, Overlay;
  }

  /** Connect X and Y, both empty, then take both off, X into a new segment. */
  method FirstConnect(f: OnlineForest, ghost base: Base, ghost states: seq<Sys>, ghost steps: seq<Step>, x: Point)
    returns (ghost states': seq<Sys>, ghost steps': seq<Step>, ghost first: seq<Tx>, ghost undo: Tx)
    requires At(base, states, steps, [], f) && f.blocks == [] && x.height == f.point.height + 1 && f.forest.numLeaves <= Bits.Pow2(Position.MAX_ROWS)
    modifies f`point, f`chain, f`lsn, f`log, f`blocks, f.forest, f.forest.arena, f.forest.index
    ensures At(base, states', steps', [first, [undo]], f) && f.blocks == []
    ensures Same(Logical(f.Mem()).(lsn := old(f.lsn)), old(Logical(f.Mem())))
    ensures |first| == 3 && ConnectOf(first[0], x) && first[0].changes == [] && first[0].previous == old(f.point) && first[0].lsn < undo.lsn
    ensures ConnectOf(first[1], Above(x, 1)) && first[2].kind == DISCONNECT
    ensures undo.kind == DISCONNECT && undo.point == old(f.point) && undo.lsn == f.lsn == old(f.lsn) + 4
  {
    hide At, Block, LastConnect, Flat, Appended, Same, f.Applies, Named, Bits.Pow2, Logical, Expected, Stale, Inverse, Undone;
    ghost var m0 := f.Mem();
    AtNext(base, states, steps, [], f);
    EmptyApplies(f);
    ghost var x1, y1, y2, dead;
    states', steps', x1, dead := ConnectAt(f, base, states, steps, [], [], x, true);
    ghost var m1 := f.Mem();
    BlockIs(m0, x1, m1);
    AppendLast([], [], [], x1);
    AtNext(base, states', steps', [[x1]], f);
    EmptyApplies(f);
    states', steps', y1, dead := ConnectAt(f, base, states', steps', [[x1]], [], Above(x, 1), false);
    BlockIs(m1, y1, f.Mem());
    AppendLast([x1], [], [], y1);
    assert [x1] + [y1] == [x1, y1];
    FlatOne([x1, y1]);
    LastConnectAt([x1, y1], 1);
    NothingExpected(f.forest.arena.Stack(), y1);
    states', steps', y2 := DisconnectAt(f, base, states', steps', [[x1, y1]], false);
    AppendLast([x1, y1], [], [], y2);
    first := [x1, y1] + [y2];
    FlatOne(first);
    LastConnectAt(first, 0);
    LogicalPoint(m0);
    LogicalPoint(m1);
    NothingExpected(f.forest.arena.Stack(), x1);
    states', steps', undo := DisconnectAt(f, base, states', steps', [first], true);
    AppendLast(first, [], [], undo);
  }

  lemma AtNext(base: Base, states: seq<Sys>, steps: seq<Step>, wal: seq<seq<Tx>>, f: OnlineForest)
    requires At(base, states, steps, wal, f)
    ensures f.forest.arena.next < NO_NODE
  {
    hide IsRun, Refinement.Matches, f.Valid, TxWal;
  }

  lemma LogicalPoint(m: Memory)
    ensures Logical(m).point == m.point && Logical(m).lsn == m.lsn && Logical(m).chain == m.chain && Logical(m).leaves == m.leaves && Logical(m).next == m.next
  {}

  /** Connect X again, now deleting a leaf, then two empty blocks into a third segment. */
  method SecondConnect(f: OnlineForest, ghost base: Base, ghost states: seq<Sys>, ghost steps: seq<Step>, ghost first: seq<Tx>, ghost undo: Tx, x: Point, g: Hash,
                       ghost start: State)
    returns (ghost states': seq<Sys>, ghost steps': seq<Step>, ghost again: Tx, ghost z: Tx, ghost w: Tx, ghost gone: NodeId, ghost after: State)
    requires At(base, states, steps, [first, [undo]], f) && f.blocks == [] && x.height == f.point.height + 1 && f.forest.numLeaves <= Bits.Pow2(Position.MAX_ROWS)
    requires Same(Logical(f.Mem()).(lsn := start.lsn), start) && HasLeaf(start, g)
    modifies f`point, f`chain, f`lsn, f`log, f`blocks, f.forest, f.forest.arena, f.forest.index
    ensures At(base, states', steps', [first, [undo, again], [z, w]], f) && f.point == Above(x, 2) && f.lsn == old(f.lsn) + 3
    ensures ConnectOf(again, x) && again.lsn == old(f.lsn) + 1 && again.previous == old(f.point)
    ensures ConnectOf(z, Above(x, 1)) && z.changes == [] && ConnectOf(w, Above(x, 2)) && w.changes == []
    ensures |f.blocks| == 3 && f.blocks[0].tx == again && f.blocks[1].tx == z && f.blocks[2].tx == w && f.blocks[1].before == after
    ensures f.blocks[0].before == old(Logical(f.Mem())) && after.point == x && f.blocks[2].before.point == Above(x, 1)
    ensures Lost(f.blocks[0].before, after, gone)
  {
    hide At, Block, LastConnect, Flat, Appended, Same, f.Applies, Named, Bits.Pow2, Logical, Lost;
    ghost var m0, nodes := f.Mem(), f.forest.arena.Nodes();
    AtNext(base, states, steps, [first, [undo]], f);
    DeletionApplies(f, g, start);
    ghost var dead;
    states', steps', again, dead := ConnectAt(f, base, states, steps, [first, [undo]], [g], x, false);
    ghost var m1 := f.Mem();
    after := Logical(m1);
    BlockIs(m0, again, m1);
    AppendLast(first, [undo], [], again);
    assert [undo] + [again] == [undo, again];
    AtBooks(base, states', steps', [first, [undo, again]], f);
    gone := DeadIsLost(m0, nodes, m1, g, dead, f.forest.arena.freeSet);
    EmptyApplies(f);
    states', steps', z, dead := ConnectAt(f, base, states', steps', [first, [undo, again]], [], Above(x, 1), true);
    ghost var m2 := f.Mem();
    BlockIs(m1, z, m2);
    AppendLast(first, [undo, again], [], z);
    AtNext(base, states', steps', [first, [undo, again], [z]], f);
    EmptyApplies(f);
    states', steps', w, dead := ConnectAt(f, base, states', steps', [first, [undo, again], [z]], [], Above(x, 2), false);
    BlockIs(m2, w, f.Mem());
    AppendLast(first, [undo, again], [z], w);
    assert [z] + [w] == [z, w];
    LogicalPoint(m0);
    LogicalPoint(m1);
    LogicalPoint(m2);
  }

  /** A leaf of the first state that the second has no more. */
  ghost predicate Lost(a: State, b: State, id: NodeId) {
    id in a.view && a.view[id].kind == LEAF && id in b.view && b.view[id].kind == FREE && a.next == b.next
  }

  lemma DeadIsLost(m: Memory, nodes: Nodes, m': Memory, g: Hash, dead: set<NodeId>, free: set<NodeId>) returns (id: NodeId)
    requires Named(nodes, [g], dead) && dead <= free && free == FreeIds(m'.layers, m'.next) && nodes == View(m.layers, m.next) && m.next == m'.next
    ensures Lost(Logical(m), Logical(m'), id)
  {
    hide Read;
    assert g in [g];
    id :| id in dead && nodes[id].hash == g;
    ViewAt(m.layers, m.next, id);
    ViewAt(m'.layers, m'.next, id);
  }

  lemma AtBooks(base: Base, states: seq<Sys>, steps: seq<Step>, wal: seq<seq<Tx>>, f: OnlineForest)
    requires At(base, states, steps, wal, f)
    ensures f.forest.arena.next < NO_NODE && f.forest.arena.freeSet == FreeIds(f.forest.arena.Stack(), f.forest.arena.next)
  {
    hide IsRun, Refinement.Matches, f.Valid, TxWal, FreeIds;
    var b := StaleLeaf.ValidBooks(f);
  }

  /** Seal, prune the second segment, and take the two empty blocks off. */
  method PrunedBack(f: OnlineForest, ghost base: Base, ghost states: seq<Sys>, ghost steps: seq<Step>, ghost first: seq<Tx>, ghost undo: Tx, ghost again: Tx, ghost z: Tx,
                    ghost w: Tx, x: Point) returns (ghost states': seq<Sys>, ghost steps': seq<Step>, ghost third: seq<Tx>)
    requires At(base, states, steps, [first, [undo, again], [z, w]], f) && f.point == Above(x, 2) && |f.blocks| == 3
    requires undo.lsn <= f.lsn && again.lsn <= f.lsn && undo.point.height < x.height && again.point == x
    requires ConnectOf(z, Above(x, 1)) && z.changes == [] && ConnectOf(w, Above(x, 2)) && w.changes == []
    requires f.blocks[1].tx == z && f.blocks[2].tx == w && f.blocks[1].before.point == x && f.blocks[2].before.point == Above(x, 1)
    modifies f`point, f`chain, f`lsn, f`log, f`blocks, f`durableLsn, f`generation, f.forest, f.forest.arena, f.forest.index
    ensures At(base, states', steps', [first, third], f) && f.point == x && f.blocks == old(f.blocks)[..1]
    ensures forall k | 0 <= k < |third| :: !ConnectOf(third[k], x)
    ensures var before := old(f.blocks)[1].before; Same(Logical(f.Mem()).(lsn := before.lsn), before)
  {
    hide At, LastConnect, Flat, Appended, Same, Logical, Expected, Stale, Inverse, Undone;
    states', steps' := SealAt(f, base, states, steps, [first, [undo, again], [z, w]]);
    ghost var wal := [first, [undo, again], [z, w]];
    states', steps' := PruneAt(f, base, states', steps', wal, 1);
    assert wal[..1] + wal[2..] == [first, [z, w]];
    FlatTwo(first, [z, w]);
    LastConnectAt(first + [z, w], |first| + 1);
    ghost var w2, z2;
    NothingExpected(f.forest.arena.Stack(), w);
    states', steps', w2 := DisconnectAt(f, base, states', steps', [first, [z, w]], false);
    AppendLast(first, [z, w], [], w2);
    ghost var later := [z, w] + [w2];
    FlatTwo(first, later);
    LastConnectAt(first + later, |first|);
    NothingExpected(f.forest.arena.Stack(), z);
    states', steps', z2 := DisconnectAt(f, base, states', steps', [first, later], false);
    AppendLast(first, later, [], z2);
    third := later + [z2];
    assert f.blocks == old(f.blocks)[..1];
  }

  lemma Begins(f: OnlineForest, base: Base, g: Hash)
    requires f.Valid() && f.forest.arena.next < NO_NODE && f.forest.Contains(g) && Init(base, Opening(base)) && Refinement.Matches(base, Opening(base), f)
    ensures At(base, [Opening(base)], [], [], f) && HasLeaf(Logical(f.Mem()), g)
  {
    hide Init, f.Valid, Refinement.Matches, View;
    assert TxWal(Opening(base).wal) == [];
  }

  /** The transaction found says the same of the chain, so it is accepted. */
  lemma SameReversal(m: Memory, txs: seq<Tx>, own: Tx, t: Tx)
    requires m.point.height > 0 && |m.chain| >= 2 && ChainValid(m.point, m.chain, Reversal(m, own)) && t.previous == own.previous && t.changes == []
    requires LastConnect(txs, m.point) == Some(t)
    ensures Rollback(m, txs) == Ok(Undone(m, Reversal(m, t)))
  {
    hide LastConnect;
    assert Reversal(m, t).changes == [];
  }

  /** A leaf that a rollback leaves free was not restored. */
  lemma StaysLost(m: Memory, t: Tx, before: State, after: State, gone: NodeId)
    requires t.changes == [] && m.chain != [] && Lost(before, after, gone) && Same(Logical(m).(lsn := after.lsn), after)
    ensures var m' := Undone(m, Reversal(m, t)); Read(m'.layers, gone).kind == FREE && !Same(Logical(m').(lsn := before.lsn), before)
  {
    hide Read;
    var m' := Undone(m, Reversal(m, t));
    assert Reversal(m, t).changes == [];
    assert m'.layers == m.layers;
    ViewAt(m.layers, m.next, gone);
    ViewAt(m'.layers, m'.next, gone);
    assert gone in Logical(m).view;
  }

  lemma WrongFound(f: OnlineForest, base: Base, states: seq<Sys>, steps: seq<Step>, first: seq<Tx>, third: seq<Tx>, again: Tx, x: Point, after: State, gone: NodeId)
    returns (m': Memory)
    requires At(base, states, steps, [first, third], f) && f.point == x && |f.blocks| == 1 && f.blocks[0].tx == again && x.height > 0
    requires |first| == 3 && ConnectOf(first[0], x) && !ConnectOf(first[1], x) && !ConnectOf(first[2], x) && first[0].changes == [] && first[0].lsn < again.lsn
    requires first[0].previous == again.previous && forall k | 0 <= k < |third| :: !ConnectOf(third[k], x)
    requires Same(Logical(f.Mem()).(lsn := after.lsn), after) && Lost(f.blocks[0].before, after, gone)
    ensures IsRun(base, 1, states, steps) && states[|steps|].m == f.Mem() && f.Valid()
    ensures var s := states[|steps|];
            && Rollback(s.m, Txs(Recs(s))) == Ok(m') && s.history != [] && LastSnap(s).marks != [] && Found(s).Some? && Found(s).value != Tip(s).tx
            && gone in Tip(s).before.view && Tip(s).before.view[gone].kind == LEAF && Read(m'.layers, gone).kind == FREE
            && !Same(Logical(m').(lsn := Tip(s).before.lsn), Tip(s).before)
  {
    hide Inv, Same, LastConnect, Flat, Init, Next, Read, Rollback, TxWal, f.Valid, Undone, ChainValid;
    var s := states[|steps|];
    MatchesBase(base, s);
    FlatTxWal(s.wal);
    FlatTwo(first, third);
    LastConnectAt(first + third, 0);
    TipFound(f);
    TipUndoes(f.forest.parentHash, f.Mem(), f.blocks[0]);
    SameReversal(s.m, Txs(Recs(s)), again, first[0]);
    m' := Undone(s.m, Reversal(s.m, first[0]));
    StaysLost(s.m, first[0], f.blocks[0].before, after, gone);
  }

  /** Over any forest just opened, for any of its leaves and any next block: connect the block empty,
      reorganise it away, connect it again deleting the leaf, and let pruning take the segment of the
      second connect. Rolling it back then succeeds with the transaction of the first connect, and
      the leaf stays deleted. */
  method WrongUndo(f: OnlineForest, x: Point, g: Hash, generation: nat, fingerprint: Hash)
    returns (ghost base: Base, ghost states: seq<Sys>, ghost steps: seq<Step>, ghost m': Memory, ghost gone: NodeId)
    requires f.Valid() && Untouched(f) && f.forest.arena.next < NO_NODE && f.forest.numLeaves <= Bits.Pow2(Position.MAX_ROWS)
    requires x.height == f.point.height + 1 && f.forest.Contains(g)
    modifies f`point, f`chain, f`lsn, f`log, f`blocks, f`durableLsn, f`generation, f.forest, f.forest.arena, f.forest.index
    ensures IsRun(base, 1, states, steps) && states[|steps|].m == f.Mem() && f.Valid()
    ensures var s := states[|steps|];
            && Rollback(s.m, Txs(Recs(s))) == Ok(m') && s.history != [] && LastSnap(s).marks != [] && Found(s).Some? && Found(s).value != Tip(s).tx
            && gone in Tip(s).before.view && Tip(s).before.view[gone].kind == LEAF && Read(m'.layers, gone).kind == FREE
            && !Same(Logical(m').(lsn := Tip(s).before.lsn), Tip(s).before)
  {
    hide At, LastConnect, Flat, Same, Logical, f.Valid, Init, Lost, Bits.Pow2, HasLeaf, Inv;
    base := BaseOf(f, generation, fingerprint);
    InitMatches(f, generation, fingerprint);
    states, steps := [Opening(base)], [];
    ghost var start, m0 := Logical(f.Mem()), f.Mem();
    Begins(f, base, g);
    ghost var first, undo := [], Tx(DISCONNECT, 0, x, x, 0, 0, 0, 0, [], [], []);
    states, steps, first, undo := FirstConnect(f, base, states, steps, x);
    LogicalPoint(m0);
    SameHeader(Logical(f.Mem()), start);
    LogicalPoint(f.Mem());
    ghost var again, z, w, after;
    states, steps, again, z, w, gone, after := SecondConnect(f, base, states, steps, first, undo, x, g, start);
    ghost var third;
    states, steps, third := PrunedBack(f, base, states, steps, first, undo, again, z, w, x);
    m' := WrongFound(f, base, states, steps, first, third, again, x, after, gone);
  }

  // ---- a log that recovery refuses ------------------------------------------------------

  /** The transaction of an empty block, and the store after it. */
  function EmptyTx(m: Memory, point: Point): Tx {
    Tx(CONNECT, m.lsn + 1, m.point, point, m.leaves, m.leaves, m.next, m.next, m.roots, m.roots, [])
  }

  function EmptyBlock(m: Memory, point: Point): Memory { m.(point := point, chain := m.chain + [point.hash], lsn := m.lsn + 1) }

  lemma EmptyConnects(base: Base, m: Memory, point: Point)
    requires Sane(base, Logical(m)) && CleanLayers(m.layers) && point.height == |m.chain|
    ensures Connects(base, m, EmptyTx(m, point), EmptyBlock(m, point))
  {
    hide Read, LinksOk, Clean, CleanRun, RootsOk;
  }

  /** Over any base and for any block: an append that fails after writing its record, then the same
      block again. A crash now finds two records with one LSN, and recovery refuses the store. */
  lemma RefusedLog(base: Base, x: Point) returns (states: seq<Sys>, steps: seq<Step>)
    requires BaseOk(base) && CleanLayers(Start(base).layers) && x.height == |base.chain|
    ensures IsRun(base, 1, states, steps) && steps != [] && steps[|steps| - 1].Connect?
    ensures Recover(base, states[|steps|].disk, TxWal(Cut(states[|steps|].wal, 2))).Err?
  {
    hide CleanLayers, Next, Flat, Appended, Logical, Connects, Recover, Cut, Reach, Target, TxWal, Sane, LinksOk, RootsOk;
    var s := Opening(base);
    states, steps := [s], [];
    var tx, m' := EmptyTx(s.m, x), EmptyBlock(s.m, x);
    EmptyConnects(base, s.m, x);
    var snap := OnlineRuns.Pushed(s, tx, m');
    var s1 := Failed(s, tx, snap, true);
    FailNext(base, s, tx, m', s1);
    Extend(base, 1, states, steps, FailConnect(tx, m', true), s1);
    states, steps := states + [s1], [FailConnect(tx, m', true)];
    var s2 := Done(s1, m', tx, snap, false);
    ConnectNext(base, s1, tx, m', s2);
    Extend(base, 1, states, steps, Connect(tx, false), s2);
    states, steps := states + [s2], steps + [Connect(tx, false)];
    TwoRecords(s.wal, Rec(tx, true, snap), Rec(tx, false, snap));
    var recs := Flat(Cut(s2.wal, 2));
    assert Open(recs[0], s2.m.durableLsn) && !Healthy(recs, s2.m.durableLsn);
    CrashSafety(base, 1, states, steps, 2, 2);
  }

  lemma FailNext(base: Base, s: Sys, tx: Tx, m': Memory, s': Sys)
    requires s.history != [] && s.logged && Connects(base, s.m, tx, m') && s' == Failed(s, tx, OnlineRuns.Pushed(s, tx, m'), true)
    ensures Next(base, 1, s, FailConnect(tx, m', true), s')
  {
    hide Connects;
  }

  lemma ConnectNext(base: Base, s: Sys, tx: Tx, m': Memory, s': Sys)
    requires s.history != [] && s.logged && Connects(base, s.m, tx, m') && s' == Done(s, m', tx, OnlineRuns.Pushed(s, tx, m'), false)
    ensures Next(base, 1, s, Connect(tx, false), s')
  {
    hide Connects;
  }

  lemma TwoRecords(wal: seq<seq<Rec>>, a: Rec, b: Rec)
    requires wal == []
    ensures Flat(Cut(Appended(Appended(wal, a, true), b, false), 2)) == [a, b]
  {
    hide Flat;
    var one := Appended(wal, a, true);
    assert one == [[a]];
    assert one[..0] == [] && one[0] + [b] == [a, b];
    var two := Appended(one, b, false);
    assert two == [[a, b]] && two[0][..2] == two[0];
    FlatTwoRecs([a, b]);
  }

  lemma FlatTwoRecs(recs: seq<Rec>)
    requires |recs| == 2
    ensures Flat(Cut([recs], 2)) == recs
  {
    hide Flat;
    var cut := Cut([recs], 2);
    assert recs[..2] == recs && [recs][..0] == [];
    assert cut == [] + [recs];
    FlatSnoc([], recs);
    FlatNone();
  }

  lemma FlatNone()
    ensures Flat<Rec>([]) == []
  {}

  // ---- acknowledged blocks that recovery drops ------------------------------------------

  /** Over any base and for any block: a write that fails after n bytes, then the same block again,
      acknowledged. With fewer than 8 bytes recovery refuses the store; from 8 to 15 bytes it succeeds
      without the block. */
  lemma PartLoses(form: Wal.Form, base: Base, x: Point, n: nat) returns (states: seq<Sys>, steps: seq<Step>, files: seq<seq<WalParts.Item>>)
    requires Wal.FormOk(form) && BaseOk(base) && CleanLayers(Start(base).layers) && x.height == |base.chain| && 0 < n < 16
    requires var tx := EmptyTx(Start(base), x); Wal.Fits(tx) && 2 * |Wal.SerializeWal(form, tx)| < WalParts.FILE_LIMIT
    ensures IsRun(base, 1, states, steps) && |steps| == 1 && steps[0].Connect? && WalParts.AllWholes(files) == TxWal(states[1].wal)
    ensures files == [[WalParts.Part(steps[0].tx, n), WalParts.Whole(steps[0].tx)]]
    ensures var r := Wal.RecoverBytes(form, base, states[1].disk, WalParts.FilesBytes(form, files));
            if n < 8 then r.Err? else r == Ok(Start(base)) && states[1].m.lsn == base.lsn + 1
  {
    hide CleanLayers, Next, Flat, Appended, Logical, Connects, Sane, LinksOk, RootsOk, Wal.SerializeWal, Wal.Fits, Wal.FormOk, Wal.Scan, Wal.ParseWal;
    var s := Opening(base);
    var tx, m' := EmptyTx(s.m, x), EmptyBlock(s.m, x);
    EmptyConnects(base, s.m, x);
    var s1 := Done(s, m', tx, OnlineRuns.Pushed(s, tx, m'), false);
    ConnectNext(base, s, tx, m', s1);
    Extend(base, 1, [s], [], Connect(tx, false), s1);
    states, steps := [s] + [s1], [] + [Connect(tx, false)];
    files := [[WalParts.Part(tx, n), WalParts.Whole(tx)]];
    OneRecord(s.wal, Rec(tx, false, OnlineRuns.Pushed(s, tx, m')));
    PartThenWhole(form, tx, n);
    NothingRead(base);
  }

  /** Without runs and records, recovery gives the base. */
  lemma NothingRead(base: Base)
    ensures Recover(base, map[], [[]]) == Ok(Start(base))
  {
    hide SortedFiles, LatestSnapshot, LoadAll, Redo;
    SortedNone(map[]);
    NoRuns(base);
    FlatOne([]);
  }

  lemma OneRecord(wal: seq<seq<Rec>>, r: Rec)
    requires wal == []
    ensures TxWal(Appended(wal, r, false)) == [[r.tx]]
  {
    TxWalAppended(wal, r, false);
    assert TxWal(wal) == [];
  }

  lemma PartThenWhole(form: Wal.Form, tx: Tx, n: nat)
    requires Wal.FormOk(form) && Wal.Fits(tx) && 0 < n < 16 && 2 * |Wal.SerializeWal(form, tx)| < WalParts.FILE_LIMIT
    ensures var files := [[WalParts.Part(tx, n), WalParts.Whole(tx)]];
            && WalParts.AllWholes(files) == [[tx]]
            && if n < 8 then Wal.ScanAll(form, WalParts.FilesBytes(form, files)).Err? else Wal.ScanAll(form, WalParts.FilesBytes(form, files)) == Ok([[]])
  {
    hide Wal.SerializeWal, Wal.Fits, Wal.FormOk, Wal.Scan, Wal.ParseWal;
    var part, whole := WalParts.Part(tx, n), WalParts.Whole(tx);
    var items := [part, whole];
    var files := [items];
    WalParts.ItemLength(form, whole);
    WalParts.ItemLength(form, part);
    assert items[1..] == [whole] && [whole][1..] == [];
    assert WalParts.ItemsBytes(form, [whole]) == WalParts.ItemBytes(form, whole);
    assert WalParts.Wholes([whole]) == [tx] && WalParts.Wholes(items) == [tx];
    assert WalParts.AllWholes(files) == [[tx]];
    assert WalParts.FileOk(form, items);
    WalParts.ScanFiles(form, files);
    assert WalParts.NoneRefused(form, files) <==> n >= 8 by {
      assert files[0] == items;
      assert WalParts.VerdictOf(form, items) == WalParts.Judged(form, tx, n, WalParts.ItemsBytes(form, [whole]));
    }
    assert WalParts.AllBefore(files) == [[]];
  }
}
