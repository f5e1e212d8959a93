/** Runs in which every block is one that ModifyBlock could have connected and every point stands for
    one block: then trees, leaf count and arena size depend on the point alone, and it can be said when
    a rollback that finds an older connect of the tip brings the trees back. */
module GenuineRuns {
  import opened Common
  import opened Records
  import opened Layering
  import opened Trees
  import opened ArenaTrees
  import opened ForestState
  import opened Accumulator
  import opened Transactions
  import opened DeltaStore
  import opened Durability
  import opened LogRecords
  import opened LogSteps
  import opened OnlineRuns
  import opened UndoRuns
  import opened Layouts
  import opened SameBlocks
  import Blocks
  import Online
  import Packed
  import Bits
  import CleanRecords
  import Position

  // ---- trees without ids ----------------------------------------------------------------

  function PlainPrune(t: Plain, dead: set<Hash>): Option<Plain> {
    match t
    case PLeaf(h) => if h in dead then None else Some(t)
    case PNode(l, r) =>
      var l', r' := PlainPrune(l, dead), PlainPrune(r, dead);
      if l'.None? then r' else if r'.None? then l' else Some(PNode(l'.value, r'.value))
  }

  function PlainPruneRows(trees: seq<Option<Plain>>, dead: set<Hash>): (r: seq<Option<Plain>>)
    ensures |r| == |trees|
  { seq(|trees|, i requires 0 <= i < |trees| => if trees[i].Some? then PlainPrune(trees[i].value, dead) else None) }

  function PlainCount(t: Plain): nat { match t case PLeaf(_) => 1 case PNode(l, r) => 1 + PlainCount(l) + PlainCount(r) }

  function PlainNodes(trees: seq<Option<Plain>>): nat {
    if trees == [] then 0 else PlainNodes(trees[..|trees| - 1]) + if trees[|trees| - 1].Some? then PlainCount(trees[|trees| - 1].value) else 0
  }

  lemma {:induction false} StripCount(t: Tree)
    requires Proper(t)
    ensures |Ids(t)| == PlainCount(Strip(t))
    decreases t
  {
    if t.Node? {
      StripCount(t.left);
      StripCount(t.right);
      assert |{t.id} + Ids(t.left) + Ids(t.right)| == 1 + |Ids(t.left)| + |Ids(t.right)|;
    }
  }

  lemma {:induction false} StripNodes(rows: seq<Row>)
    requires Apart(rows) && forall i | 0 <= i < |rows| && rows[i].Some? :: Proper(rows[i].value)
    ensures |AllIds(rows)| == PlainNodes(StripRows(rows))
    decreases |rows|
  {
    hide Apart, AllIds, Proper, Ids, Strip, PlainCount;
    if rows != [] {
      var init, last := rows[..|rows| - 1], rows[|rows| - 1];
      assert init + [last] == rows;
      RowsSnoc(init, last);
      StripNodes(init);
      assert StripRows(rows)[..|rows| - 1] == StripRows(init);
      if last.Some? { StripCount(last.value); }
    } else {
      NoRowIds();
    }
  }

  /** No leaf hash comes twice, and none is the hash of a branch. */
  ghost predicate PlainDistinct(parentHash: Combine, trees: seq<Option<Plain>>) {
    var hashes := Order(trees, |trees|);
    && (forall i, j | 0 <= i < j < |hashes| :: hashes[i] != hashes[j])
    && (forall i, a, b | 0 <= i < |hashes| :: hashes[i] != parentHash(a, b))
  }

  lemma {:induction false} TreeItem(nodes: Nodes, t: Tree, parent: NodeId, x: NodeId) returns (k: nat)
    requires Linked(nodes, t, parent) && x in Ids(t) && x in nodes && nodes[x].kind == LEAF
    ensures k < |Items(t)| && Items(t)[k] == Item(x, nodes[x].hash)
    decreases t
  {
    if t.Leaf? {
      k := 0;
    } else if x in Ids(t.left) {
      k := TreeItem(nodes, t.left, t.id, x);
    } else {
      k := TreeItem(nodes, t.right, t.id, x);
      k := k + |Items(t.left)|;
    }
  }

  lemma {:induction false} RowItem(nodes: Nodes, rows: seq<Row>, n: nat, row: nat, x: NodeId) returns (k: nat)
    requires row < n <= |rows| && rows[row].Some? && Linked(nodes, rows[row].value, NO_NODE) && x in Ids(rows[row].value) && x in nodes && nodes[x].kind == LEAF
    ensures k < |AllItems(rows, n)| && AllItems(rows, n)[k] == Item(x, nodes[x].hash)
    decreases n
  {
    hide Linked, Items, Ids;
    if row == n - 1 {
      k := TreeItem(nodes, rows[row].value, NO_NODE, x);
    } else {
      k := RowItem(nodes, rows, n - 1, row, x);
      k := k + |RowItems(rows[n - 1])|;
    }
  }

  lemma LeafItem(parentHash: Combine, nodes: Nodes, rows: seq<Row>, x: NodeId) returns (k: nat)
    requires Represents(parentHash, nodes, rows) && x in nodes && nodes[x].kind == LEAF
    ensures k < |AllItems(rows, |rows|)| && AllItems(rows, |rows|)[k] == Item(x, nodes[x].hash) && Order(StripRows(rows), |rows|) == HashesOf(AllItems(rows, |rows|))
  {
    hide Linked, Hashed, Proper, Apart, Items, AllItems, Order, Strip;
    var row, t := RowOf(parentHash, nodes, rows, x);
    assert Stands(parentHash, nodes, rows[row].value);
    k := RowItem(nodes, rows, |rows|, row, x);
    StripOrder(rows, |rows|);
  }

  /** Whatever the layout, distinct leaf hashes name distinct leaves. */
  lemma DistinctLaidOut(parentHash: Combine, nodes: Nodes, rows: seq<Row>)
    requires Represents(parentHash, nodes, rows) && PlainDistinct(parentHash, StripRows(rows))
    ensures DistinctLeaves(parentHash, nodes)
  {
    hide Represents, AllItems, Order;
    forall x, y | x in nodes && y in nodes && nodes[x].kind == LEAF && nodes[y].kind == LEAF && nodes[x].hash == nodes[y].hash ensures x == y {
      var i := LeafItem(parentHash, nodes, rows, x);
      var j := LeafItem(parentHash, nodes, rows, y);
      var hashes := Order(StripRows(rows), |rows|);
      assert hashes[i] == hashes[j];
    }
    forall x, a, b | x in nodes && nodes[x].kind == LEAF ensures nodes[x].hash != parentHash(a, b) {
      var i := LeafItem(parentHash, nodes, rows, x);
      assert Order(StripRows(rows), |rows|)[i] == nodes[x].hash;
    }
  }

  // ---- one forest, one list of rows -----------------------------------------------------

  lemma {:induction false} TreeUnique(nodes: Nodes, t: Tree, u: Tree, parent: NodeId)
    requires Linked(nodes, t, parent) && Linked(nodes, u, parent) && t.id == u.id
    ensures t == u
    decreases t
  {
    if t.Node? {
      TreeUnique(nodes, t.left, u.left, t.id);
      TreeUnique(nodes, t.right, u.right, t.id);
    }
  }

  lemma HoldsUnique(parentHash: Combine, s: State, rows: seq<Row>, rows': seq<Row>)
    requires Blocks.Holds(parentHash, s, rows) && Blocks.Holds(parentHash, s, rows')
    ensures rows == rows'
  {
    hide Linked, Hashed, Proper, Apart, WellFormed;
    forall k | 0 <= k < |rows| ensures rows[k] == rows'[k] {
      assert s.roots[k] == RootId(rows[k]) == RootId(rows'[k]);
      if rows[k].Some? { assert Stands(parentHash, s.view, rows[k].value); }
      if rows'[k].Some? { assert Stands(parentHash, s.view, rows'[k].value); }
      if rows[k].Some? && rows'[k].Some? { TreeUnique(s.view, rows[k].value, rows'[k].value, NO_NODE); }
    }
  }

  lemma HoldsSame(parentHash: Combine, a: State, b: State, rows: seq<Row>)
    requires Same(a.(lsn := b.lsn), b) && Blocks.Holds(parentHash, b, rows)
    ensures Blocks.Holds(parentHash, a, rows)
  {
    hide Represents, WellFormed;
    Blocks.RestoredForest(parentHash, a, b, rows);
  }

  // ---- what a block does to the trees ---------------------------------------------------

  lemma {:induction false} StripPrune(nodes: Nodes, t: Tree, parent: NodeId, dead: set<NodeId>, hashes: set<Hash>)
    requires Linked(nodes, t, parent) && forall x | x in nodes && nodes[x].kind == LEAF :: x in dead <==> nodes[x].hash in hashes
    ensures StripRow(ArenaTrees.Prune(t, dead)) == PlainPrune(Strip(t), hashes)
    decreases t
  {
    if t.Node? {
      StripPrune(nodes, t.left, t.id, dead, hashes);
      StripPrune(nodes, t.right, t.id, dead, hashes);
    }
  }

  function HashSet(hashes: seq<Hash>): set<Hash> { set h | h in hashes }

  /** Pruning the leaves named by distinct hashes depends on the hashes alone. */
  lemma PruneByHash(parentHash: Combine, nodes: Nodes, rows: seq<Row>, deletions: seq<Hash>, dead: set<NodeId>)
    requires Represents(parentHash, nodes, rows) && DistinctLeaves(parentHash, nodes) && Packed.Named(nodes, deletions, dead)
    ensures StripRows(PruneRows(rows, dead)) == PlainPruneRows(StripRows(rows), HashSet(deletions))
  {
    hide Linked, Hashed, Proper, Apart, ArenaTrees.Prune, Strip, PlainPrune;
    forall x | x in nodes && nodes[x].kind == LEAF ensures x in dead <==> nodes[x].hash in HashSet(deletions) {
      if nodes[x].hash in deletions {
        var id :| id in dead && nodes[id].hash == nodes[x].hash;
        OneLeaf(parentHash, nodes, x, id);
      }
    }
    forall k | 0 <= k < |rows| && rows[k].Some? ensures StripRow(ArenaTrees.Prune(rows[k].value, dead)) == PlainPrune(Strip(rows[k].value), HashSet(deletions)) {
      assert Stands(parentHash, nodes, rows[k].value);
      StripPrune(nodes, rows[k].value, NO_NODE, dead, HashSet(deletions));
    }
  }

  /** The block that a point stands for. */
  datatype BlockInfo = BlockInfo(previous: Point, additions: seq<Hash>, deletions: seq<Hash>)

  /** What the blocks up to a point leave: the trees, the leaf count, and the size of the arena. */
  datatype Fate = Fate(trees: seq<Option<Plain>>, leaves: nat, next: nat)

  function Later(f: Fate, info: BlockInfo): Fate {
    if |f.trees| != ROWS || f.leaves + |info.additions| > Bits.Pow2(Position.MAX_ROWS) then f
    else
      var trees := CarryAll(PlainPruneRows(f.trees, HashSet(info.deletions)), f.leaves, info.additions);
      Fate(trees, f.leaves + |info.additions|, if PlainNodes(trees) <= f.next then f.next else PlainNodes(trees))
  }

  function FateOf(start: Fate, origin: Point, blocks: Point -> BlockInfo, p: Point): Fate
    decreases p.height
  {
    if p == origin || blocks(p).previous.height >= p.height then start else Later(FateOf(start, origin, blocks, blocks(p).previous), blocks(p))
  }

  ghost predicate Fated(parentHash: Combine, f: Fate, s: State) { StandsFor(parentHash, s, f.trees) && s.leaves == f.leaves && s.next == f.next }

  /** The block is one that ModifyBlock could have connected, with the contents its point stands for and
      distinct leaf hashes: the arena grows just as far as the live nodes need. */
  ghost predicate GenuineBy(parentHash: Combine, blocks: Point -> BlockInfo, m: Memory, tx: Tx, m': Memory, rows: seq<Row>, rows': seq<Row>, dead: set<NodeId>) {
    var info := blocks(tx.point);
    && Blocks.Block(m, tx, m') && Blocks.Holds(parentHash, Logical(m), rows) && Blocks.Holds(parentHash, Logical(m'), rows')
    && PlainDistinct(parentHash, StripRows(rows)) && PlainDistinct(parentHash, StripRows(rows')) && tx.previous == info.previous
    && Online.Applied(rows', m'.leaves, Logical(m).view, rows, m.leaves, info.additions, info.deletions, dead)
    && m'.next == if |LiveIds(Logical(m').view)| <= m.next then m.next else |LiveIds(Logical(m').view)|
  }

  ghost predicate Genuine(parentHash: Combine, blocks: Point -> BlockInfo, m: Memory, tx: Tx, m': Memory) {
    exists rows, rows', dead :: GenuineBy(parentHash, blocks, m, tx, m', rows, rows', dead)
  }

  lemma LiveNodes(parentHash: Combine, nodes: Nodes, rows: seq<Row>)
    requires Represents(parentHash, nodes, rows)
    ensures |LiveIds(nodes)| == PlainNodes(StripRows(rows))
  {
    hide Linked, Hashed, Proper, Apart, Strip;
    forall k | 0 <= k < |rows| && rows[k].Some? ensures Proper(rows[k].value) { assert Stands(parentHash, nodes, rows[k].value); }
    StripNodes(rows);
  }

  /** A genuine block leads from the fate of its predecessor to the fate of its point. */
  lemma GenuineFated(parentHash: Combine, start: Fate, origin: Point, blocks: Point -> BlockInfo, m: Memory, tx: Tx, m': Memory)
    requires Genuine(parentHash, blocks, m, tx, m') && Fated(parentHash, FateOf(start, origin, blocks, m.point), Logical(m)) && tx.point != origin && InShape(Logical(m))
    ensures Fated(parentHash, FateOf(start, origin, blocks, tx.point), Logical(m')) && m'.point == tx.point && m.point == tx.previous
  {
    hide Blocks.Block, Blocks.Holds, PlainDistinct, PruneRows, StripRows, CarryAll, Bits.Pow2, PlainPruneRows, PlainNodes, LiveIds, View, FateOf, Packed.Named, InShape;
    var rows, rows', dead :| GenuineBy(parentHash, blocks, m, tx, m', rows, rows', dead);
    var f := FateOf(start, origin, blocks, m.point);
    var rows0 :| Blocks.Holds(parentHash, Logical(m), rows0) && StripRows(rows0) == f.trees;
    HoldsUnique(parentHash, Logical(m), rows, rows0);
    HoldsRepresents(parentHash, Logical(m), rows);
    HoldsRepresents(parentHash, Logical(m'), rows');
    DistinctLaidOut(parentHash, Logical(m).view, rows);
    PruneByHash(parentHash, Logical(m).view, rows, blocks(tx.point).deletions, dead);
    LiveNodes(parentHash, Logical(m').view, rows');
    BlockHeader(m, tx, m');
    BlockHeights(m, tx, m');
    FateStep(start, origin, blocks, tx.point);
  }

  lemma BlockHeights(m: Memory, tx: Tx, m': Memory)
    requires Blocks.Block(m, tx, m') && InShape(Logical(m))
    ensures tx.point.height == m.point.height + 1
  {
    hide Images, Rewrites, Blocks.Touches, Read, Overlay, View;
  }

  lemma FateStep(start: Fate, origin: Point, blocks: Point -> BlockInfo, p: Point)
    requires p != origin && blocks(p).previous.height < p.height
    ensures FateOf(start, origin, blocks, p) == Later(FateOf(start, origin, blocks, blocks(p).previous), blocks(p))
  {
    hide Later;
  }

  lemma HoldsRepresents(parentHash: Combine, s: State, rows: seq<Row>)
    requires Blocks.Holds(parentHash, s, rows)
    ensures Represents(parentHash, s.view, rows) && |rows| == ROWS && |StripRows(rows)| == ROWS
  {
    hide Represents, WellFormed;
  }

  // ---- runs of genuine blocks -----------------------------------------------------------

  predicate Connecting(step: Step) { step.Connect? || step.ConnectUnlogged? || step.FailConnect? }

  /** The store that a connecting step led, or would have led, to. */
  function Outcome(step: Step, s': Sys): Memory { if step.FailConnect? then step.after else s'.m }

  ghost predicate GenuineRun(parentHash: Combine, base: Base, rows: seq<Row>, blocks: Point -> BlockInfo, states: seq<Sys>, steps: seq<Step>) {
    && Injective(parentHash) && Blocks.Holds(parentHash, Logical(Start(base)), rows) && |states| == |steps| + 1
    && forall j | 0 <= j < |steps| && Connecting(steps[j]) :: Genuine(parentHash, blocks, states[j].m, steps[j].tx, Outcome(steps[j], states[j + 1]))
  }

  /** What the base is. */
  function Origin(base: Base, rows: seq<Row>): Fate { Fate(StripRows(rows), base.leaves, |base.records|) }

  function At(base: Base, rows: seq<Row>, blocks: Point -> BlockInfo, p: Point): Fate { FateOf(Origin(base, rows), base.point, blocks, p) }

  lemma FatedSame(parentHash: Combine, f: Fate, a: State, b: State)
    requires Same(a.(lsn := b.lsn), b) && Fated(parentHash, f, b)
    ensures Fated(parentHash, f, a)
  {
    hide Blocks.Holds;
    var rows :| Blocks.Holds(parentHash, b, rows) && StripRows(rows) == f.trees;
    HoldsSame(parentHash, a, b, rows);
  }

  lemma PlainSame(a: State, b: State)
    requires Same(a, b)
    ensures Same(a.(lsn := b.lsn), b) && Same(b.(lsn := a.lsn), a) && a.point == b.point
  {
    assert a.(lsn := b.lsn) == a;
    SimilarTrans(a.view, b.view, a.view) by { SimilarTrans(a.view, b.view, b.view) by { assert Similar(b.view, b.view); } }
  }

  /** The running store has the fate of its point. */
  lemma StoreFated(parentHash: Combine, base: Base, rows: seq<Row>, blocks: Point -> BlockInfo, s: Sys)
    requires Inv(base, s) && Fated(parentHash, At(base, rows, blocks, LastSnap(s).state.point), LastSnap(s).state)
    ensures Fated(parentHash, At(base, rows, blocks, s.m.point), Logical(s.m)) && InShape(Logical(s.m)) && base.point.height < |s.m.chain|
  {
    hide Inv, Fated, Same, FateOf, Marked, Sane, BaseOk;
    LastMarked(base, s);
    PlainSame(LastSnap(s).state, Logical(s.m));
    FatedSame(parentHash, At(base, rows, blocks, s.m.point), Logical(s.m), LastSnap(s).state);
    SaneShape(base, Logical(s.m));
    AboveBase(base, s);
  }

  lemma AboveBase(base: Base, s: Sys)
    requires Inv(base, s)
    ensures base.point.height < |s.m.chain|
  {
    hide Stored, Behind, DurableOk, LogHeld, CleanRecords.CleanLayers, View, LinksOk, RootsOk, Same;
  }

  lemma StartFated(parentHash: Combine, base: Base, rows: seq<Row>, blocks: Point -> BlockInfo, s: Sys, snap: Snap)
    requires Init(base, s) && Known(s, snap) && Blocks.Holds(parentHash, Logical(Start(base)), rows)
    ensures Fated(parentHash, At(base, rows, blocks, snap.state.point), snap.state)
  {
    hide BaseOk, CleanRecords.CleanLayers, Blocks.Holds, View;
    assert Recs(s) == [];
    assert snap.state == Logical(Start(base));
  }

  /** In a run of genuine blocks every known state has the fate of its point. */
  lemma {:induction false} KnownFated(parentHash: Combine, base: Base, depth: nat, rows: seq<Row>, blocks: Point -> BlockInfo, states: seq<Sys>, steps: seq<Step>, i: nat, snap: Snap)
    requires IsRun(base, depth, states, steps) && GenuineRun(parentHash, base, rows, blocks, states, steps) && i < |states| && Known(states[i], snap)
    ensures Fated(parentHash, At(base, rows, blocks, snap.state.point), snap.state)
    decreases i
  {
    hide Next, Known, UndoRuns.Fresh, Fated, FateOf, Genuine, Blocks.Holds, Init, Injective;
    if i == 0 {
      StartFated(parentHash, base, rows, blocks, states[0], snap);
    } else {
      var s, s', step := states[i - 1], states[i], steps[i - 1];
      assert Next(base, depth, s, step, s');
      NextStarts(base, depth, s, step, s');
      KnownStep(base, depth, s, step, s', snap);
      if Known(s, snap) {
        KnownFated(parentHash, base, depth, rows, blocks, states, steps, i - 1, snap);
      } else {
        KnownFated(parentHash, base, depth, rows, blocks, states, steps, i - 1, LastSnap(s));
        RunKeeps(base, depth, states, steps, i - 1);
        if Connecting(step) {
          FreshConnect(parentHash, base, depth, rows, blocks, s, step, s', snap);
        } else {
          var j := PoppedFrom(base, depth, states, steps, i - 1, snap);
          KnownLast(states[j]) by { RunKeeps(base, depth, states, steps, j); InvHistory(base, states[j]); }
          RunKeeps(base, depth, states, steps, j);
          InvHistory(base, states[j]);
          KnownFated(parentHash, base, depth, rows, blocks, states, steps, j, LastSnap(states[j]));
          StoreFated(parentHash, base, rows, blocks, states[j]);
          SamePoint(snap.state, Logical(states[j].m));
          FatedSame(parentHash, At(base, rows, blocks, states[j].m.point), snap.state, Logical(states[j].m));
        }
      }
    }
  }

  lemma InvHistory(base: Base, s: Sys)
    requires Inv(base, s)
    ensures s.history != []
  {
    hide OnDisk, DurableOk, LogHeld, Same, Sane;
  }

  lemma SamePoint(a: State, b: State)
    requires Same(a.(lsn := b.lsn), b)
    ensures a.point == b.point
  {}

  lemma FreshConnect(parentHash: Combine, base: Base, depth: nat, rows: seq<Row>, blocks: Point -> BlockInfo, s: Sys, step: Step, s': Sys, snap: Snap)
    requires Inv(base, s) && Next(base, depth, s, step, s') && Connecting(step) && UndoRuns.Fresh(s, step, s', snap)
    requires Genuine(parentHash, blocks, s.m, step.tx, Outcome(step, s')) && Fated(parentHash, At(base, rows, blocks, LastSnap(s).state.point), LastSnap(s).state)
    ensures Fated(parentHash, At(base, rows, blocks, snap.state.point), snap.state)
  {
    hide Inv, Fated, FateOf, Connects, Next, View, GenuineBy, InShape;
    StoreFated(parentHash, base, rows, blocks, s);
    GenuineHeight(parentHash, blocks, s.m, step.tx, Outcome(step, s'));
    GenuineFated(parentHash, Origin(base, rows), base.point, blocks, s.m, step.tx, Outcome(step, s'));
  }

  lemma GenuineHeight(parentHash: Combine, blocks: Point -> BlockInfo, m: Memory, tx: Tx, m': Memory)
    requires Genuine(parentHash, blocks, m, tx, m') && InShape(Logical(m))
    ensures tx.point.height == |m.chain|
  {
    hide Blocks.Holds, PlainDistinct, Online.Applied, View, LiveIds, Blocks.Block;
    var rows, rows', dead :| GenuineBy(parentHash, blocks, m, tx, m', rows, rows', dead);
    BlockHeights(m, tx, m');
  }

  /** The state after a rollback was the store's before the block it took off. */
  lemma PoppedFrom(base: Base, depth: nat, states: seq<Sys>, steps: seq<Step>, i: nat, snap: Snap) returns (j: nat)
    requires IsRun(base, depth, states, steps) && i < |steps| && states[i].history != [] && Inv(base, states[i])
    requires UndoRuns.Fresh(states[i], steps[i], states[i + 1], snap) && !Connecting(steps[i])
    ensures j < i && Same(snap.state.(lsn := Logical(states[j].m).lsn), Logical(states[j].m))
  {
    hide Inv, Init, Logical, Rollback, LastConnect, Flat, StepTo, Shifts, Same, Real, Known, RealSnap;
    var s, step, s' := states[i], steps[i], states[i + 1];
    assert Next(base, depth, s, step, s');
    var m' := if step.Disconnect? then s'.m else step.after;
    DisconnectSteps(base, s, m');
    FoundSome(s, m');
    StepBack(base, LastSnap(s), Undoing(s), snap);
    var mark := LastSnap(s).marks[|LastSnap(s).marks| - 1];
    KnownLast(s);
    HistoryIsReal(base, depth, states, steps, i, LastSnap(s));
    RealMark(states, steps, i, LastSnap(s), |LastSnap(s).marks| - 1);
    j :| 0 <= j < i && ByStep(steps[j], mark.tx) && mark.before == Logical(states[j].m);
  }

  lemma RealMark(states: seq<Sys>, steps: seq<Step>, i: nat, snap: Snap, k: nat)
    requires i <= |steps| && |states| == |steps| + 1 && RealSnap(states, steps, i, snap) && k < |snap.marks|
    ensures exists j :: 0 <= j < i && ByStep(steps[j], snap.marks[k].tx) && snap.marks[k].before == Logical(states[j].m)
  {
    hide Seen, Logical, ByStep;
    assert Real(states, steps, i, snap.marks[k]);
  }

  lemma StepBack(base: Base, a: Snap, tx: Tx, b: Snap)
    requires StepTo(base, a, tx, b) && tx.kind == DISCONNECT
    ensures a.marks != [] && var before := a.marks[|a.marks| - 1].before; Same(b.state.(lsn := before.lsn), before)
  {
    hide Links, Sane, CleanChanges;
    var before := a.marks[|a.marks| - 1].before;
    SimilarTrans(before.view, b.state.view, b.state.view) by { assert Similar(b.state.view, b.state.view); }
  }

  // ---- a tip connected twice ------------------------------------------------------------

  lemma RecStep(base: Base, depth: nat, s: Sys, step: Step, s': Sys, r: Rec)
    requires Next(base, depth, s, step, s') && r in Recs(s') && r.tx.kind == CONNECT
    ensures ByStep(step, r.tx) || exists r0 :: r0 in Recs(s) && r0.tx == r.tx
  {
    hide Connects, Disconnects, Logical, Flat, LastConnect, Writable, FileOk, SealFile, SnapshotFile, Recover, Cut, Adopted, PastStates, PastLog, Appended, CutAllowed;
    match step
    case Connect(tx, newSegment) => FlatAppended(s.wal, Rec(tx, false, Pushed(s, tx, s'.m)), newSegment);
    case FailConnect(tx, m', newSegment) => FlatAppended(s.wal, Rec(tx, true, Pushed(s, tx, m')), newSegment);
    case Disconnect(newSegment) =>
      FoundSome(s, s'.m);
      FlatAppended(s.wal, Rec(Undoing(s), false, PoppedTo(s, s'.m)), newSegment);
    case FailDisconnect(m', newSegment) =>
      FoundSome(s, m');
      FlatAppended(s.wal, Rec(Undoing(s), true, PoppedTo(s, m')), newSegment);
    case Prune(i, _) => var before, after := FlatRemoved(s.wal, i);
    case Crash(keep, _) => RecCrash(s, keep, s', r);
    case _ =>
  }

  lemma RecCrash(s: Sys, keep: nat, s': Sys, r: Rec)
    requires s'.wal == Adopted(Cut(s.wal, keep), s.m.durableLsn) && r in Recs(s')
    ensures exists r0 :: r0 in Recs(s) && r0.tx == r.tx
  {
    hide Cut, Flat, Adopted;
    var kept := Flat(Cut(s.wal, keep));
    FlatCut(s.wal, keep);
    FlatAdopted(Cut(s.wal, keep), s.m.durableLsn);
    var k :| 0 <= k < |kept| && Recs(s')[k] == r;
    assert kept[k] == Recs(s)[k];
    assert Recs(s)[k] in Recs(s) && Recs(s)[k].tx == r.tx;
  }

  /** Every connect in the log was made by a step of the run. */
  lemma {:induction false} ConnectReal(base: Base, depth: nat, states: seq<Sys>, steps: seq<Step>, i: nat, r: Rec) returns (j: nat)
    requires IsRun(base, depth, states, steps) && i < |states| && r in Recs(states[i]) && r.tx.kind == CONNECT
    ensures j < i && ByStep(steps[j], r.tx)
    decreases i
  {
    hide Next, ByStep, Recs;
    if i == 0 {
      NoRecords(base, states[0]);
    } else {
      RecStep(base, depth, states[i - 1], steps[i - 1], states[i], r);
      if ByStep(steps[i - 1], r.tx) {
        j := i - 1;
      } else {
        var r0 :| r0 in Recs(states[i - 1]) && r0.tx == r.tx;
        j := ConnectReal(base, depth, states, steps, i - 1, r0);
      }
    }
  }

  lemma NoRecords(base: Base, s: Sys)
    requires Init(base, s)
    ensures Recs(s) == []
  {
    hide BaseOk, CleanRecords.CleanLayers, Logical;
  }

  /** The step that made a connect: the store before and after it, with their trees. */
  lemma ConnectFates(parentHash: Combine, base: Base, depth: nat, rows: seq<Row>, blocks: Point -> BlockInfo, states: seq<Sys>, steps: seq<Step>, j: nat, tx: Tx)
    returns (m1: Memory, m2: Memory, rows1: seq<Row>, rows2: seq<Row>)
    requires IsRun(base, depth, states, steps) && GenuineRun(parentHash, base, rows, blocks, states, steps) && j < |steps| && ByStep(steps[j], tx)
    ensures m1 == states[j].m && Blocks.Block(m1, tx, m2) && Blocks.Holds(parentHash, Logical(m1), rows1) && Blocks.Holds(parentHash, Logical(m2), rows2)
    ensures StripRows(rows1) == At(base, rows, blocks, tx.previous).trees && StripRows(rows2) == At(base, rows, blocks, tx.point).trees
    ensures PlainDistinct(parentHash, StripRows(rows2)) && m2.next == At(base, rows, blocks, tx.point).next && tx.previous == blocks(tx.point).previous
  {
    hide Next, Init, Inv, Blocks.Block, Blocks.Holds, PlainDistinct, Online.Applied, LiveIds, FateOf, View, Injective, InShape, StripRows;
    assert Connecting(steps[j]) && steps[j].tx == tx;
    RunKeeps(base, depth, states, steps, j);
    InvHistory(base, states[j]);
    KnownLast(states[j]);
    KnownFated(parentHash, base, depth, rows, blocks, states, steps, j, LastSnap(states[j]));
    StoreFated(parentHash, base, rows, blocks, states[j]);
    m1, m2 := states[j].m, Outcome(steps[j], states[j + 1]);
    var dead;
    rows1, rows2, dead :| GenuineBy(parentHash, blocks, m1, tx, m2, rows1, rows2, dead);
    GenuineHeight(parentHash, blocks, m1, tx, m2);
    GenuineFated(parentHash, Origin(base, rows), base.point, blocks, m1, tx, m2);
    FatedRows(parentHash, At(base, rows, blocks, tx.previous), Logical(m1), rows1);
    FatedRows(parentHash, At(base, rows, blocks, tx.point), Logical(m2), rows2);
  }

  lemma FatedRows(parentHash: Combine, f: Fate, s: State, rows: seq<Row>)
    requires Fated(parentHash, f, s) && Blocks.Holds(parentHash, s, rows)
    ensures StripRows(rows) == f.trees && s.next == f.next
  {
    hide Blocks.Holds;
    var rows' :| Blocks.Holds(parentHash, s, rows') && StripRows(rows') == f.trees;
    HoldsUnique(parentHash, s, rows, rows');
  }

  /** At every point of every run of genuine blocks: a rollback that succeeds, whichever connect of the
      tip it found, brings back the trees from before the tip if and only if the roots are where the
      connect it found left them. */
  lemma SameBlockUndo(parentHash: Combine, base: Base, depth: nat, rows: seq<Row>, blocks: Point -> BlockInfo, states: seq<Sys>, steps: seq<Step>, i: nat, m': Memory)
    requires IsRun(base, depth, states, steps) && GenuineRun(parentHash, base, rows, blocks, states, steps) && i < |states|
    requires Rollback(states[i].m, Txs(Recs(states[i]))) == Ok(m')
    ensures states[i].history != [] && LastSnap(states[i]).marks != [] && Found(states[i]).Some?
    ensures var trees := At(base, rows, blocks, Tip(states[i]).before.point).trees;
            && StandsFor(parentHash, Tip(states[i]).before, trees)
            && (StandsFor(parentHash, Logical(m'), trees) <==> Found(states[i]).value.afterRoots == states[i].m.roots)
  {
    hide Next, Init, Inv, Blocks.Block, Blocks.Holds, PlainDistinct, FateOf, View, InShape, StripRows, Rollback, Flat, LastConnect, Links, Images, CleanChanges,
         Known, RealSnap, Expected, Undone, GenuineRun, DistinctLeaves, Sane, Has;
    var s := states[i];
    RunKeeps(base, depth, states, steps, i);
    RollbackIs(s.m, Txs(Recs(s)));
    FoundIs(base, s);
    var t, own := Found(s).value, Tip(s).tx;
    var r := FoundRec(s);
    var j := ConnectReal(base, depth, states, steps, i, r);
    var m1, m2, rows1, rows2 := ConnectFates(parentHash, base, depth, rows, blocks, states, steps, j, t);
    KnownLast(s);
    HistoryIsReal(base, depth, states, steps, i, LastSnap(s));
    RealMark(states, steps, i, LastSnap(s), |LastSnap(s).marks| - 1);
    var k :| 0 <= k < i && ByStep(steps[k], own) && Tip(s).before == Logical(states[k].m);
    var n1, n2, rows3, rows4 := ConnectFates(parentHash, base, depth, rows, blocks, states, steps, k, own);
    KnownFated(parentHash, base, depth, rows, blocks, states, steps, i, LastSnap(s));
    StoreFated(parentHash, base, rows, blocks, s);
    var now :| Blocks.Holds(parentHash, Logical(s.m), now) && StripRows(now) == At(base, rows, blocks, s.m.point).trees;
    BlockHeader(n1, own, n2);
    AgainIs(parentHash, base, rows, blocks, states, steps, s.m, now, m1, rows1, t, m2, rows2);
    RestoredTreesIff(parentHash, s.m, now, m1, rows1, t, m2, rows2);
  }

  lemma FoundRec(s: Sys) returns (r: Rec)
    requires Found(s).Some?
    ensures r in Recs(s) && r.tx == Found(s).value && r.tx.kind == CONNECT
  {
    hide LastConnect, Flat;
    var txs := Txs(Recs(s));
    LastConnectIn(txs, s.m.point);
    var k :| 0 <= k < |txs| && txs[k] == Found(s).value;
    r := Recs(s)[k];
  }

  lemma AgainIs(parentHash: Combine, base: Base, rows: seq<Row>, blocks: Point -> BlockInfo, states: seq<Sys>, steps: seq<Step>, m: Memory, now: seq<Row>, m1: Memory,
                rows1: seq<Row>, t: Tx, m2: Memory, rows2: seq<Row>)
    requires GenuineRun(parentHash, base, rows, blocks, states, steps) && Blocks.Block(m1, t, m2) && m.next == m2.next && |m.chain| >= 2
    requires Blocks.Holds(parentHash, Logical(m), now) && Blocks.Holds(parentHash, Logical(m1), rows1) && Blocks.Holds(parentHash, Logical(m2), rows2)
    requires StripRows(now) == StripRows(rows2) && PlainDistinct(parentHash, StripRows(rows2)) && Expected(m.layers, Inverse(t.changes))
    ensures Again(parentHash, m, now, m1, rows1, t, m2, rows2)
  {
    hide Blocks.Block, Blocks.Holds, PlainDistinct, View, StripRows, Expected, DistinctLeaves, Genuine, Injective;
    HoldsRepresents(parentHash, Logical(m), now);
    HoldsRepresents(parentHash, Logical(m2), rows2);
    DistinctLaidOut(parentHash, Logical(m).view, now);
    DistinctLaidOut(parentHash, Logical(m2).view, rows2);
  }
}
