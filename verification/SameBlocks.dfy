/** A block connected twice with the same contents: when the rollback of the second connect, having
    found the transaction of the first, brings the trees back (RollbackOnlineBlock and
    ReadConnectTransaction in src/forest.cpp). */
module SameBlocks {
  import opened Common
  import opened Records
  import opened Ordered
  import opened Layering
  import opened Trees
  import opened ArenaTrees
  import opened ForestState
  import opened Accumulator
  import opened Transactions
  import opened Durability
  import opened UndoRuns
  import opened Layouts
  import opened CleanRecords
  import Blocks
  import Bits

  function Touched(t: Tx): set<NodeId> { set i | 0 <= i < |t.changes| :: t.changes[i].id }

  /** The state stands for these trees, under whatever ids. */
  ghost predicate StandsFor(parentHash: Combine, s: State, trees: seq<Option<Plain>>) { exists rows :: Blocks.Holds(parentHash, s, rows) && StripRows(rows) == trees }

  // ---- what the undoing writes ----------------------------------------------------------

  lemma TouchedIs(t: Tx, x: NodeId)
    ensures x in Touched(t) <==> LastChange(t.changes, x).Some?
  {
    hide LastChange;
    if x in Touched(t) {
      var i :| 0 <= i < |t.changes| && t.changes[i].id == x;
      ChangeFound(t.changes, i);
    }
    if LastChange(t.changes, x).Some? { var i := ChangeIndex(t.changes, x); }
  }

  /** A touched record still is what the block left. */
  lemma StillThere(m: Memory, m1: Memory, t: Tx, m2: Memory, x: NodeId)
    requires Blocks.Block(m1, t, m2) && Expected(m.layers, Inverse(t.changes)) && x in Touched(t)
    ensures Read(m.layers, x) == Read(m2.layers, x) && Back(m.layers, t, x) == Read(m1.layers, x)
  {
    hide Read, LastChange, Overlay, Images, Rewrites, CleanLayers, CleanChanges, Blocks.Touches, ChainValid;
    var i :| 0 <= i < |t.changes| && t.changes[i].id == x;
    var changes := Inverse(t.changes);
    Blocks.NotBefore(t.changes, i);
    assert changes[i] == Change(x, t.changes[i].after, t.changes[i].before);
    assert Read(m.layers.(dirty := Overlay(m.layers.dirty, changes[..i])), changes[i].id) == changes[i].before;
    OverlayRead(m.layers, changes[..i], x);
    ChangeFound(changes, i);
    var k := ChangeIndex(changes, x);
    SortedOnce(t.changes, i, k);
  }

  lemma SortedOnce(changes: seq<Change>, i: nat, k: nat)
    requires StrictlySorted(Blocks.IdsOf(changes)) && i < |changes| && k < |changes| && changes[i].id == changes[k].id
    ensures i == k
  {
    var ids := Blocks.IdsOf(changes);
    assert ids[i] == ids[k];
  }

  lemma BackUntouched(l: Layers, t: Tx, x: NodeId)
    requires x !in Touched(t)
    ensures Back(l, t, x) == Read(l, x)
  {
    hide LastChange, Read, Inverse;
    TouchedIs(t, x);
    InverseTouches(t.changes, x);
  }

  lemma BlockHeader(m1: Memory, t: Tx, m2: Memory)
    requires Blocks.Block(m1, t, m2)
    ensures t.beforeNext == m1.next <= m2.next == t.afterNext && t.beforeRoots == m1.roots && t.afterRoots == m2.roots
    ensures t.beforeLeaves == m1.leaves && t.afterLeaves == m2.leaves && t.previous == m1.point && t.point == m2.point && t.kind == CONNECT
  {
    hide Images, Rewrites, CleanLayers, CleanChanges, Blocks.Touches, Read, Overlay;
  }

  /** The records around the undoing, as two layouts of one forest. */
  lemma UndoIs(m: Memory, m1: Memory, t: Tx, m2: Memory)
    requires Blocks.Block(m1, t, m2) && Expected(m.layers, Inverse(t.changes)) && m.next == m2.next && m.chain != [] && m2.next <= NO_NODE
    ensures Undo(Logical(m1).view, Logical(m2).view, Logical(m).view, Logical(Undone(m, Reversal(m, t))).view, Touched(t))
  {
    hide Read, LastChange, Overlay, Images, CleanLayers, CleanChanges, Inverse, Touched, Back, ChainValid, Expected;
    var m' := Undone(m, Reversal(m, t));
    BlockHeader(m1, t, m2);
    forall x: NodeId | x < m2.next
      ensures x !in Touched(t) ==> x < m1.next && Alike(Read(m2.layers, x), Read(m1.layers, x))
      ensures x in Touched(t) ==> Read(m.layers, x) == Read(m2.layers, x)
    {
      TouchedIs(t, x);
      if x in Touched(t) { StillThere(m, m1, t, m2, x); } else { BlockLeaves(m1, t, m2, x); }
    }
    forall x: NodeId | x < m1.next ensures Read(m'.layers, x) == if x in Touched(t) then Read(m1.layers, x) else Read(m.layers, x) {
      UndoneRead(m, t, x);
      if x in Touched(t) { StillThere(m, m1, t, m2, x); } else { BackUntouched(m.layers, t, x); }
    }
  }

  /** What the block did not touch stayed, and was there before. */
  lemma BlockLeaves(m1: Memory, t: Tx, m2: Memory, x: NodeId)
    requires Blocks.Block(m1, t, m2) && x < m2.next && LastChange(t.changes, x).None?
    ensures x < m1.next && Alike(Read(m2.layers, x), Read(m1.layers, x))
  {
    hide Read, LastChange, Overlay, Images, CleanLayers, CleanChanges, Blocks.Touches, ChainValid;
    ViewAt(m2.layers, m2.next, x);
    ViewAt(m1.layers, m1.next, x);
    assert x in Logical(m2).view;
  }

  // ---- when the trees are back ----------------------------------------------------------

  /** A block took `m1` to `m2`; the running store `m` holds the same trees as `m2`, in as many slots. */
  ghost predicate Again(parentHash: Combine, m: Memory, rows: seq<Row>, m1: Memory, rows1: seq<Row>, t: Tx, m2: Memory, rows2: seq<Row>) {
    && Injective(parentHash) && Blocks.Block(m1, t, m2) && StripRows(rows) == StripRows(rows2) && m.next == m2.next && m.chain != []
    && Blocks.Holds(parentHash, Logical(m), rows) && Blocks.Holds(parentHash, Logical(m1), rows1) && Blocks.Holds(parentHash, Logical(m2), rows2)
    && DistinctLeaves(parentHash, Logical(m).view) && DistinctLeaves(parentHash, Logical(m2).view)
    && Expected(m.layers, Inverse(t.changes))
  }

  lemma AgainSetting(parentHash: Combine, m: Memory, rows: seq<Row>, m1: Memory, rows1: seq<Row>, t: Tx, m2: Memory, rows2: seq<Row>)
    requires Again(parentHash, m, rows, m1, rows1, t, m2, rows2)
    ensures Setting(parentHash, Logical(m1).view, Logical(m2).view, Logical(m).view, Logical(Undone(m, Reversal(m, t))).view, Touched(t))
  {
    hide Represents, DistinctLeaves, Blocks.Block, WellFormed, View, Undo, Expected, Undone, AllFit, Unique, Twins, Injective;
    var a, b, c := Logical(m1).view, Logical(m2).view, Logical(m).view;
    NextFits(parentHash, m2, rows2);
    UndoIs(m, m1, t, m2);
    ForestFits(parentHash, a, rows1);
    ForestFits(parentHash, b, rows2);
    ForestFits(parentHash, c, rows);
    HashesUnique(parentHash, b, rows2);
    HashesUnique(parentHash, c, rows);
    SameTreesTwins(parentHash, b, rows2, c, rows);
    SameTreesTwins(parentHash, c, rows, b, rows2);
  }

  lemma NextFits(parentHash: Combine, m: Memory, rows: seq<Row>)
    requires Represents(parentHash, Logical(m).view, rows)
    ensures m.next <= NO_NODE
  {
    hide Laid, AllIds, LiveIds;
    ViewAt(m.layers, m.next, NO_NODE);
  }

  /** A root of the records is the root of a row. */
  lemma RootRow(parentHash: Combine, nodes: Nodes, rows: seq<Row>, x: NodeId) returns (k: nat)
    requires Represents(parentHash, nodes, rows) && Live(nodes, x) && nodes[x].parent == NO_NODE
    ensures k < |rows| && rows[k].Some? && rows[k].value.id == x
  {
    hide Represents, Stood;
    var t;
    k, t := RowOf(parentHash, nodes, rows, x);
    RowStood(parentHash, nodes, rows, k);
    TreeRootOnly(parentHash, nodes, t, NO_NODE, x);
  }

  /** Rows with the same tree have roots with the same hash. */
  lemma RowTwin(parentHash: Combine, a: Nodes, rows: seq<Row>, b: Nodes, rows': seq<Row>, k: nat)
    requires Represents(parentHash, a, rows) && Represents(parentHash, b, rows') && StripRows(rows) == StripRows(rows') && k < |rows| && rows[k].Some?
    ensures k < |rows'| && rows'[k].Some? && Live(a, rows[k].value.id) && Live(b, rows'[k].value.id)
    ensures a[rows[k].value.id].hash == b[rows'[k].value.id].hash && a[rows[k].value.id].parent == NO_NODE
  {
    hide Represents, Stood, Strip;
    assert StripRows(rows)[k] == StripRows(rows')[k];
    RowStood(parentHash, a, rows, k);
    RowStood(parentHash, b, rows', k);
    var y := TwinIn(parentHash, a, rows[k].value, NO_NODE, b, rows'[k].value, NO_NODE, rows[k].value.id);
  }

  /** With the roots where the block left them, no root from before it has moved. */
  lemma RootStays(parentHash: Combine, m: Memory, rows: seq<Row>, m1: Memory, rows1: seq<Row>, t: Tx, m2: Memory, rows2: seq<Row>, x: NodeId, y: NodeId)
    requires Again(parentHash, m, rows, m1, rows1, t, m2, rows2) && m2.roots == m.roots
    requires Moved(Logical(m1).view, Logical(m).view, Touched(t), x, y) && Logical(m1).view[x].parent == NO_NODE
    ensures y == x
  {
    hide Represents, DistinctLeaves, Blocks.Block, WellFormed, View, Undo, Expected, Undone, Setting, Injective, Touched;
    var a, b, c, r, touched := Logical(m1).view, Logical(m2).view, Logical(m).view, Logical(Undone(m, Reversal(m, t))).view, Touched(t);
    AgainSetting(parentHash, m, rows, m1, rows1, t, m2, rows2);
    if x !in touched {
      KeysGrow(parentHash, a, b, c, r, touched, x);
      UntouchedSame(parentHash, a, b, c, r, touched, x);
      var k := RootRow(parentHash, b, rows2, x);
      RowTwin(parentHash, b, rows2, c, rows, k);
      OnlyTwin(parentHash, a, b, c, r, touched, x, y);
    }
  }

  lemma SameRootsRestore(parentHash: Combine, m: Memory, rows: seq<Row>, m1: Memory, rows1: seq<Row>, t: Tx, m2: Memory, rows2: seq<Row>)
    requires Again(parentHash, m, rows, m1, rows1, t, m2, rows2) && m2.roots == m.roots
    ensures StandsFor(parentHash, Logical(Undone(m, Reversal(m, t))), StripRows(rows1))
  {
    hide Represents, DistinctLeaves, Blocks.Block, View, Undo, Expected, Setting, Injective, Touched, Moved, Height, Bits.Bit, Overlay, Inverse;
    var m' := Undone(m, Reversal(m, t));
    var a, b, c, r, touched := Logical(m1).view, Logical(m2).view, Logical(m).view, Logical(m').view, Touched(t);
    AgainSetting(parentHash, m, rows, m1, rows1, t, m2, rows2);
    var rows' := LayoutRestored(parentHash, a, b, c, r, touched, rows1);
    BlockHeader(m1, t, m2);
    forall k | 0 <= k < |rows1| ensures rows'[k].Some? == rows1[k].Some? && RootId(rows'[k]) == RootId(rows1[k]) {
      assert StripRows(rows')[k] == StripRows(rows1)[k];
      if rows1[k].Some? {
        RowStood(parentHash, a, rows1, k);
        RootStays(parentHash, m, rows, m1, rows1, t, m2, rows2, rows1[k].value.id, rows'[k].value.id);
      }
    }
    assert Blocks.Holds(parentHash, Logical(m'), rows');
  }

  /** With a root elsewhere, some tree is not found where the header says. */
  lemma OtherRootsFail(parentHash: Combine, m: Memory, rows: seq<Row>, m1: Memory, rows1: seq<Row>, t: Tx, m2: Memory, rows2: seq<Row>, rows': seq<Row>, k: nat)
    requires Again(parentHash, m, rows, m1, rows1, t, m2, rows2) && k < |m.roots| == |m2.roots| && m2.roots[k] != m.roots[k]
    requires StripRows(rows') == StripRows(rows1)
    ensures !Blocks.Holds(parentHash, Logical(Undone(m, Reversal(m, t))), rows')
  {
    hide Represents, DistinctLeaves, Blocks.Block, WellFormed, View, Undo, Expected, Setting, Injective, Touched, Overlay, Inverse;
    var m' := Undone(m, Reversal(m, t));
    var a, b, c, r, touched := Logical(m1).view, Logical(m2).view, Logical(m).view, Logical(m').view, Touched(t);
    AgainSetting(parentHash, m, rows, m1, rows1, t, m2, rows2);
    BlockHeader(m1, t, m2);
    assert StripRows(rows2)[k] == StripRows(rows)[k];
    RowTwin(parentHash, b, rows2, c, rows, k);
    var x, y := m2.roots[k], m.roots[k];
    if x in touched {
      TouchedSame(parentHash, a, b, c, r, touched, x);
      OnlyTwin(parentHash, a, b, c, r, touched, x, y);
    } else if Blocks.Holds(parentHash, Logical(m'), rows') {
      UntouchedSame(parentHash, a, b, c, r, touched, x);
      var j := RootRow(parentHash, a, rows1, x);
      RowTwin(parentHash, a, rows1, r, rows', j);
      PutBack(parentHash, a, b, c, r, touched, x);
      OnlyTwin(parentHash, a, b, c, r, touched, x, y);
    }
  }

  /** Over a store that holds the same trees, undoing a block by an earlier connect of it brings the
      trees back if and only if the roots are where that connect left them. */
  lemma RestoredTreesIff(parentHash: Combine, m: Memory, rows: seq<Row>, m1: Memory, rows1: seq<Row>, t: Tx, m2: Memory, rows2: seq<Row>)
    requires Again(parentHash, m, rows, m1, rows1, t, m2, rows2)
    ensures StandsFor(parentHash, Logical(Undone(m, Reversal(m, t))), StripRows(rows1)) <==> t.afterRoots == m.roots
  {
    hide Represents, DistinctLeaves, Blocks.Block, WellFormed, View, Expected, Injective, Undone;
    BlockHeader(m1, t, m2);
    if t.afterRoots == m.roots {
      SameRootsRestore(parentHash, m, rows, m1, rows1, t, m2, rows2);
    } else {
      var k :| 0 <= k < |m.roots| && m2.roots[k] != m.roots[k];
      if StandsFor(parentHash, Logical(Undone(m, Reversal(m, t))), StripRows(rows1)) {
        var rows' :| Blocks.Holds(parentHash, Logical(Undone(m, Reversal(m, t))), rows') && StripRows(rows') == StripRows(rows1);
        OtherRootsFail(parentHash, m, rows, m1, rows1, t, m2, rows2, rows', k);
      }
    }
  }
}
