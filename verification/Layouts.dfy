/** One forest in two layouts: the same trees with different ids. What a transaction recorded over one
    layout puts back over the other (the rollback of a block that was connected twice, with
    ReadConnectTransaction finding the first connect, in src/forest.cpp). */
module Layouts {
  import opened Common
  import opened Records
  import opened Trees
  import opened ArenaTrees
  import opened ForestState
  import opened Accumulator
  import opened Layering

  // ---- hashes name nodes ----------------------------------------------------------------

  /** No two leaves have one hash, and no leaf's hash is that of a branch. */
  ghost predicate DistinctLeaves(parentHash: Combine, nodes: Nodes) {
    && (forall x, y | x in nodes && y in nodes && nodes[x].kind == LEAF && nodes[y].kind == LEAF && nodes[x].hash == nodes[y].hash :: x == y)
    && (forall x, a, b | x in nodes && nodes[x].kind == LEAF :: nodes[x].hash != parentHash(a, b))
  }

  /** A part of a standing tree. */
  ghost predicate Stood(parentHash: Combine, nodes: Nodes, t: Tree, parent: NodeId) {
    Linked(nodes, t, parent) && Ids(t) <= nodes.Keys && Hashed(parentHash, nodes, t, NO_NODE) && NO_NODE !in Ids(t)
  }

  lemma StoodChildren(parentHash: Combine, nodes: Nodes, t: Tree, parent: NodeId)
    requires Stood(parentHash, nodes, t, parent) && t.Node?
    ensures Stood(parentHash, nodes, t.left, t.id) && Stood(parentHash, nodes, t.right, t.id)
    ensures t.id in nodes && t.left.id in nodes && t.right.id in nodes
    ensures nodes[t.id].kind == BRANCH && nodes[t.id].hash == parentHash(nodes[t.left.id].hash, nodes[t.right.id].hash)
    ensures nodes[t.left.id].parent == t.id && nodes[t.right.id].parent == t.id
  {
    assert t.left.id in Ids(t.left) && t.right.id in Ids(t.right);
  }

  lemma StoodLeaf(parentHash: Combine, nodes: Nodes, t: Tree, parent: NodeId)
    requires Stood(parentHash, nodes, t, parent) && t.Leaf?
    ensures t.id in nodes && nodes[t.id] == NodeRecord(t.hash, parent, NO_NODE, NO_NODE, LEAF)
  {}

  /** Equal hashes, equal nodes. */
  lemma {:induction false} SameHashSameNode(parentHash: Combine, nodes: Nodes, t: Tree, p: NodeId, u: Tree, q: NodeId)
    requires Injective(parentHash) && DistinctLeaves(parentHash, nodes) && Stood(parentHash, nodes, t, p) && Stood(parentHash, nodes, u, q)
    requires nodes[t.id].hash == nodes[u.id].hash
    ensures t.id == u.id
    decreases t
  {
    hide Stood, DistinctLeaves;
    if t.Leaf? { StoodLeaf(parentHash, nodes, t, p); } else { StoodChildren(parentHash, nodes, t, p); }
    if u.Leaf? { StoodLeaf(parentHash, nodes, u, q); } else { StoodChildren(parentHash, nodes, u, q); }
    if t.Leaf? && u.Leaf? { OneLeaf(parentHash, nodes, t.id, u.id); }
    if t.Leaf? && u.Node? { NotBranch(parentHash, nodes, t.id, nodes[u.left.id].hash, nodes[u.right.id].hash); }
    if t.Node? && u.Leaf? { NotBranch(parentHash, nodes, u.id, nodes[t.left.id].hash, nodes[t.right.id].hash); }
    if t.Node? && u.Node? {
      StoodIn(parentHash, nodes, t.left, t.id);
      StoodIn(parentHash, nodes, u.left, u.id);
      StoodIn(parentHash, nodes, t.right, t.id);
      StoodIn(parentHash, nodes, u.right, u.id);
      SameHashSameNode(parentHash, nodes, t.left, t.id, u.left, u.id);
    }
  }

  lemma OneLeaf(parentHash: Combine, nodes: Nodes, x: NodeId, y: NodeId)
    requires DistinctLeaves(parentHash, nodes) && x in nodes && y in nodes && nodes[x].kind == LEAF == nodes[y].kind && nodes[x].hash == nodes[y].hash
    ensures x == y
  {}

  lemma NotBranch(parentHash: Combine, nodes: Nodes, x: NodeId, a: Hash, b: Hash)
    requires DistinctLeaves(parentHash, nodes) && x in nodes && nodes[x].kind == LEAF
    ensures nodes[x].hash != parentHash(a, b)
  {}

  lemma StoodIn(parentHash: Combine, nodes: Nodes, t: Tree, p: NodeId)
    requires Stood(parentHash, nodes, t, p)
    ensures t.id in nodes
  {}

  /** The part of a tree that stands below a given id. */
  lemma {:induction false} PartAt(parentHash: Combine, nodes: Nodes, t: Tree, p: NodeId, x: NodeId) returns (u: Tree, q: NodeId)
    requires Stood(parentHash, nodes, t, p) && x in Ids(t)
    ensures Stood(parentHash, nodes, u, q) && u.id == x
    decreases t
  {
    hide Stood;
    if x == t.id {
      u, q := t, p;
    } else {
      StoodChildren(parentHash, nodes, t, p);
      if x in Ids(t.left) { u, q := PartAt(parentHash, nodes, t.left, t.id, x); } else { u, q := PartAt(parentHash, nodes, t.right, t.id, x); }
    }
  }

  lemma LivePart(parentHash: Combine, nodes: Nodes, rows: seq<Row>, x: NodeId) returns (u: Tree, q: NodeId)
    requires Represents(parentHash, nodes, rows) && x in nodes && nodes[x].kind != FREE
    ensures Stood(parentHash, nodes, u, q) && u.id == x
  {
    hide Linked, Hashed, Proper, Apart;
    assert x in LiveIds(nodes);
    var k :| 0 <= k < |rows| && x in RowIds(rows[k]);
    assert Stands(parentHash, nodes, rows[k].value);
    u, q := PartAt(parentHash, nodes, rows[k].value, NO_NODE, x);
  }

  ghost predicate Unique(nodes: Nodes) {
    forall x, y | x in nodes && y in nodes && nodes[x].kind != FREE && nodes[y].kind != FREE && nodes[x].hash == nodes[y].hash :: x == y
  }

  /** With distinct leaves every node of a forest has a hash of its own. */
  lemma HashesUnique(parentHash: Combine, nodes: Nodes, rows: seq<Row>)
    requires Injective(parentHash) && DistinctLeaves(parentHash, nodes) && Represents(parentHash, nodes, rows)
    ensures Unique(nodes)
  {
    hide Represents, Stood, DistinctLeaves, Injective;
    forall x, y | x in nodes && y in nodes && nodes[x].kind != FREE && nodes[y].kind != FREE && nodes[x].hash == nodes[y].hash ensures x == y {
      var t, p := LivePart(parentHash, nodes, rows, x);
      var u, q := LivePart(parentHash, nodes, rows, y);
      SameHashSameNode(parentHash, nodes, t, p, u, q);
    }
  }

  // ---- records that fit together --------------------------------------------------------

  /** A live record fits its neighbours. */
  ghost predicate Fits(parentHash: Combine, nodes: Nodes, x: NodeId)
    requires x in nodes
  {
    && x != NO_NODE && nodes[x].kind != FREE
    && (nodes[x].kind == LEAF ==> nodes[x].left == NO_NODE && nodes[x].right == NO_NODE)
    && (nodes[x].kind == BRANCH ==>
        var l, r := nodes[x].left, nodes[x].right;
        && l in nodes && r in nodes && nodes[l].kind != FREE && nodes[r].kind != FREE && l != r && l != NO_NODE && r != NO_NODE
        && nodes[l].parent == x && nodes[r].parent == x && nodes[x].hash == parentHash(nodes[l].hash, nodes[r].hash))
    && (nodes[x].parent != NO_NODE ==>
        var p := nodes[x].parent;
        p in nodes && nodes[p].kind == BRANCH && (nodes[p].left == x || nodes[p].right == x))
  }

  ghost predicate AllFit(parentHash: Combine, nodes: Nodes) { forall x | x in nodes && nodes[x].kind != FREE :: Fits(parentHash, nodes, x) }

  lemma {:induction false} TreeFits(parentHash: Combine, nodes: Nodes, t: Tree, above: NodeId, x: NodeId)
    requires Stood(parentHash, nodes, t, above) && Proper(t) && x in Ids(t) && above !in Ids(t)
    requires above != NO_NODE ==> above in nodes && nodes[above].kind == BRANCH && (nodes[above].left == t.id || nodes[above].right == t.id)
    ensures Fits(parentHash, nodes, x)
    decreases t
  {
    if t.Node? {
      assert t.left.id in Ids(t.left) && t.right.id in Ids(t.right);
      LinkedIds(nodes, t.left, t.id);
      LinkedIds(nodes, t.right, t.id);
      if x != t.id {
        var c := if x in Ids(t.left) then t.left else t.right;
        TreeFits(parentHash, nodes, c, t.id, x);
      }
    }
  }

  lemma ForestFits(parentHash: Combine, nodes: Nodes, rows: seq<Row>)
    requires Represents(parentHash, nodes, rows)
    ensures AllFit(parentHash, nodes)
  {
    hide Linked, Hashed, Proper, Apart, Fits, Ids;
    forall x | x in nodes && nodes[x].kind != FREE ensures Fits(parentHash, nodes, x) {
      assert x in LiveIds(nodes);
      var k :| 0 <= k < |rows| && x in RowIds(rows[k]);
      assert Stands(parentHash, nodes, rows[k].value);
      TreeFits(parentHash, nodes, rows[k].value, NO_NODE, x);
    }
  }

  // ---- two layouts of the same trees ----------------------------------------------------

  /** The node that stands at the same place in another layout of the tree. */
  lemma {:induction false} TwinIn(parentHash: Combine, a: Nodes, t: Tree, p: NodeId, b: Nodes, u: Tree, q: NodeId, x: NodeId) returns (y: NodeId)
    requires Stood(parentHash, a, t, p) && Stood(parentHash, b, u, q) && Strip(t) == Strip(u) && x in Ids(t)
    ensures y in Ids(u) && x in a && y in b && a[x].hash == b[y].hash && a[x].kind == b[y].kind && (x == t.id ==> y == u.id)
    decreases t
  {
    hide Stood;
    if t.Leaf? {
      StoodLeaf(parentHash, a, t, p);
      StoodLeaf(parentHash, b, u, q);
      y := u.id;
    } else {
      StoodChildren(parentHash, a, t, p);
      StoodChildren(parentHash, b, u, q);
      StoodIn(parentHash, a, t, p);
      StoodIn(parentHash, b, u, q);
      var l := TwinIn(parentHash, a, t.left, t.id, b, u.left, u.id, t.left.id);
      var r := TwinIn(parentHash, a, t.right, t.id, b, u.right, u.id, t.right.id);
      if x == t.id {
        y := u.id;
      } else if x in Ids(t.left) {
        y := TwinIn(parentHash, a, t.left, t.id, b, u.left, u.id, x);
      } else {
        y := TwinIn(parentHash, a, t.right, t.id, b, u.right, u.id, x);
      }
    }
  }

  /** The two forests have the same nodes, by hash, and the same roots. */
  ghost predicate Twins(a: Nodes, b: Nodes) {
    forall x | x in a && a[x].kind != FREE ::
      exists y :: y in b && b[y].kind == a[x].kind && b[y].hash == a[x].hash && (a[x].parent == NO_NODE ==> b[y].parent == NO_NODE)
  }

  lemma SameTreesTwins(parentHash: Combine, a: Nodes, rows: seq<Row>, b: Nodes, rows': seq<Row>)
    requires Represents(parentHash, a, rows) && Represents(parentHash, b, rows') && StripRows(rows) == StripRows(rows')
    ensures Twins(a, b)
  {
    hide Represents, Stood, Strip;
    forall x | x in a && a[x].kind != FREE
      ensures exists y :: y in b && b[y].kind == a[x].kind && b[y].hash == a[x].hash && (a[x].parent == NO_NODE ==> b[y].parent == NO_NODE)
    {
      var k, t := RowOf(parentHash, a, rows, x);
      assert StripRows(rows)[k] == StripRows(rows')[k];
      var u := rows'[k].value;
      RowStood(parentHash, a, rows, k);
      RowStood(parentHash, b, rows', k);
      var y := TwinIn(parentHash, a, t, NO_NODE, b, u, NO_NODE, x);
      TreeRootOnly(parentHash, a, t, NO_NODE, x);
    }
  }

  lemma RowOf(parentHash: Combine, nodes: Nodes, rows: seq<Row>, x: NodeId) returns (k: nat, t: Tree)
    requires Represents(parentHash, nodes, rows) && x in nodes && nodes[x].kind != FREE
    ensures k < |rows| && rows[k] == Some(t) && x in Ids(t)
  {
    hide Linked, Hashed, Proper, Apart, Stands;
    assert x in LiveIds(nodes);
    k :| 0 <= k < |rows| && x in RowIds(rows[k]);
    t := rows[k].value;
  }

  lemma RowStood(parentHash: Combine, nodes: Nodes, rows: seq<Row>, k: nat)
    requires Represents(parentHash, nodes, rows) && k < |rows| && rows[k].Some?
    ensures Stood(parentHash, nodes, rows[k].value, NO_NODE) && rows[k].value.id in nodes && nodes[rows[k].value.id].parent == NO_NODE
    ensures nodes[rows[k].value.id].kind != FREE && Proper(rows[k].value)
  {
    hide Hashed, Apart, Proper;
    assert Stands(parentHash, nodes, rows[k].value);
  }

  /** Inside a tree only its root has nothing above it. */
  lemma {:induction false} TreeRootOnly(parentHash: Combine, nodes: Nodes, t: Tree, p: NodeId, x: NodeId)
    requires Stood(parentHash, nodes, t, p) && x in Ids(t)
    ensures x in nodes && (nodes[x].parent == NO_NODE ==> x == t.id)
    decreases t
  {
    if t.Node? && x != t.id {
      StoodChildren(parentHash, nodes, t, p);
      var c := if x in Ids(t.left) then t.left else t.right;
      TreeRootOnly(parentHash, nodes, c, t.id, x);
    }
  }

  // ---- undoing over the other layout ----------------------------------------------------

  /** A block took the records `a` to `b`, writing only the ids `t`. The records `c` hold the same trees
      as `b`, and agree with `b` on `t`. Undoing writes what `a` held on `t`, over `c`: that is `r`. */
  ghost predicate Undo(a: Nodes, b: Nodes, c: Nodes, r: Nodes, t: set<NodeId>) {
    && a.Keys <= b.Keys && c.Keys == b.Keys && r.Keys == a.Keys && NO_NODE !in b
    && (forall x | x in b && x !in t :: x in a && Alike(b[x], a[x]))
    && (forall x | x in b && x in t :: Alike(c[x], b[x]))
    && (forall x | x in a :: if x in t then Alike(r[x], a[x]) else r[x] == c[x])
  }

  ghost predicate Setting(parentHash: Combine, a: Nodes, b: Nodes, c: Nodes, r: Nodes, t: set<NodeId>) {
    && Injective(parentHash) && Undo(a, b, c, r, t) && AllFit(parentHash, a) && AllFit(parentHash, b) && AllFit(parentHash, c)
    && Unique(b) && Unique(c) && Twins(b, c) && Twins(c, b)
  }

  predicate Live(nodes: Nodes, x: NodeId) { x in nodes && nodes[x].kind != FREE }

  /** Where a live node of `a` stands after the undoing. */
  ghost predicate Moved(a: Nodes, c: Nodes, t: set<NodeId>, x: NodeId, y: NodeId) {
    Live(a, x) && if x in t then y == x else Live(c, y) && c[y].hash == a[x].hash
  }

  ghost predicate LinkMoved(a: Nodes, c: Nodes, t: set<NodeId>, x: NodeId, y: NodeId) { if x == NO_NODE then y == NO_NODE else Moved(a, c, t, x, y) }

  /** What a touched id shows is the same in both layouts. */
  lemma TouchedSame(parentHash: Combine, a: Nodes, b: Nodes, c: Nodes, r: Nodes, t: set<NodeId>, x: NodeId)
    requires Setting(parentHash, a, b, c, r, t) && x in t && x in b && (b[x].kind != FREE || c[x].kind != FREE)
    ensures x in c && c[x] == b[x]
  {
    hide AllFit, Unique, Twins, Injective;
  }

  lemma UntouchedSame(parentHash: Combine, a: Nodes, b: Nodes, c: Nodes, r: Nodes, t: set<NodeId>, x: NodeId)
    requires Setting(parentHash, a, b, c, r, t) && x !in t && x in b
    ensures x in a && (a[x].kind != FREE || b[x].kind != FREE ==> b[x] == a[x])
  {
    hide AllFit, Unique, Twins, Injective;
  }

  /** The other layout's node with the hash of a node of `b`. */
  lemma TwinOf(parentHash: Combine, a: Nodes, b: Nodes, c: Nodes, r: Nodes, t: set<NodeId>, x: NodeId) returns (y: NodeId)
    requires Setting(parentHash, a, b, c, r, t) && Live(b, x)
    ensures Live(c, y) && c[y].hash == b[x].hash && c[y].kind == b[x].kind && (b[x].parent == NO_NODE ==> c[y].parent == NO_NODE)
    ensures x in t ==> y == x
    ensures x !in t ==> y !in t && y in a
  {
    hide AllFit, Injective;
    y :| y in c && c[y].kind == b[x].kind && c[y].hash == b[x].hash && (b[x].parent == NO_NODE ==> c[y].parent == NO_NODE);
    if x in t { TouchedSame(parentHash, a, b, c, r, t, x); }
    if y in t { TouchedSame(parentHash, a, b, c, r, t, y); }
    if y !in t { UntouchedSame(parentHash, a, b, c, r, t, y); }
  }

  /** The node's twin is the only one with its hash. */
  lemma OnlyTwin(parentHash: Combine, a: Nodes, b: Nodes, c: Nodes, r: Nodes, t: set<NodeId>, x: NodeId, y: NodeId)
    requires Setting(parentHash, a, b, c, r, t) && Live(c, x) && Live(c, y) && c[x].hash == c[y].hash
    ensures x == y
  {
    hide AllFit, Twins, Injective;
  }

  lemma FitsAt(parentHash: Combine, nodes: Nodes, x: NodeId)
    requires AllFit(parentHash, nodes) && Live(nodes, x)
    ensures Fits(parentHash, nodes, x)
  {
    hide Fits;
  }

  /** The twin of a branch has the twins of its children below it. */
  lemma TwinChildren(parentHash: Combine, a: Nodes, b: Nodes, c: Nodes, r: Nodes, t: set<NodeId>, x: NodeId, y: NodeId)
    requires Setting(parentHash, a, b, c, r, t) && Live(b, x) && Live(c, y) && b[x].kind == BRANCH == c[y].kind && b[x].hash == c[y].hash
    ensures var l, k := b[x].left, c[y].left; Live(b, l) && Live(c, k) && c[k].hash == b[l].hash && c[k].parent == y && b[l].parent == x
    ensures var l, k := b[x].right, c[y].right; Live(b, l) && Live(c, k) && c[k].hash == b[l].hash && c[k].parent == y && b[l].parent == x
  {
    hide AllFit, Unique, Twins;
    FitsAt(parentHash, b, x);
    FitsAt(parentHash, c, y);
  }

  /** The twin of a child stands below the twin of its parent. */
  lemma TwinParent(parentHash: Combine, a: Nodes, b: Nodes, c: Nodes, r: Nodes, t: set<NodeId>, x: NodeId, y: NodeId) returns (q: NodeId)
    requires Setting(parentHash, a, b, c, r, t) && Live(b, x) && Live(c, y) && b[x].hash == c[y].hash && b[x].parent != NO_NODE
    ensures var p := b[x].parent; Live(b, p) && b[p].kind == BRANCH && Live(c, q) && c[q].hash == b[p].hash && c[y].parent == q
    ensures b[x].parent in t ==> q == b[x].parent
  {
    hide AllFit, Unique, Twins, Injective, Undo;
    FitsAt(parentHash, b, x);
    var p := b[x].parent;
    q := TwinOf(parentHash, a, b, c, r, t, p);
    TwinChildren(parentHash, a, b, c, r, t, p, q);
    var k := if b[p].left == x then c[q].left else c[q].right;
    OnlyTwin(parentHash, a, b, c, r, t, k, y);
  }

  /** A neighbour of a touched node either is touched too or has not moved. */
  lemma NextToTouched(parentHash: Combine, a: Nodes, b: Nodes, c: Nodes, r: Nodes, t: set<NodeId>, x: NodeId, q: NodeId)
    requires Setting(parentHash, a, b, c, r, t) && Live(a, x) && x in t && q != NO_NODE
    requires a[x].parent == q || (a[x].kind == BRANCH && (a[x].left == q || a[x].right == q))
    ensures Live(a, q) && Moved(a, c, t, q, q)
  {
    hide AllFit, Unique, Twins, Undo;
    FitsAt(parentHash, a, x);
    if q !in t {
      KeysGrow(parentHash, a, b, c, r, t, q);
      KeysGrow(parentHash, a, b, c, r, t, x);
      UntouchedSame(parentHash, a, b, c, r, t, q);
      FitsAt(parentHash, b, q);
      FitsAt(parentHash, a, q);
      TouchedSame(parentHash, a, b, c, r, t, x);
      if a[x].parent == q {
        var y := TwinOf(parentHash, a, b, c, r, t, x);
        var up := TwinParent(parentHash, a, b, c, r, t, x, x);
      } else {
        TwinChildren(parentHash, a, b, c, r, t, x, x);
      }
    }
  }

  lemma KeysGrow(parentHash: Combine, a: Nodes, b: Nodes, c: Nodes, r: Nodes, t: set<NodeId>, x: NodeId)
    requires Setting(parentHash, a, b, c, r, t) && x in a
    ensures x in b && x in c && x in r
  {
    hide AllFit, Unique, Twins, Injective, Alike;
  }

  /** Every live node of `a` stands in `r`, its neighbours moved with it. */
  lemma MovedRecord(parentHash: Combine, a: Nodes, b: Nodes, c: Nodes, r: Nodes, t: set<NodeId>, x: NodeId) returns (y: NodeId)
    requires Setting(parentHash, a, b, c, r, t) && Live(a, x)
    ensures Moved(a, c, t, x, y) && Live(r, y) && r[y].kind == a[x].kind && r[y].hash == a[x].hash && (y in t <==> x in t)
    ensures LinkMoved(a, c, t, a[x].parent, r[y].parent)
    ensures if a[x].kind == BRANCH then LinkMoved(a, c, t, a[x].left, r[y].left) && LinkMoved(a, c, t, a[x].right, r[y].right)
            else r[y].left == NO_NODE == r[y].right
  {
    hide AllFit, Unique, Twins, Injective, Undo;
    KeysGrow(parentHash, a, b, c, r, t, x);
    FitsAt(parentHash, a, x);
    if x in t {
      y := x;
      PutBack(parentHash, a, b, c, r, t, x);
      if a[x].parent != NO_NODE { NextToTouched(parentHash, a, b, c, r, t, x, a[x].parent); }
      if a[x].kind == BRANCH {
        NextToTouched(parentHash, a, b, c, r, t, x, a[x].left);
        NextToTouched(parentHash, a, b, c, r, t, x, a[x].right);
      }
    } else {
      UntouchedSame(parentHash, a, b, c, r, t, x);
      y := TwinOf(parentHash, a, b, c, r, t, x);
      PutBack(parentHash, a, b, c, r, t, y);
      FitsAt(parentHash, c, y);
      if a[x].parent != NO_NODE { ParentMoved(parentHash, a, b, c, r, t, x, y); }
      if a[x].kind == BRANCH { ChildrenMoved(parentHash, a, b, c, r, t, x, y); }
    }
  }

  lemma PutBack(parentHash: Combine, a: Nodes, b: Nodes, c: Nodes, r: Nodes, t: set<NodeId>, x: NodeId)
    requires Setting(parentHash, a, b, c, r, t) && x in a
    ensures x in r && x in c && (x in t && (a[x].kind != FREE || r[x].kind != FREE) ==> r[x] == a[x]) && (x !in t ==> r[x] == c[x])
  {
    hide AllFit, Unique, Twins, Injective;
  }

  /** The twin in `c` of a node of `b` is where the node of `a` has moved. */
  lemma TwinMoved(parentHash: Combine, a: Nodes, b: Nodes, c: Nodes, r: Nodes, t: set<NodeId>, x: NodeId, y: NodeId)
    requires Setting(parentHash, a, b, c, r, t) && Live(a, x) && Live(b, x) && Live(c, y) && c[y].hash == b[x].hash
    ensures Moved(a, c, t, x, y)
  {
    hide AllFit, Unique, Twins, Injective, Undo;
    if x in t {
      TouchedSame(parentHash, a, b, c, r, t, x);
      OnlyTwin(parentHash, a, b, c, r, t, x, y);
    } else {
      UntouchedSame(parentHash, a, b, c, r, t, x);
    }
  }

  lemma ParentMoved(parentHash: Combine, a: Nodes, b: Nodes, c: Nodes, r: Nodes, t: set<NodeId>, x: NodeId, y: NodeId)
    requires Setting(parentHash, a, b, c, r, t) && Live(a, x) && x !in t && Live(b, x) && b[x] == a[x] && Live(c, y) && c[y].hash == b[x].hash
    requires a[x].parent != NO_NODE
    ensures LinkMoved(a, c, t, a[x].parent, c[y].parent)
  {
    hide AllFit, Unique, Twins, Injective, Undo;
    FitsAt(parentHash, a, x);
    var q := TwinParent(parentHash, a, b, c, r, t, x, y);
    TwinMoved(parentHash, a, b, c, r, t, a[x].parent, q);
  }

  lemma ChildrenMoved(parentHash: Combine, a: Nodes, b: Nodes, c: Nodes, r: Nodes, t: set<NodeId>, x: NodeId, y: NodeId)
    requires Setting(parentHash, a, b, c, r, t) && Live(a, x) && x !in t && Live(b, x) && b[x] == a[x] && Live(c, y) && c[y].hash == b[x].hash
    requires a[x].kind == BRANCH == c[y].kind
    ensures LinkMoved(a, c, t, a[x].left, c[y].left) && LinkMoved(a, c, t, a[x].right, c[y].right)
  {
    hide AllFit, Unique, Twins, Injective, Undo;
    FitsAt(parentHash, a, x);
    TwinChildren(parentHash, a, b, c, r, t, x, y);
    TwinMoved(parentHash, a, b, c, r, t, a[x].left, c[y].left);
    TwinMoved(parentHash, a, b, c, r, t, a[x].right, c[y].right);
  }

  lemma MovedOnce(parentHash: Combine, a: Nodes, b: Nodes, c: Nodes, r: Nodes, t: set<NodeId>, x: NodeId, y: NodeId, y': NodeId)
    requires Setting(parentHash, a, b, c, r, t) && Moved(a, c, t, x, y) && Moved(a, c, t, x, y')
    ensures y == y'
  {
    hide AllFit, Unique, Twins, Injective, Undo;
    if x !in t { OnlyTwin(parentHash, a, b, c, r, t, y, y'); }
  }

  /** Different nodes stay apart. */
  lemma MovedApart(parentHash: Combine, a: Nodes, b: Nodes, c: Nodes, r: Nodes, t: set<NodeId>, x: NodeId, x': NodeId, y: NodeId)
    requires Setting(parentHash, a, b, c, r, t) && Moved(a, c, t, x, y) && Moved(a, c, t, x', y)
    ensures x == x'
  {
    hide AllFit, Twins, Injective, Undo;
    var z := MovedRecord(parentHash, a, b, c, r, t, x);
    var z' := MovedRecord(parentHash, a, b, c, r, t, x');
    MovedOnce(parentHash, a, b, c, r, t, x, y, z);
    MovedOnce(parentHash, a, b, c, r, t, x', y, z');
    KeysGrow(parentHash, a, b, c, r, t, x);
    KeysGrow(parentHash, a, b, c, r, t, x');
    if x !in t {
      UntouchedSame(parentHash, a, b, c, r, t, x);
      UntouchedSame(parentHash, a, b, c, r, t, x');
    }
  }

  /** Nothing else is live. */
  lemma AllMoved(parentHash: Combine, a: Nodes, b: Nodes, c: Nodes, r: Nodes, t: set<NodeId>, y: NodeId) returns (x: NodeId)
    requires Setting(parentHash, a, b, c, r, t) && Live(r, y)
    ensures Moved(a, c, t, x, y)
  {
    hide AllFit, Injective, Undo;
    SameKeys(parentHash, a, b, c, r, t, y);
    PutBack(parentHash, a, b, c, r, t, y);
    if y in t {
      x := y;
    } else {
      x :| x in b && b[x].kind == c[y].kind && b[x].hash == c[y].hash && (c[y].parent == NO_NODE ==> b[x].parent == NO_NODE);
      if x in t {
        TouchedSame(parentHash, a, b, c, r, t, x);
        OnlyTwin(parentHash, a, b, c, r, t, x, y);
      } else {
        UntouchedSame(parentHash, a, b, c, r, t, x);
      }
    }
  }

  lemma SameKeys(parentHash: Combine, a: Nodes, b: Nodes, c: Nodes, r: Nodes, t: set<NodeId>, y: NodeId)
    requires Setting(parentHash, a, b, c, r, t) && y in r
    ensures y in a && y in c && y != NO_NODE
  {
    hide AllFit, Unique, Twins, Injective, Alike;
  }

  // ---- the trees after the undoing ------------------------------------------------------

  function Relabel(t: Tree, ids: map<NodeId, NodeId>): Tree
    requires Ids(t) <= ids.Keys
  {
    match t
    case Leaf(id, h) => Leaf(ids[id], h)
    case Node(id, l, r) => Node(ids[id], Relabel(l, ids), Relabel(r, ids))
  }

  /** The ids of the live nodes of `a`, after the undoing. */
  ghost predicate Renames(a: Nodes, c: Nodes, t: set<NodeId>, ids: map<NodeId, NodeId>) {
    (forall x :: x in ids <==> Live(a, x)) && forall x | x in ids :: Moved(a, c, t, x, ids[x])
  }

  lemma Renaming(parentHash: Combine, a: Nodes, b: Nodes, c: Nodes, r: Nodes, t: set<NodeId>) returns (ids: map<NodeId, NodeId>)
    requires Setting(parentHash, a, b, c, r, t)
    ensures Renames(a, c, t, ids)
  {
    hide Setting, Moved;
    forall x | x in a && Live(a, x) ensures exists y :: Moved(a, c, t, x, y) { var y := MovedRecord(parentHash, a, b, c, r, t, x); }
    ids := map x | x in a && Live(a, x) :: PlaceOf(a, c, t, x);
  }

  ghost function PlaceOf(a: Nodes, c: Nodes, t: set<NodeId>, x: NodeId): (y: NodeId)
    requires exists y :: Moved(a, c, t, x, y)
    ensures Moved(a, c, t, x, y)
  { var y :| Moved(a, c, t, x, y); y }

  lemma {:induction false} RelabelShape(t: Tree, ids: map<NodeId, NodeId>)
    requires Ids(t) <= ids.Keys
    ensures Strip(Relabel(t, ids)) == Strip(t) && Height(Relabel(t, ids)) == Height(t) && Relabel(t, ids).id == ids[t.id]
    ensures Ids(Relabel(t, ids)) == set x | x in Ids(t) :: ids[x]
    decreases t
  {
    if t.Node? {
      RelabelShape(t.left, ids);
      RelabelShape(t.right, ids);
    }
  }

  lemma {:induction false} RelabelProper(t: Tree, ids: map<NodeId, NodeId>)
    requires Ids(t) <= ids.Keys && Proper(t) && forall x, y | x in ids && y in ids && ids[x] == ids[y] :: x == y
    ensures Proper(Relabel(t, ids))
    decreases t
  {
    if t.Node? {
      RelabelProper(t.left, ids);
      RelabelProper(t.right, ids);
      RelabelShape(t.left, ids);
      RelabelShape(t.right, ids);
    }
  }

  /** The record of a moved node, by the renaming. */
  lemma RenamedRecord(parentHash: Combine, a: Nodes, b: Nodes, c: Nodes, r: Nodes, t: set<NodeId>, ids: map<NodeId, NodeId>, x: NodeId)
    requires Setting(parentHash, a, b, c, r, t) && Renames(a, c, t, ids) && Live(a, x)
    ensures var y := ids[x];
            && Live(r, y) && y != NO_NODE && r[y].kind == a[x].kind && r[y].hash == a[x].hash
            && (if a[x].parent == NO_NODE then r[y].parent == NO_NODE else a[x].parent in ids && r[y].parent == ids[a[x].parent])
            && (if a[x].kind == BRANCH then a[x].left in ids && a[x].right in ids && r[y].left == ids[a[x].left] && r[y].right == ids[a[x].right]
                else r[y].left == NO_NODE == r[y].right)
  {
    hide Setting;
    var y := MovedRecord(parentHash, a, b, c, r, t, x);
    MovedOnce(parentHash, a, b, c, r, t, x, y, ids[x]);
    SameKeys(parentHash, a, b, c, r, t, y);
    if a[x].parent != NO_NODE { MovedOnce(parentHash, a, b, c, r, t, a[x].parent, r[y].parent, ids[a[x].parent]); }
    if a[x].kind == BRANCH {
      BranchLinks(parentHash, a, b, c, r, t, x);
      MovedOnce(parentHash, a, b, c, r, t, a[x].left, r[y].left, ids[a[x].left]);
      MovedOnce(parentHash, a, b, c, r, t, a[x].right, r[y].right, ids[a[x].right]);
    }
  }

  lemma BranchLinks(parentHash: Combine, a: Nodes, b: Nodes, c: Nodes, r: Nodes, t: set<NodeId>, x: NodeId)
    requires Setting(parentHash, a, b, c, r, t) && Live(a, x) && a[x].kind == BRANCH
    ensures a[x].left != NO_NODE && a[x].right != NO_NODE
  {
    hide AllFit, Unique, Twins, Injective, Undo;
    FitsAt(parentHash, a, x);
  }

  lemma {:induction false} RelabelStood(parentHash: Combine, a: Nodes, b: Nodes, c: Nodes, r: Nodes, t: set<NodeId>, ids: map<NodeId, NodeId>, tree: Tree, above: NodeId)
    requires Setting(parentHash, a, b, c, r, t) && Renames(a, c, t, ids) && Stood(parentHash, a, tree, above) && Ids(tree) <= ids.Keys
    requires above == NO_NODE || above in ids
    ensures Stood(parentHash, r, Relabel(tree, ids), if above == NO_NODE then NO_NODE else ids[above])
    decreases tree
  {
    hide Setting, Moved;
    assert Live(a, tree.id);
    RenamedRecord(parentHash, a, b, c, r, t, ids, tree.id);
    if tree.Node? {
      StoodChildren(parentHash, a, tree, above);
      assert tree.id != NO_NODE;
      RenamedRecord(parentHash, a, b, c, r, t, ids, tree.left.id);
      RenamedRecord(parentHash, a, b, c, r, t, ids, tree.right.id);
      RelabelStood(parentHash, a, b, c, r, t, ids, tree.left, tree.id);
      RelabelStood(parentHash, a, b, c, r, t, ids, tree.right, tree.id);
      RelabelShape(tree.left, ids);
      RelabelShape(tree.right, ids);
    }
  }

  function RelabelRows(rows: seq<Row>, ids: map<NodeId, NodeId>): (r: seq<Row>)
    requires forall k | 0 <= k < |rows| && rows[k].Some? :: Ids(rows[k].value) <= ids.Keys
    ensures |r| == |rows| && forall k | 0 <= k < |rows| :: r[k] == if rows[k].Some? then Some(Relabel(rows[k].value, ids)) else None
  {
    seq(|rows|, k requires 0 <= k < |rows| => if rows[k].Some? then Some(Relabel(rows[k].value, ids)) else None)
  }

  /** After the undoing the records stand for the trees from before the block, under new ids. */
  lemma LayoutRestored(parentHash: Combine, a: Nodes, b: Nodes, c: Nodes, r: Nodes, t: set<NodeId>, rows: seq<Row>) returns (rows': seq<Row>)
    requires Setting(parentHash, a, b, c, r, t) && Represents(parentHash, a, rows)
    ensures Represents(parentHash, r, rows') && StripRows(rows') == StripRows(rows)
    ensures forall k | 0 <= k < |rows| && rows[k].Some? ::
              rows'[k].Some? && Moved(a, c, t, rows[k].value.id, rows'[k].value.id) && Height(rows'[k].value) == Height(rows[k].value)
  {
    hide Setting, Stands, Moved, Stood, Relabel;
    var ids := Renaming(parentHash, a, b, c, r, t);
    forall k | 0 <= k < |rows| && rows[k].Some? ensures Ids(rows[k].value) <= ids.Keys { RowLive(parentHash, a, rows, k, ids); }
    rows' := RelabelRows(rows, ids);
    forall x, y | x in ids && y in ids && ids[x] == ids[y] ensures x == y { MovedApart(parentHash, a, b, c, r, t, x, y, ids[x]); }
    forall k | 0 <= k < |rows| && rows[k].Some?
      ensures Stands(parentHash, r, rows'[k].value) && Strip(rows'[k].value) == Strip(rows[k].value) && Height(rows'[k].value) == Height(rows[k].value)
              && rows'[k].value.id == ids[rows[k].value.id] && rows[k].value.id in ids
    {
      RowStood(parentHash, a, rows, k);
      RelabelStood(parentHash, a, b, c, r, t, ids, rows[k].value, NO_NODE);
      RelabelProper(rows[k].value, ids);
      RelabelShape(rows[k].value, ids);
      StoodStands(parentHash, r, rows'[k].value);
    }
    assert StripRows(rows') == StripRows(rows);
    RelabelApart(rows, ids);
    RelabelLive(parentHash, a, b, c, r, t, rows, ids);
  }

  lemma StoodStands(parentHash: Combine, nodes: Nodes, t: Tree)
    requires Stood(parentHash, nodes, t, NO_NODE) && Proper(t)
    ensures Stands(parentHash, nodes, t)
  {}

  lemma RowLive(parentHash: Combine, a: Nodes, rows: seq<Row>, k: nat, ids: map<NodeId, NodeId>)
    requires Represents(parentHash, a, rows) && k < |rows| && rows[k].Some? && forall x :: x in ids <==> Live(a, x)
    ensures Ids(rows[k].value) <= ids.Keys
  {
    hide Stands, Apart;
    RowInside(rows, k);
    forall x | x in Ids(rows[k].value) ensures x in ids { assert x in LiveIds(a); }
  }

  lemma RelabelApart(rows: seq<Row>, ids: map<NodeId, NodeId>)
    requires forall k | 0 <= k < |rows| && rows[k].Some? :: Ids(rows[k].value) <= ids.Keys
    requires Apart(rows) && forall x, y | x in ids && y in ids && ids[x] == ids[y] :: x == y
    ensures Apart(RelabelRows(rows, ids))
  {
    hide Relabel, Ids;
    var rows' := RelabelRows(rows, ids);
    forall i, j | 0 <= i < j < |rows'| ensures RowIds(rows'[i]) !! RowIds(rows'[j]) {
      if rows[i].Some? { RelabelShape(rows[i].value, ids); }
      if rows[j].Some? { RelabelShape(rows[j].value, ids); }
      assert RowIds(rows[i]) !! RowIds(rows[j]);
    }
  }

  lemma RelabelLive(parentHash: Combine, a: Nodes, b: Nodes, c: Nodes, r: Nodes, t: set<NodeId>, rows: seq<Row>, ids: map<NodeId, NodeId>)
    requires Setting(parentHash, a, b, c, r, t) && Represents(parentHash, a, rows) && Renames(a, c, t, ids)
    requires forall k | 0 <= k < |rows| && rows[k].Some? :: Ids(rows[k].value) <= ids.Keys
    ensures AllIds(RelabelRows(rows, ids)) == LiveIds(r) && NO_NODE !in r
  {
    hide Setting, Stands, Moved, Relabel, Apart, Ids;
    var rows' := RelabelRows(rows, ids);
    forall y | y in AllIds(rows') ensures y in LiveIds(r) {
      var k :| 0 <= k < |rows'| && y in RowIds(rows'[k]);
      RelabelShape(rows[k].value, ids);
      var x :| x in Ids(rows[k].value) && ids[x] == y;
      RenamedRecord(parentHash, a, b, c, r, t, ids, x);
    }
    forall y | y in LiveIds(r) ensures y in AllIds(rows') {
      var x := AllMoved(parentHash, a, b, c, r, t, y);
      MovedLive(a, c, t, x, y);
      MovedOnce(parentHash, a, b, c, r, t, x, y, ids[x]);
      assert x in LiveIds(a);
      var k :| 0 <= k < |rows| && x in RowIds(rows[k]);
      RelabelShape(rows[k].value, ids);
      assert y in RowIds(rows'[k]);
    }
    if NO_NODE in r { SameKeys(parentHash, a, b, c, r, t, NO_NODE); }
  }

  lemma MovedLive(a: Nodes, c: Nodes, t: set<NodeId>, x: NodeId, y: NodeId)
    requires Moved(a, c, t, x, y)
    ensures Live(a, x)
  {}
}
