/** Walking up and down the arena's links, and the positions met on the way. */
module ArenaPaths {
  import opened Bits
  import opened Position
  import opened Common
  import opened Records
  import opened Trees
  import opened ArenaTrees

  lemma {:induction false} PathTo(t: Tree, x: NodeId) returns (path: seq<bool>)
    requires x in Ids(t)
    ensures Follow(t, path).Some? && Follow(t, path).value.id == x
    decreases t
  {
    if t.id == x {
      path := [];
    } else if x in Ids(t.left) {
      var p := PathTo(t.left, x);
      path := [false] + p;
      assert path[1..] == p;
    } else {
      var p := PathTo(t.right, x);
      path := [true] + p;
      assert path[1..] == p;
    }
  }

  lemma {:induction false} FollowLinked(nodes: Nodes, t: Tree, above: NodeId, path: seq<bool>)
    requires Linked(nodes, t, above) && Proper(t) && Follow(t, path).Some?
    ensures var s := Follow(t, path).value;
            Ids(s) <= Ids(t) && Proper(s) && s.id in nodes && exists p :: Linked(nodes, s, p)
    decreases path
  {
    if path != [] {
      FollowLinked(nodes, if path[0] then t.right else t.left, t.id, path[1..]);
    }
  }

  /** One step up a path agrees with the parent link and the side the parent keeps. */
  lemma StepUp(nodes: Nodes, t: Tree, above: NodeId, path: seq<bool>)
    requires Linked(nodes, t, above) && Proper(t) && Follow(t, path).Some?
    ensures var s := Follow(t, path).value;
            && s.id in nodes
            && (path == [] ==> s == t && nodes[s.id].parent == above)
            && (path != [] ==>
                var init, b := path[..|path| - 1], path[|path| - 1];
                && Follow(t, init).Some? && Follow(t, init).value.id == nodes[s.id].parent
                && nodes[s.id].parent in nodes && nodes[s.id].parent in Ids(t)
                && (nodes[nodes[s.id].parent].right == s.id <==> b)
                && (nodes[nodes[s.id].parent].left == s.id <==> !b))
  {
    if path != [] {
      var init, b := path[..|path| - 1], path[|path| - 1];
      assert path == init + [b];
      FollowSnoc(t, init, b);
      FollowLinked(nodes, t, above, init);
      var u := Follow(t, init).value;
      var p :| Linked(nodes, u, p);
      assert u.left.id in Ids(u.left) && u.right.id in Ids(u.right);
    }
  }

  /** Directions collected on the way up: the first direction of the path is the lowest bit. */
  function DirectionBits(path: seq<bool>): nat {
    if path == [] then 0 else (if path[0] then 1 else 0) + 2 * DirectionBits(path[1..])
  }

  lemma {:induction false} DirectionBound(path: seq<bool>)
    ensures DirectionBits(path) < Pow2(|path|)
    decreases path
  {
    if path != [] { DirectionBound(path[1..]); }
  }

  lemma PathPlaceIn(leaves: nat, rootRow: nat, path: seq<bool>)
    requires |path| <= rootRow && Bit(leaves, rootRow)
    ensures rootRow <= TreeRows(leaves)
    ensures InRow(rootRow - |path|, PathOffset(leaves, rootRow, path), TreeRows(leaves))
  {
    hide Bit, TreeRows, PathOffset, Shr, RootRow;
    var row, off := rootRow - |path|, PathOffset(leaves, rootRow, path);
    PathUnder(leaves, rootRow, path);
    UnderIff(leaves, row, off, rootRow);
    TreeRowsBound(leaves);
    PopulatedInRow(leaves, row, off, TreeRows(leaves));
    RootRowFits(leaves, row, off, TreeRows(leaves));
  }

  lemma PathRoot(leaves: nat, rootRow: nat)
    requires Bit(leaves, rootRow) && TreeRows(leaves) <= MAX_ROWS
    ensures rootRow <= TreeRows(leaves)
    ensures RootPosition(leaves, rootRow, TreeRows(leaves)) == PathPosition(leaves, rootRow, [])
  {
    hide Bit, TreeRows, RootPosition, Shr;
    PathPlaceIn(leaves, rootRow, []);
    TreeRowsBound(leaves);
    RootPositionIs(leaves, rootRow, TreeRows(leaves));
    RootPathOffset(leaves, rootRow);
  }

  lemma RootPathOffset(leaves: nat, rootRow: nat)
    ensures PathOffset(leaves, rootRow, []) == RootOffset(leaves, rootRow)
  {}

  lemma SnocOffset(leaves: nat, rootRow: nat, path: seq<bool>, b: bool)
    ensures PathOffset(leaves, rootRow, path + [b]) == 2 * PathOffset(leaves, rootRow, path) + (if b then 1 else 0)
  {
    assert (path + [b])[..|path|] == path;
  }

  lemma PathChild(leaves: nat, rootRow: nat, path: seq<bool>, b: bool)
    requires |path| < rootRow && Bit(leaves, rootRow) && TreeRows(leaves) <= MAX_ROWS
    ensures rootRow <= TreeRows(leaves)
    ensures var rows := TreeRows(leaves);
            PathPosition(leaves, rootRow, path + [b])
              == if b then RightChild(PathPosition(leaves, rootRow, path), rows) else LeftChild(PathPosition(leaves, rootRow, path), rows)
  {
    hide Bit, TreeRows, LeftChild, Shr, PathOffset;
    PathPlaceIn(leaves, rootRow, path);
    ChildPlace(rootRow - |path|, PathOffset(leaves, rootRow, path), TreeRows(leaves));
    SnocOffset(leaves, rootRow, path, b);
  }
}
