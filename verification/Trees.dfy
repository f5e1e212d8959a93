/** The accumulator as a mathematical value: one optional binary tree per set bit of the leaf
    count. Deletion promotes siblings, so a tree standing on row r may be lower than r. */
module Trees {
  import opened Bits
  import opened Position
  import opened Common

  datatype Tree = Leaf(id: NodeId, hash: Hash) | Node(id: NodeId, left: Tree, right: Tree)

  const ROWS: nat := 64

  datatype Forest = Forest(leaves: nat, trees: seq<Option<Tree>>)

  function HashOf(parentHash: Combine, t: Tree): Hash {
    match t
    case Leaf(_, h) => h
    case Node(_, l, r) => parentHash(HashOf(parentHash, l), HashOf(parentHash, r))
  }

  function Height(t: Tree): nat {
    match t
    case Leaf(_, _) => 0
    case Node(_, l, r) => 1 + if Height(l) <= Height(r) then Height(r) else Height(l)
  }

  /** Every tree stands on a set bit of the leaf count and fits below its row. */
  ghost predicate WellFormed(f: Forest) {
    && |f.trees| == ROWS
    && TreeRows(f.leaves) <= MAX_ROWS
    && forall row | 0 <= row < ROWS && f.trees[row].Some? :: Bit(f.leaves, row) && Height(f.trees[row].value) <= row
  }

  function Rows(f: Forest): nat { TreeRows(f.leaves) }

  /** Walk `k` steps down, taking the right child where the path has a one, highest bit first. */
  function Descend(t: Tree, k: nat, path: nat): Option<Tree> {
    if k == 0 then Some(t)
    else match t
      case Leaf(_, _) => None
      case Node(_, l, r) => Descend(if Bit(path, k - 1) then r else l, k - 1, path)
  }

  function Child(t: Option<Tree>, right: bool): Option<Tree> {
    if t.Some? && t.value.Node? then Some(if right then t.value.right else t.value.left) else None
  }

  lemma {:induction false} DescendSnoc(t: Tree, k: nat, path: nat)
    ensures Descend(t, k + 1, path) == Child(Descend(t, k, path / 2), path % 2 == 1)
    decreases k
  {
    if k > 0 && t.Node? {
      BitStep(path, k - 1);
      DescendSnoc(if Bit(path, k) then t.right else t.left, k - 1, path);
    }
  }

  lemma {:induction false} DescendLow(t: Tree, k: nat, path: nat, path': nat)
    requires Low(path, k) == Low(path', k)
    ensures Descend(t, k, path) == Descend(t, k, path')
    decreases k
  {
    if k > 0 && t.Node? {
      BitLow(path, path', k, k - 1);
      LowLow(path, k - 1, k);
      LowLow(path', k - 1, k);
      DescendLow(if Bit(path, k - 1) then t.right else t.left, k - 1, path, path');
    }
  }

  lemma {:induction false} DescendHeight(t: Tree, k: nat, path: nat)
    requires Descend(t, k, path).Some?
    ensures k + Height(Descend(t, k, path).value) <= Height(t)
    decreases k
  {
    if k > 0 { DescendHeight(if Bit(path, k - 1) then t.right else t.left, k - 1, path); }
  }

  // ---- the subtree at a place, and at a position ----------------------------------------

  function TreeAtRow(f: Forest, row: nat): Option<Tree> {
    if row < |f.trees| then f.trees[row] else None
  }

  function SubtreeAt(f: Forest, row: nat, off: nat): Option<Tree> {
    if off < Shr(f.leaves, row) then
      var k := RootRow(Shr(f.leaves, row), off);
      var root := TreeAtRow(f, row + k);
      if root.Some? then Descend(root.value, k, off) else None
    else None
  }

  /** The subtree a 64-bit position denotes. Only the low rows + 1 bits matter. */
  function At(f: Forest, pos: nat): Option<Tree> {
    var p := Low(pos, Rows(f) + 1);
    var row := RowOf(p, Rows(f));
    if row <= Rows(f) && RowStart(row, Rows(f)) <= p then SubtreeAt(f, row, p - RowStart(row, Rows(f)))
    else None
  }

  lemma AtLow(f: Forest, pos: nat)
    ensures At(f, pos) == At(f, Low(pos, Rows(f) + 1))
  {
    LowLow(pos, Rows(f) + 1, Rows(f) + 1);
  }

  lemma AtPlace(f: Forest, row: nat, off: nat)
    requires InRow(row, off, Rows(f))
    ensures At(f, Place(row, off, Rows(f))) == SubtreeAt(f, row, off)
  {
    hide SubtreeAt, RowOf, Low, Pow2, RowStart, Rows;
    RowOfPlace(row, off, Rows(f));
    ShrSmall(Place(row, off, Rows(f)), Rows(f) + 1);
  }

  /** The all-ones position, which is its own parent, denotes nothing. */
  lemma AtOnes(f: Forest)
    ensures At(f, Pow2(Rows(f) + 1) - 1) == None
  {
    var rows := Rows(f);
    ShrSmall(Pow2(rows + 1) - 1, rows + 1);
    OnesDownOnes(rows + 1, rows + 1);
  }

  lemma RootRowUp(leaves: nat, off: nat)
    requires off / 2 < leaves / 2
    ensures off < leaves && RootRow(leaves, off) == RootRow(leaves / 2, off / 2) + 1
  {}

  /** A place that is not a root is the left or right child of the place above it. */
  lemma SubtreeStep(f: Forest, row: nat, off: nat)
    requires off / 2 < Shr(f.leaves, row + 1)
    ensures off < Shr(f.leaves, row)
    ensures SubtreeAt(f, row, off) == Child(SubtreeAt(f, row + 1, off / 2), off % 2 == 1)
  {
    hide Shr, RootRow, Descend;
    ShrStep(f.leaves, row);
    var k := RootRow(Shr(f.leaves, row + 1), off / 2);
    RootRowUp(Shr(f.leaves, row), off);
    var root := TreeAtRow(f, row + 1 + k);
    if root.Some? { DescendSnoc(root.value, k, off); }
  }

  /** Whatever stands at the parent of a 64-bit position, its children stand below it. */
  lemma AtChildren(f: Forest, pos: nat)
    requires Rows(f) <= MAX_ROWS
    requires At(f, Parent(pos, Rows(f))).Some?
    ensures At(f, pos) == Child(At(f, Parent(pos, Rows(f))), pos % 2 == 1)
  {
    hide At, SubtreeAt, Parent, RowOf, Low, Shr, Child, Rows;
    var rows := Rows(f);
    LowParity(pos, rows + 1);
    var p := Low(pos, rows + 1);
    Split(pos, rows + 1);
    ParentIs(pos, rows);
    ParentIs(p, rows);
    AtLow(f, Parent(pos, rows));
    AtLow(f, pos);
    AtOnes(f);
    if p >= Pow2(rows + 1) - 2 {
      assert false;
    } else {
      var row, off := PlaceOf(p, rows);
      assert row < rows;
      ParentPlace(row, off, rows);
      AtPlace(f, row, off);
      AtPlace(f, row + 1, off / 2);
      RowStartEven(row, rows);
      SubtreeSome(f, row + 1, off / 2);
      SubtreeStep(f, row, off);
    }
  }

  lemma SubtreeSome(f: Forest, row: nat, off: nat)
    requires SubtreeAt(f, row, off).Some?
    ensures off < Shr(f.leaves, row)
  {}

  /** A root position denotes the tree of its row. */
  lemma AtRoot(f: Forest, p: nat)
    requires Rows(f) <= MAX_ROWS && IsRootPosition(p, f.leaves, Rows(f))
    ensures RowOf(p, Rows(f)) <= Rows(f)
    ensures At(f, p) == TreeAtRow(f, RowOf(p, Rows(f)))
    ensures p == RootPosition(f.leaves, RowOf(p, Rows(f)), Rows(f)) && Bit(f.leaves, RowOf(p, Rows(f)))
  {
    hide At, IsRootPosition, RootPosition, RowOf, Shr, Bit, TreeRows;
    var rows := Rows(f);
    RootBelow(p, f.leaves, rows);
    var row, off := PlaceOf(p, rows);
    TreeRowsBound(f.leaves);
    RootPlace(f.leaves, row, off, rows);
    RootPositionIs(f.leaves, row, rows);
    AtPlace(f, row, off);
    assert Under(f.leaves, row, off, row) by { assert Shr(off, 0) == off by { ShrZero(off); } }
    UnderIff(f.leaves, row, off, row);
  }

  /** A denoting position that is not a root has a parent branch above it and a sibling beside it. */
  lemma AtNonRoot(f: Forest, p: nat)
    requires Rows(f) <= MAX_ROWS && p < Pow2(Rows(f) + 1)
    requires At(f, p).Some? && !IsRootPosition(p, f.leaves, Rows(f))
    ensures p < Parent(p, Rows(f)) < Pow2(Rows(f) + 1)
    ensures At(f, Parent(p, Rows(f))).Some? && At(f, Parent(p, Rows(f))).value.Node?
  {
    hide At, IsRootPosition, SubtreeAt, RowOf, Shr, Bit, TreeRows, Parent, Populated;
    var rows := Rows(f);
    ShrSmall(p, rows + 1);
    AtPopulated(f, p);
    var row, off := PopulatedPlace(f.leaves, p);
    AtPlace(f, row, off);
    PopulatedUp(f.leaves, p);
    TreeRowsBound(f.leaves);
    RootPlace(f.leaves, row, off, rows);
    NonRootStep(f.leaves, row, off, rows);
    ParentPlace(row, off, rows);
    SubtreeStep(f, row, off);
    AtPlace(f, row + 1, off / 2);
  }

  // ---- NodeAt: from a position to a node ------------------------------------------------

  /** The tree of the index-th set bit of the leaf count, counting down from row k - 1. */
  function NthTree(f: Forest, index: nat, k: nat): Option<Tree> {
    if k == 0 then None
    else if !Bit(f.leaves, k - 1) then NthTree(f, index, k - 1)
    else if index == 0 then TreeAtRow(f, k - 1)
    else NthTree(f, index - 1, k - 1)
  }

  lemma {:induction false} NthTreeIs(f: Forest, row: nat, k: nat)
    requires row < k && Bit(f.leaves, row)
    ensures Popcount(Shr(f.leaves, row + 1)) >= Popcount(Shr(f.leaves, k))
    ensures NthTree(f, Popcount(Shr(f.leaves, row + 1)) - Popcount(Shr(f.leaves, k)), k) == TreeAtRow(f, row)
    decreases k
  {
    hide Popcount, Bit;
    if row + 1 < k {
      PopcountStep(f.leaves, k - 1);
      NthTreeIs(f, row, k - 1);
    }
  }

  /** The subtree NodeAt walks to, with DetectOffset choosing the tree, distance and path. */
  function Locate(f: Forest, pos: nat): Option<Tree>
    requires pos < U64 && Rows(f) <= MAX_ROWS
  {
    if f.leaves == 0 then None
    else
      var offset := OffsetOf(pos, f.leaves);
      var root := NthTree(f, offset.treeIndex, Rows(f) + 1);
      if root.None? then None else Descend(root.value, offset.branchLength, Not(offset.pathBits))
  }

  /** On every populated position the fast walk finds exactly the subtree denoted. */
  lemma LocateIs(f: Forest, pos: nat)
    requires pos < U64 && Rows(f) <= MAX_ROWS && Populated(f.leaves, pos)
    ensures Locate(f, pos) == At(f, pos)
  {
    hide RowOf, OffsetOf, NthTree, Shr, Low, TreeRows, Popcount, Bit, Descend, RootRow;
    var rows := Rows(f);
    var p := Low(pos, rows + 1);
    var row := RowOf(p, rows);
    var off := p - RowStart(row, rows);
    OffsetOfIs(pos, f.leaves, row, off);
    var k := RootRow(Shr(f.leaves, row), off);
    UnderIff(f.leaves, row, off, row + k);
    TreeRowsBound(f.leaves);
    RootRowFits(f.leaves, row, off, rows);
    NthTreeIs(f, row + k, rows + 1);
    ShrSmall(f.leaves, rows + 1);
    assert Popcount(0) == 0 by { PopcountZero(); }
    var o := OffsetOf(pos, f.leaves);
    assert f.leaves > 0 by { ShrSmall(0, row); }
    var root := TreeAtRow(f, row + k);
    if root.Some? { DescendLow(root.value, k, Not(o.pathBits), off); }
  }

  lemma PopcountZero()
    ensures Popcount(0) == 0
  {}

  lemma AtPopulated(f: Forest, pos: nat)
    requires At(f, pos).Some?
    ensures Populated(f.leaves, pos)
  {}

  // ---- PositionOf: from a node to a position --------------------------------------------

  /** Follow left/right directions from the root, first direction first. */
  function Follow(t: Tree, path: seq<bool>): Option<Tree> {
    if path == [] then Some(t)
    else match t
      case Leaf(_, _) => None
      case Node(_, l, r) => Follow(if path[0] then r else l, path[1..])
  }

  function PathValue(path: seq<bool>): nat {
    if path == [] then 0
    else 2 * PathValue(path[..|path| - 1]) + (if path[|path| - 1] then 1 else 0)
  }

  lemma {:induction false} FollowSnoc(t: Tree, path: seq<bool>, b: bool)
    ensures Follow(t, path + [b]) == Child(Follow(t, path), b)
    decreases path
  {
    if path == [] {
      assert (path + [b])[1..] == [];
    } else if t.Node? {
      assert (path + [b])[1..] == path[1..] + [b];
      FollowSnoc(if path[0] then t.right else t.left, path[1..], b);
    }
  }

  lemma {:induction false} FollowDescend(t: Tree, path: seq<bool>)
    ensures Descend(t, |path|, PathValue(path)) == Follow(t, path)
    decreases |path|
  {
    if path != [] {
      var init, b := path[..|path| - 1], path[|path| - 1];
      assert path == init + [b];
      FollowDescend(t, init);
      FollowSnoc(t, init, b);
      DescendSnoc(t, |init|, PathValue(path));
    }
  }

  lemma {:induction false} PathValueBound(path: seq<bool>)
    ensures PathValue(path) < Pow2(|path|)
    decreases |path|
  {
    if path != [] { PathValueBound(path[..|path| - 1]); }
  }

  function PathOffset(leaves: nat, rootRow: nat, path: seq<bool>): nat {
    Up(RootOffset(leaves, rootRow), |path|) + PathValue(path)
  }

  /** Position of the node reached along `path` in the tree standing on `rootRow`. */
  function PathPosition(leaves: nat, rootRow: nat, path: seq<bool>): nat
    requires |path| <= rootRow <= TreeRows(leaves)
  {
    Place(rootRow - |path|, PathOffset(leaves, rootRow, path), TreeRows(leaves))
  }

  lemma PathUnder(leaves: nat, rootRow: nat, path: seq<bool>)
    requires |path| <= rootRow && Bit(leaves, rootRow)
    ensures Under(leaves, rootRow - |path|, PathOffset(leaves, rootRow, path), rootRow)
    ensures Low(PathOffset(leaves, rootRow, path), |path|) == PathValue(path)
  {
    PathValueBound(path);
    Unique(RootOffset(leaves, rootRow), PathValue(path), |path|);
  }

  /** The position computed for a node denotes that node: NodeAt undoes PositionOf. */
  lemma PathRoundTrip(f: Forest, rootRow: nat, path: seq<bool>)
    requires WellFormed(f) && rootRow < ROWS && f.trees[rootRow].Some?
    requires Follow(f.trees[rootRow].value, path).Some?
    ensures |path| <= rootRow <= Rows(f)
    ensures InRow(rootRow - |path|, PathOffset(f.leaves, rootRow, path), Rows(f))
    ensures PathPosition(f.leaves, rootRow, path) < Pow2(Rows(f) + 1) <= U64
    ensures At(f, PathPosition(f.leaves, rootRow, path)) == Follow(f.trees[rootRow].value, path)
    ensures Locate(f, PathPosition(f.leaves, rootRow, path)) == Follow(f.trees[rootRow].value, path)
  {
    hide Low, Shr, Bit, TreeRows, Follow, Descend, PathOffset, PathValue, At, Locate, RootRow, Height, Populated;
    var t := f.trees[rootRow].value;
    var v := PathValue(path);
    FollowDescend(t, path);
    DescendHeight(t, |path|, v);
    PathUnder(f.leaves, rootRow, path);
    var row, off := rootRow - |path|, PathOffset(f.leaves, rootRow, path);
    UnderIff(f.leaves, row, off, rootRow);
    TreeRowsBound(f.leaves);
    PopulatedInRow(f.leaves, row, off, Rows(f));
    RootRowFits(f.leaves, row, off, Rows(f));
    AtPlace(f, row, off);
    DescendLowValue(t, |path|, off, v);
    RowOfPlace(row, off, Rows(f));
    AtPopulated(f, Place(row, off, Rows(f)));
    Pow2Word(Rows(f) + 1);
    LocateIs(f, Place(row, off, Rows(f)));
  }

  lemma DescendLowValue(t: Tree, k: nat, off: nat, v: nat)
    requires Low(off, k) == v
    ensures Descend(t, k, off) == Descend(t, k, v)
  {
    LowLow(off, k, k);
    DescendLow(t, k, off, v);
  }
}
