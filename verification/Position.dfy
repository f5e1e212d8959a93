/** Bit-encoded forest positions (src/position.cpp). A forest of n leaves has R = TreeRows(n)
    rows above its leaves; row r starts at 2^(R+1) - 2^(R+1-r) and holds 2^(R-r) places. */
module Position {
  import opened Bits

  /** Shifts in RootPosition stay below the register width up to this many rows. */
  const MAX_ROWS: nat := 62

  function TreeRows(leaves: nat): nat {
    if leaves == 0 then 0 else BitWidth(leaves - 1)
  }

  /** Consecutive ones of `pos` from bit k-1 downwards. */
  function OnesDown(pos: nat, k: nat): (r: nat)
    ensures r <= k
  {
    if k == 0 || !Bit(pos, k - 1) then 0 else 1 + OnesDown(pos, k - 1)
  }

  function RowOf(pos: nat, forestRows: nat): nat { OnesDown(pos, forestRows + 1) }

  method DetectRow(pos: nat, forestRows: nat) returns (row: nat)
    requires forestRows <= 63
    ensures row == RowOf(pos, forestRows)
  {
    var marker := Shl(1, forestRows);
    ShlOne(forestRows);
    row := 0;
    ghost var k := forestRows + 1;
    while And(pos, marker) != 0
      invariant 0 <= k && row + k == forestRows + 1
      invariant marker == if k == 0 then 0 else Pow2(k - 1)
      invariant row + OnesDown(pos, k) == RowOf(pos, forestRows)
      decreases marker
    {
      AndBit(pos, k - 1);
      marker := marker / 2;
      row := row + 1;
      k := k - 1;
    }
    if k > 0 { AndBit(pos, k - 1); }
  }

  function Mask(forestRows: nat): nat
    requires forestRows <= 63
  { Sub(Shl(2, forestRows), 1) }

  function LeftChild(pos: nat, forestRows: nat): nat
    requires forestRows <= 63
  { And(Shl(pos, 1), Mask(forestRows)) }

  function RightChild(pos: nat, forestRows: nat): nat
    requires forestRows <= 63
  { LeftChild(pos, forestRows) + 1 }

  function Parent(pos: nat, forestRows: nat): nat
    requires forestRows <= 63
  { Or(Shr(pos, 1), Shl(1, forestRows)) }

  function Sibling(pos: nat): nat { Xor(pos, 1) }

  function RootPosition(leaves: nat, row: nat, forestRows: nat): nat
    requires row <= forestRows <= MAX_ROWS
  {
    var mask := Mask(forestRows);
    var before := And(leaves, Shl(mask, row + 1));
    var shifted := Or(Shr(before, row), Shl(mask, forestRows + 1 - row));
    And(shifted, mask)
  }

  predicate IsRootPosition(pos: nat, leaves: nat, forestRows: nat)
    requires forestRows <= MAX_ROWS
  {
    var row := RowOf(pos, forestRows);
    // A position of all ones has row forestRows + 1, where no tree can stand.
    && row <= forestRows
    && And(leaves, Shl(1, row)) != 0
    && RootPosition(leaves, row, forestRows) == pos
  }

  // ---- rows and offsets -----------------------------------------------------------------

  function RowStart(row: nat, rows: nat): nat
    requires row <= rows + 1
  {
    Pow2Mono(rows + 1 - row, rows + 1);
    Pow2(rows + 1) - Pow2(rows + 1 - row)
  }

  predicate InRow(row: nat, off: nat, rows: nat) {
    row <= rows && off < Pow2(rows - row)
  }

  function Place(row: nat, off: nat, rows: nat): nat
    requires row <= rows + 1
  { RowStart(row, rows) + off }

  lemma MaskIs(rows: nat)
    requires rows <= MAX_ROWS
    ensures Mask(rows) == Pow2(rows + 1) - 1 < U64
    ensures Shl(2, rows) == Pow2(rows + 1) && Shl(1, rows) == Pow2(rows)
  {
    UpDouble(1, rows);
    Pow2Word(rows + 1);
    ShlOne(rows);
  }

  lemma {:induction false} OnesDownLow(x: nat, y: nat, k: nat)
    requires Low(x, k) == Low(y, k)
    ensures OnesDown(x, k) == OnesDown(y, k)
  {
    if k > 0 {
      BitLow(x, y, k, k - 1);
      LowLow(x, k - 1, k); LowLow(y, k - 1, k);
      OnesDownLow(x, y, k - 1);
    }
  }

  lemma {:induction false} RowOfPlace(row: nat, off: nat, rows: nat)
    requires InRow(row, off, rows)
    ensures RowOf(Place(row, off, rows), rows) == row
    ensures Place(row, off, rows) < Pow2(rows + 1) - 1
    decreases row
  {
    var p := Place(row, off, rows);
    if row == 0 {
      ShrSmall(p, rows);
      assert !Bit(p, rows);
    } else {
      var q := Place(row - 1, off, rows - 1);
      RowOfPlace(row - 1, off, rows - 1);
      assert p == Pow2(rows) + q;
      Unique(1, q, rows);
      ShrSmall(q, rows);
      OnesDownLow(p, q, rows);
    }
  }

  /** Every position below the all-ones one is a place in its row. */
  lemma {:induction false} Decode(p: nat, rows: nat)
    requires p < Pow2(rows + 1) - 1
    ensures RowOf(p, rows) <= rows
    ensures RowStart(RowOf(p, rows), rows) <= p
    ensures InRow(RowOf(p, rows), p - RowStart(RowOf(p, rows), rows), rows)
    decreases rows
  {
    if p < Pow2(rows) {
      ShrSmall(p, rows);
    } else {
      var q := p - Pow2(rows);
      assert rows > 0;
      Decode(q, rows - 1);
      Unique(1, q, rows);
      ShrSmall(q, rows);
      OnesDownLow(p, q, rows);
    }
  }

  lemma ParentIs(pos: nat, rows: nat)
    requires rows <= MAX_ROWS
    ensures pos < Pow2(rows + 1) ==> Parent(pos, rows) == Pow2(rows) + pos / 2
    ensures Low(Parent(pos, rows), rows + 1) == Parent(Low(pos, rows + 1), rows)
    ensures pos < U64 ==> Parent(pos, rows) < U64
  {
    MaskIs(rows);
    assert Shr(pos, 1) == pos / 2;
    OrBit(pos / 2, rows);
    ShrBelowOr(pos / 2, rows);
    var q := Low(pos, rows + 1);
    Split(pos, rows + 1);
    assert Shr(q, 1) == q / 2 == Low(pos / 2, rows);
    Split(pos / 2, rows);
    OrBit(q / 2, rows);
    ShrSmall(q / 2, rows);
    if pos < Pow2(rows + 1) { ShrSmall(pos / 2, rows); }
    LowBit(Parent(pos, rows), rows);
    BitOr(pos / 2, rows);
    Pow2Word(rows + 1);
  }

  /** Setting bit k keeps the bits below it. */
  lemma {:induction false} BitOr(x: nat, k: nat)
    ensures Bit(Or(x, Pow2(k)), k)
    ensures Low(Or(x, Pow2(k)), k) == Low(x, k)
    decreases k
  {
    if k > 0 { BitOr(x / 2, k - 1); } else { OrOne(x); }
  }

  lemma {:induction false} ShrBelowOr(x: nat, k: nat)
    requires k < 63
    ensures x < U64 / 2 ==> Or(x, Pow2(k)) < U64
  {
    OrBit(x, k);
    Pow2Word(k);
  }

  lemma ParentPlace(row: nat, off: nat, rows: nat)
    requires InRow(row, off, rows) && row < rows <= MAX_ROWS
    ensures Parent(Place(row, off, rows), rows) == Place(row + 1, off / 2, rows)
    ensures InRow(row + 1, off / 2, rows)
  {
    RowOfPlace(row, off, rows);
    ParentIs(Place(row, off, rows), rows);
  }

  lemma ChildPlace(row: nat, off: nat, rows: nat)
    requires InRow(row, off, rows) && 0 < row && rows <= MAX_ROWS
    ensures LeftChild(Place(row, off, rows), rows) == Place(row - 1, 2 * off, rows)
    ensures RightChild(Place(row, off, rows), rows) == Place(row - 1, 2 * off + 1, rows)
    ensures InRow(row - 1, 2 * off + 1, rows)
  {
    var p := Place(row, off, rows);
    RowOfPlace(row, off, rows);
    MaskIs(rows);
    AndMask(Shl(p, 1), rows + 1);
    assert Up(p, 1) == 2 * p;
    Pow2Word(rows + 1);
    WordIsLow(2 * p);
    LowLow(2 * p, rows + 1, 64);
    var q := Place(row - 1, 2 * off, rows);
    assert 2 * p == Pow2(rows + 1) + q;
    RowOfPlace(row - 1, 2 * off, rows);
    Unique(1, q, rows + 1);
  }

  lemma SiblingPlace(row: nat, off: nat, rows: nat)
    requires InRow(row, off, rows) && row < rows
    ensures Sibling(Place(row, off, rows)) == Place(row, Sibling(off), rows)
    ensures InRow(row, Sibling(off), rows) && Sibling(off) / 2 == off / 2
  {
    XorOne(Place(row, off, rows));
    XorOne(off);
    assert RowStart(row, rows) % 2 == 0;
  }

  /** Offset, in its row, of the root of the tree that stands for bit `row` of the leaf count. */
  function RootOffset(leaves: nat, row: nat): nat { 2 * Shr(leaves, row + 1) }

  lemma RootBefore(leaves: nat, row: nat, rows: nat)
    requires row <= rows <= MAX_ROWS && leaves <= Pow2(rows)
    ensures And(leaves, Shl(Mask(rows), row + 1)) == Up(Shr(leaves, row + 1), row + 1)
  {
    hide And, Shl, Shr, Low, Up, Mask;
    MaskIs(rows);
    var m := if rows + row + 2 <= 64 then rows + 1 else 63 - row;
    ShlOnes(rows + 1, row + 1);
    AndOnesShifted(leaves, m, row + 1);
    assert Low(Shr(leaves, row + 1), m) == Shr(leaves, row + 1) by {
      Pow2Mono(rows, m + row + 1);
      ShrBelow(leaves, row + 1, m);
      ShrSmall(Shr(leaves, row + 1), m);
    }
  }

  lemma RootShifted(o: nat, row: nat, rows: nat)
    requires row <= rows <= MAX_ROWS && o < Pow2(rows + 1 - row)
    ensures And(Or(o, Shl(Mask(rows), rows + 1 - row)), Mask(rows)) == Place(row, o, rows)
  {
    hide And, Or, Up;
    var s := rows + 1 - row;
    var m := if rows + 1 + s <= 64 then rows + 1 else 64 - s;
    var shifted := Up(Pow2(m) - 1, s) + o;
    MaskIs(rows);
    assert Or(o, Shl(Mask(rows), s)) == shifted by {
      ShlOnes(rows + 1, s);
      OrDisjoint(Pow2(m) - 1, o, s);
    }
    AndMask(shifted, rows + 1);
    LowUpOnes(m, o, row, s);
  }

  lemma RootPositionIs(leaves: nat, row: nat, rows: nat)
    requires row <= rows <= MAX_ROWS && leaves <= Pow2(rows)
    ensures RootPosition(leaves, row, rows) == Place(row, RootOffset(leaves, row), rows)
  {
    hide And, Shl, Shr, Or, Mask, Up;
    RootBefore(leaves, row, rows);
    var high, o := Shr(leaves, row + 1), RootOffset(leaves, row);
    UpDouble(high, row);
    Unique(o, 0, row);
    Pow2Mono(rows, rows + 1);
    ShrBelow(leaves, row + 1, rows - row);
    Pow2Mono(rows - row, rows + 1 - row);
    RootShifted(o, row, rows);
  }

  lemma ShrZero(x: nat)
    ensures Shr(x, 0) == x
  {}

  lemma PlaceOf(p: nat, rows: nat) returns (row: nat, off: nat)
    requires p < Pow2(rows + 1) - 1
    ensures InRow(row, off, rows) && p == Place(row, off, rows) && row == RowOf(p, rows)
  {
    Decode(p, rows);
    row := RowOf(p, rows);
    off := p - RowStart(row, rows);
  }

  /** Among the places of the rows, the root positions are the root offsets of set bits. */
  lemma RootPlace(leaves: nat, row: nat, off: nat, rows: nat)
    requires rows <= MAX_ROWS && leaves <= Pow2(rows) && InRow(row, off, rows)
    ensures IsRootPosition(Place(row, off, rows), leaves, rows)
       <==> Bit(leaves, row) && off == RootOffset(leaves, row)
  {
    hide And, Shl, RootPosition, RowOf, Bit;
    RowOfPlace(row, off, rows);
    ShlOne(row);
    AndBit(leaves, row);
    RootPositionIs(leaves, row, rows);
  }

  lemma RootBelow(p: nat, leaves: nat, rows: nat)
    requires rows <= MAX_ROWS && IsRootPosition(p, leaves, rows)
    ensures p < Pow2(rows + 1) - 1
  {
    hide Pow2, OnesDown, RootPosition;
    RootMasked(leaves, RowOf(p, rows), rows);
    OnesDownOnes(rows + 1, rows + 1);
  }

  lemma RootMasked(leaves: nat, row: nat, rows: nat)
    requires row <= rows <= MAX_ROWS
    ensures RootPosition(leaves, row, rows) < Pow2(rows + 1)
  {
    hide Pow2, And, Or, Shl, Shr, Mask;
    MaskIs(rows);
    var mask := Mask(rows);
    var before := And(leaves, Shl(mask, row + 1));
    var shifted := Or(Shr(before, row), Shl(mask, rows + 1 - row));
    AndMask(shifted, rows + 1);
    Split(shifted, rows + 1);
  }

  lemma {:induction false} OnesDownOnes(k: nat, m: nat)
    requires k <= m
    ensures OnesDown(Pow2(m) - 1, k) == k
    decreases k
  {
    if k > 0 {
      OnesDownOnes(k - 1, m);
      BitNot(0, m, k - 1);
      ShrSmall(0, k - 1);
    }
  }

  // ---- which tree a place stands under --------------------------------------------------

  /** Place (row, off) lies under the root of the tree that stands for bit `rootRow`. */
  predicate Under(leaves: nat, row: nat, off: nat, rootRow: nat) {
    Bit(leaves, rootRow) && row <= rootRow && Shr(off, rootRow - row) == RootOffset(leaves, rootRow)
  }

  /** Height of the tree that holds leaf `off` of a forest of `leaves` leaves. */
  function RootRow(leaves: nat, off: nat): nat
    requires off < leaves
  {
    if leaves % 2 == 1 && off == leaves - 1 then 0 else 1 + RootRow(leaves / 2, off / 2)
  }

  lemma {:induction false} UnderLeaf(leaves: nat, off: nat, k: nat)
    ensures Bit(leaves, k) && Shr(off, k) == RootOffset(leaves, k)
       <==> off < leaves && k == RootRow(leaves, off)
    decreases k
  {
    if k == 0 {
      assert Shr(leaves, 1) == leaves / 2;
    } else {
      UnderLeaf(leaves / 2, off / 2, k - 1);
      assert Shr(off, k) == Shr(off / 2, k - 1) && RootOffset(leaves, k) == RootOffset(leaves / 2, k - 1);
      assert off / 2 < leaves / 2 ==> off < leaves && !(leaves % 2 == 1 && off == leaves - 1);
    }
  }

  /** A place lies under some root exactly when it is populated, and then under one only. */
  lemma UnderIff(leaves: nat, row: nat, off: nat, rootRow: nat)
    ensures Under(leaves, row, off, rootRow)
       <==> row <= rootRow && off < Shr(leaves, row) && rootRow == row + RootRow(Shr(leaves, row), off)
  {
    if row <= rootRow {
      var k := rootRow - row;
      UnderLeaf(Shr(leaves, row), off, k);
      BitShr(leaves, row, k);
      ShrAdd(leaves, row, k + 1);
    }
  }

  lemma RootRowFits(leaves: nat, row: nat, off: nat, rows: nat)
    requires leaves <= Pow2(rows) && off < Shr(leaves, row)
    ensures row + RootRow(Shr(leaves, row), off) <= rows
  {
    var rr := row + RootRow(Shr(leaves, row), off);
    UnderIff(leaves, row, off, rr);
    if rr > rows {
      Pow2Mono(rows, rr);
      ShrSmall(leaves, rr);
      assert false;
    }
  }

  /** Places outside the row are never populated. */
  lemma PopulatedInRow(leaves: nat, row: nat, off: nat, rows: nat)
    requires leaves <= Pow2(rows) && off < Shr(leaves, row)
    ensures InRow(row, off, rows)
  {
    if row > rows {
      Pow2Mono(rows, row);
      ShrSmall(leaves, row);
      assert false;
    } else {
      ShrMono(leaves, Pow2(rows), row);
      UpUp(1, rows - row, row);
      Unique(Pow2(rows - row), 0, row);
    }
  }

  lemma TreeRowsBound(leaves: nat)
    ensures leaves <= Pow2(TreeRows(leaves))
    ensures leaves > 1 ==> Pow2(TreeRows(leaves) - 1) < leaves
  {
    if leaves > 0 { BitWidthBounds(leaves - 1); }
  }

  lemma NonRootStep(leaves: nat, row: nat, off: nat, rows: nat)
    requires leaves <= Pow2(rows) && off < Shr(leaves, row)
    requires !(Bit(leaves, row) && off == RootOffset(leaves, row))
    ensures row < rows && off / 2 < Shr(leaves, row + 1)
  {
    var m := Shr(leaves, row);
    UnderIff(leaves, row, off, row);
    ShrZero(off);
    RootRowFits(leaves, row, off, rows);
    ShrStep(leaves, row);
    assert RootRow(m, off) > 0;
  }

  /** A 64-bit position lies under some root of the forest. */
  predicate Populated(leaves: nat, pos: nat) {
    var rows := TreeRows(leaves);
    var p := Low(pos, rows + 1);
    var row := RowOf(p, rows);
    row <= rows && RowStart(row, rows) <= p && p - RowStart(row, rows) < Shr(leaves, row)
  }

  lemma PopulatedPlace(leaves: nat, p: nat) returns (row: nat, off: nat)
    requires p < Pow2(TreeRows(leaves) + 1) && Populated(leaves, p)
    ensures InRow(row, off, TreeRows(leaves)) && p == Place(row, off, TreeRows(leaves))
    ensures off < Shr(leaves, row) && row == RowOf(p, TreeRows(leaves))
  {
    hide RowOf, Shr, TreeRows;
    var rows := TreeRows(leaves);
    ShrSmall(p, rows + 1);
    TreeRowsBound(leaves);
    row := RowOf(p, rows);
    off := p - RowStart(row, rows);
    PopulatedInRow(leaves, row, off, rows);
  }

  lemma PlacePopulated(leaves: nat, row: nat, off: nat)
    requires off < Shr(leaves, row)
    ensures InRow(row, off, TreeRows(leaves))
    ensures Populated(leaves, Place(row, off, TreeRows(leaves)))
  {
    hide RowOf, Shr, TreeRows, Low, RowStart, Pow2;
    TreeRowsBound(leaves);
    PopulatedInRow(leaves, row, off, TreeRows(leaves));
    RowOfPlace(row, off, TreeRows(leaves));
    ShrSmall(Place(row, off, TreeRows(leaves)), TreeRows(leaves) + 1);
  }

  /** Above and beside a populated position that is not a root, the forest is populated too. */
  lemma PopulatedUp(leaves: nat, p: nat)
    requires TreeRows(leaves) <= MAX_ROWS && p < Pow2(TreeRows(leaves) + 1)
    requires Populated(leaves, p) && !IsRootPosition(p, leaves, TreeRows(leaves))
    ensures p < Parent(p, TreeRows(leaves)) < Pow2(TreeRows(leaves) + 1)
    ensures Populated(leaves, Parent(p, TreeRows(leaves)))
    ensures Sibling(p) < Pow2(TreeRows(leaves) + 1) && Populated(leaves, Sibling(p))
    ensures Parent(Sibling(p), TreeRows(leaves)) == Parent(p, TreeRows(leaves))
    ensures !IsRootPosition(Sibling(p), leaves, TreeRows(leaves))
  {
    hide RowOf, Shr, TreeRows, Populated, IsRootPosition, Parent, Sibling, Bit, RowStart;
    var rows := TreeRows(leaves);
    var row, off := PopulatedPlace(leaves, p);
    TreeRowsBound(leaves);
    RootPlace(leaves, row, off, rows);
    NonRootStep(leaves, row, off, rows);
    ParentPlace(row, off, rows);
    PlacePopulated(leaves, row + 1, off / 2);
    RowOfPlace(row + 1, off / 2, rows);
    SiblingPlace(row, off, rows);
    ShrStep(leaves, row);
    PlacePopulated(leaves, row, Sibling(off));
    RowOfPlace(row, Sibling(off), rows);
    ParentPlace(row, Sibling(off), rows);
    RootPlace(leaves, row, Sibling(off), rows);
    SiblingNotRoot(leaves, row, off);
    ParentIs(p, rows);
  }

  lemma SiblingNotRoot(leaves: nat, row: nat, off: nat)
    requires off / 2 < Shr(leaves, row + 1)
    ensures Sibling(off) != RootOffset(leaves, row)
  {
    XorOne(off);
  }

  /** The sibling of a root lies under no root. */
  lemma RootSibling(leaves: nat, q: nat)
    requires TreeRows(leaves) <= MAX_ROWS && IsRootPosition(q, leaves, TreeRows(leaves))
    ensures !Populated(leaves, Sibling(q)) && Populated(leaves, q)
  {
    hide RowOf, Shr, TreeRows, Populated, IsRootPosition, Bit, RowStart;
    var rows := TreeRows(leaves);
    RootBelow(q, leaves, rows);
    var row, off := PlaceOf(q, rows);
    TreeRowsBound(leaves);
    RootPlace(leaves, row, off, rows);
    RootEven(leaves, row);
    PlacePopulated(leaves, row, off);
    if Populated(leaves, Sibling(q)) {
      RowStartEven(row, rows);
      XorOne(q);
      var row', off' := PopulatedPlace(leaves, Sibling(q));
      if row == rows {
        RowOfPlace(row', off', rows);
        TopOffset(rows, off);
        assert false;
      } else {
        SiblingPlace(row, off, rows);
        XorOne(off);
        RowOfPlace(row, Sibling(off), rows);
        assert false;
      }
    }
  }

  lemma TopOffset(rows: nat, off: nat)
    requires InRow(rows, off, rows)
    ensures Place(rows, off, rows) == Pow2(rows + 1) - 2
  {}

  lemma RootEven(leaves: nat, row: nat)
    requires Bit(leaves, row)
    ensures RootOffset(leaves, row) % 2 == 0 && RootOffset(leaves, row) + 1 == Shr(leaves, row)
  {
    ShrStep(leaves, row);
  }

  lemma RowStartEven(row: nat, rows: nat)
    requires row <= rows
    ensures RowStart(row, rows) % 2 == 0
  {}

  // ---- DetectOffset ---------------------------------------------------------------------

  datatype Offset = Offset(treeIndex: nat, branchLength: nat, pathBits: nat)

  /** The loop guard of DetectOffset. */
  predicate Skips(marker: nat, treeRows: nat, nodeRow: nat, leaves: nat)
    requires treeRows <= MAX_ROWS
  {
    treeRows > nodeRow
    && And(Shl(marker, nodeRow), Mask(treeRows)) >= And(Shl(1, treeRows), leaves)
  }

  function TreeSize(treeRows: nat, leaves: nat): nat
    requires treeRows <= MAX_ROWS
    ensures TreeSize(treeRows, leaves) < U64
  {
    MaskIs(treeRows);
    AndBitCommuted(treeRows, leaves);
    And(Shl(1, treeRows), leaves)
  }

  lemma {:induction false} AndSwap(x: nat, y: nat)
    ensures And(x, y) == And(y, x)
    decreases x
  {
    if x > 0 && y > 0 { AndSwap(x / 2, y / 2); }
  }

  lemma AndBitCommuted(k: nat, x: nat)
    ensures And(Pow2(k), x) == if Bit(x, k) then Pow2(k) else 0
  {
    AndSwap(Pow2(k), x);
    AndBit(x, k);
  }

  function OffsetFrom(marker: nat, treeRows: nat, nodeRow: nat, leaves: nat, bigger: nat): (o: Offset)
    requires marker < U64 && nodeRow <= treeRows <= MAX_ROWS
    ensures o.pathBits < U64 && o.branchLength <= treeRows - nodeRow
    decreases treeRows
  {
    if Skips(marker, treeRows, nodeRow, leaves) then
      var size := TreeSize(treeRows, leaves);
      OffsetFrom(Sub(marker, size), treeRows - 1, nodeRow, leaves, if size != 0 then bigger + 1 else bigger)
    else
      Offset(bigger, treeRows - nodeRow, Not(marker))
  }

  function OffsetOf(pos: nat, leaves: nat): (o: Offset)
    requires pos < U64 && TreeRows(leaves) <= MAX_ROWS
    ensures o.pathBits < U64 && o.branchLength <= TreeRows(leaves)
  {
    var treeRows := TreeRows(leaves);
    var nodeRow := RowOf(pos, treeRows);
    if nodeRow > treeRows then Offset(0, 0, Not(pos))
    else OffsetFrom(pos, treeRows, nodeRow, leaves, 0)
  }

  method DetectOffset(pos: nat, leaves: nat) returns (offset: Offset)
    requires pos < U64 && TreeRows(leaves) <= MAX_ROWS
    ensures offset == OffsetOf(pos, leaves)
  {
    hide And, Shl, TreeRows, RowOf;
    var treeRows: nat := TreeRows(leaves);
    var nodeRow := DetectRow(pos, treeRows);
    var biggerTrees: nat := 0;
    var marker: nat := pos;
    if nodeRow > treeRows { return Offset(0, 0, Not(marker)); }
    while Skips(marker, treeRows, nodeRow, leaves)
      invariant marker < U64 && nodeRow <= treeRows <= MAX_ROWS
      invariant OffsetFrom(marker, treeRows, nodeRow, leaves, biggerTrees) == OffsetOf(pos, leaves)
      decreases treeRows
    {
      var treeSize := TreeSize(treeRows, leaves);
      if treeSize != 0 {
        marker := Sub(marker, treeSize);
        biggerTrees := biggerTrees + 1;
      }
      treeRows := treeRows - 1;
    }
    return Offset(biggerTrees, treeRows - nodeRow, Not(marker));
  }

  /** The guard compares one bit of the leaf count with one bit of the place. */
  lemma SkipsIs(marker: nat, treeRows: nat, nodeRow: nat, leaves: nat)
    requires nodeRow < treeRows <= MAX_ROWS
    ensures Skips(marker, treeRows, nodeRow, leaves)
       <==> (Bit(leaves, treeRows) ==> Bit(marker, treeRows - nodeRow))
  {
    hide And, Shl, Mask, Low, Bit, Shr;
    var b := treeRows - nodeRow;
    MaskIs(treeRows);
    AndBitCommuted(treeRows, leaves);
    var low := Low(marker, b);
    assert And(Shl(marker, nodeRow), Mask(treeRows)) == Up(Low(marker, b + 1), nodeRow) by {
      hide And, Up, Shl;
      AndMask(Shl(marker, nodeRow), treeRows + 1);
      LowShl(marker, nodeRow, treeRows + 1);
    }
    LowBit(marker, b);
    Split(marker, b);
    UpBelow(low, nodeRow, b);
    UpAdd(Pow2(b), low, nodeRow);
    UpUp(1, b, nodeRow);
  }

  lemma LowShl(x: nat, k: nat, m: nat)
    requires k <= m <= 64
    ensures Low(Shl(x, k), m) == Up(Low(x, m - k), k)
  {
    hide Low, Up;
    WordIsLow(Up(x, k));
    LowLow(Up(x, k), m, 64);
    LowUp(x, 0, m - k, k);
  }

  /** Above the root of its tree, a place and the leaf count have the same bits; at the root
      they differ. */
  lemma BitsAboveRoot(leaves: nat, off: nat, b: nat)
    requires off < leaves && RootRow(leaves, off) <= b
    ensures b > RootRow(leaves, off) ==> Bit(leaves, b) == Bit(off, b)
    ensures b == RootRow(leaves, off) ==> Bit(leaves, b) && !Bit(off, b)
  {
    hide RootRow, Shr;
    var k := RootRow(leaves, off);
    UnderLeaf(leaves, off, k);
    ShrStep(off, k);
    if b > k {
      ShrAdd(leaves, k + 1, b - k - 1);
      ShrAdd(off, k + 1, b - k - 1);
    }
  }

  /** Below the all-ones position, the loop finds the tree, the distance and the path of any
      populated place. */
  lemma {:induction false} OffsetFromIs(marker: nat, treeRows: nat, nodeRow: nat, leaves: nat, off: nat)
    requires marker < U64 && nodeRow <= treeRows <= MAX_ROWS
    requires off < Shr(leaves, nodeRow)
    requires nodeRow + RootRow(Shr(leaves, nodeRow), off) <= treeRows
    requires Low(marker, treeRows - nodeRow + 1) == Low(off, treeRows - nodeRow + 1)
    ensures var o := OffsetFrom(marker, treeRows, nodeRow, leaves, Popcount(Shr(leaves, treeRows + 1)));
            var k := RootRow(Shr(leaves, nodeRow), off);
            && o.branchLength == k
            && o.treeIndex == Popcount(Shr(leaves, nodeRow + k + 1))
            && o.pathBits < U64
            && Low(Not(o.pathBits), k) == Low(off, k)
    decreases treeRows
  {
    hide And, Shl, Low, Shr, Bit, Popcount, RootRow, Mask;
    var b := treeRows - nodeRow;
    var k := RootRow(Shr(leaves, nodeRow), off);
    BitLow(marker, off, b + 1, b);
    BitShr(leaves, nodeRow, b);
    BitsAboveRoot(Shr(leaves, nodeRow), off, b);
    if b > 0 { SkipsIs(marker, treeRows, nodeRow, leaves); }
    LowLow(marker, b, b + 1);
    LowLow(off, b, b + 1);
    if b > k {
      PopcountStep(leaves, treeRows);
      MaskIs(treeRows);
      AndBitCommuted(treeRows, leaves);
      LowSub(marker, b, treeRows);
      OffsetFromIs(Sub(marker, TreeSize(treeRows, leaves)), treeRows - 1, nodeRow, leaves, off);
    } else {
      assert !Skips(marker, treeRows, nodeRow, leaves);
    }
  }

  /** What DetectOffset answers for every populated place, however high the bits above it. */
  lemma OffsetOfIs(pos: nat, leaves: nat, row: nat, off: nat)
    requires pos < U64 && TreeRows(leaves) <= MAX_ROWS
    requires off < Shr(leaves, row)
    requires row <= TreeRows(leaves)
    requires Low(pos, TreeRows(leaves) + 1) == Place(row, off, TreeRows(leaves))
    ensures var o := OffsetOf(pos, leaves);
            var k := RootRow(Shr(leaves, row), off);
            && o.branchLength == k
            && o.treeIndex == Popcount(Shr(leaves, row + k + 1))
            && o.pathBits < U64
            && Low(Not(o.pathBits), k) == Low(off, k)
  {
    hide And, Shl, Low, Shr, Bit, RootRow, OnesDown, OffsetFrom, TreeRows, Pow2, Popcount, Place;
    var rows := TreeRows(leaves);
    TreeRowsBound(leaves);
    PopulatedInRow(leaves, row, off, rows);
    RootRowFits(leaves, row, off, rows);
    RowOfPlace(row, off, rows);
    var p := Place(row, off, rows);
    ShrSmall(p, rows + 1);
    OnesDownLow(pos, p, rows + 1);
    LowOfPlace(pos, row, off, rows);
    NoTreesAbove(leaves, rows);
    OffsetFromIs(pos, rows, row, leaves, off);
  }

  lemma LowOfPlace(pos: nat, row: nat, off: nat, rows: nat)
    requires InRow(row, off, rows) && Low(pos, rows + 1) == Place(row, off, rows)
    ensures Low(pos, rows + 1 - row) == Low(off, rows + 1 - row)
  {
    hide Low, Pow2, Up;
    var s := rows + 1 - row;
    LowLow(pos, s, rows + 1);
    UpOnes(row, s);
    LowUpBelow(Pow2(row) - 1, off, s, s);
  }

  lemma NoTreesAbove(leaves: nat, rows: nat)
    requires leaves <= Pow2(rows)
    ensures Popcount(Shr(leaves, rows + 1)) == 0
  {
    hide Shr;
    ShrSmall(leaves, rows + 1);
  }
}
