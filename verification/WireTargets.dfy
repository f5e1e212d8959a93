/** Translation of proof targets to positions of a 63-row forest, the form the wire uses
    (MeasureUtreexoProof in src/p2p.cpp). */
module WireTargets {
  import opened Common
  import opened Bits
  import opened Position

  const WIRE_ROWS: nat := 63

  /** std::countl_one on 64 bits. */
  function LeadingOnes(x: nat): nat { OnesDown(x, 64) }

  function WireMask(rows: nat): nat
    requires rows <= 63
  {
    if rows == 63 then U64 - 1 else Sub(Shl(1, rows + 1), 1)
  }

  function Translate(leaves: nat, target: nat): Result<nat>
    requires target < U64
  {
    var rows := TreeRows(leaves);
    if leaves > Pow2(63) || rows > 63 then Err("unsupported forest leaf count")
    else
      var mask := WireMask(rows);
      if target >= mask then Err("block target outside forest position space")
      else
        var row := LeadingOnes(Shl(target, 63 - rows));
        var start := Xor(mask, Shr(mask, row));
        // The row starts at or below the target, so the subtraction never wraps.
        if start > target || target - start >= Shr(leaves, row) then Err("block target outside populated forest")
        else
          var wire: nat := (Xor(U64 - 1, Shr(U64 - 1, row)) + (target - start)) % U64;
          Ok(wire)
  }

  // ---- closed forms ---------------------------------------------------------------------

  lemma LeavesFit(leaves: nat)
    requires leaves <= Pow2(63)
    ensures TreeRows(leaves) <= 63
  {
    if leaves > 1 {
      TreeRowsBound(leaves);
      if TreeRows(leaves) > 63 { Pow2Mono(63, TreeRows(leaves) - 1); }
    }
  }

  lemma WireMaskIs(rows: nat)
    requires rows <= 63
    ensures WireMask(rows) == Pow2(rows + 1) - 1 < U64
  {
    hide Pow2, Shl;
    Pow2Word(rows + 1);
    if rows < 63 { ShlOne(rows + 1); }
  }

  /** Shifting to the top of the register keeps the run of ones, once it ends inside. */
  lemma {:induction false} OnesShifted(x: nat, k: nat, a: nat)
    requires OnesDown(x, k) < k
    ensures OnesDown(Up(x, a), k + a) == OnesDown(x, k)
    decreases k
  {
    hide Up;
    Unique(x, 0, a);
    BitShr(Up(x, a), a, k - 1);
    assert a + (k - 1) == k + a - 1;
    if Bit(x, k - 1) { OnesShifted(x, k - 1, a); }
  }

  lemma LeadingOnesIs(target: nat, rows: nat)
    requires rows <= 63 && target < Pow2(rows + 1) - 1
    ensures LeadingOnes(Shl(target, 63 - rows)) == RowOf(target, rows) <= rows
  {
    hide Up, OnesDown, Pow2;
    Decode(target, rows);
    UpBelow(target, 63 - rows, rows + 1);
    Pow2Word(64);
    OnesShifted(target, rows + 1, 63 - rows);
  }

  lemma RowStartXor(row: nat, rows: nat)
    requires row <= rows <= 63
    ensures Xor(Pow2(rows + 1) - 1, Shr(Pow2(rows + 1) - 1, row)) == RowStart(row, rows)
  {
    hide Pow2, Xor, Shr;
    ShrOnes(rows + 1 - row, row);
    XorOnes(rows + 1, rows + 1 - row);
  }

  lemma ShrOnes(a: nat, b: nat)
    ensures Shr(Pow2(a + b) - 1, b) == Pow2(a) - 1
  {
    hide Pow2, Shr;
    UpOnes(a, b);
    Unique(Pow2(a) - 1, Pow2(b) - 1, b);
  }

  /** The wire position of a place is the same row and offset, 63 rows up. */
  lemma TranslateIs(leaves: nat, target: nat)
    requires leaves <= Pow2(63) && target < Pow2(TreeRows(leaves) + 1) - 1 && TreeRows(leaves) <= 63 && target < U64
    ensures var rows := TreeRows(leaves);
            var row := RowOf(target, rows);
            && row <= rows && RowStart(row, rows) <= target
            && var off := target - RowStart(row, rows);
            Translate(leaves, target) == if off < Shr(leaves, row) then Ok(Place(row, off, WIRE_ROWS))
                                         else Err("block target outside populated forest")
  {
    hide Pow2, Shl, OnesDown, Xor, Shr, TreeRows, LeadingOnes, WireMask, RowStart;
    var rows := TreeRows(leaves);
    WireMaskIs(rows);
    WireMaskIs(63);
    Decode(target, rows);
    LeadingOnesIs(target, rows);
    var row := RowOf(target, rows);
    RowStartXor(row, rows);
    RowStartXor(row, 63);
    WirePlaceFits(row, target - RowStart(row, rows), rows);
  }

  lemma WirePlaceFits(row: nat, off: nat, rows: nat)
    requires InRow(row, off, rows) && rows <= 63
    ensures InRow(row, off, WIRE_ROWS) && Place(row, off, WIRE_ROWS) < U64 - 1 && Pow2(64) == U64
  {
    hide Pow2;
    Pow2Mono(rows - row, WIRE_ROWS - row);
    RowOfPlace(row, off, WIRE_ROWS);
    Pow2Word(64);
  }

  // ---- what the translation promises ----------------------------------------------------

  /** The place lies under some root. */
  ghost predicate UnderSomeRoot(leaves: nat, row: nat, off: nat) { exists rootRow :: Under(leaves, row, off, rootRow) }

  lemma UnderSome(leaves: nat, row: nat, off: nat)
    ensures UnderSomeRoot(leaves, row, off) <==> off < Shr(leaves, row)
  {
    hide Under, RootRow, Shr;
    if off < Shr(leaves, row) {
      var rootRow := row + RootRow(Shr(leaves, row), off);
      UnderIff(leaves, row, off, rootRow);
      assert Under(leaves, row, off, rootRow);
    }
    if rootRow :| Under(leaves, row, off, rootRow) { UnderIff(leaves, row, off, rootRow); }
  }

  /** Accepted are exactly the positions that lie under some root of the forest, and they keep
      their row and their offset in it. */
  lemma TranslateAccepts(leaves: nat, target: nat)
    requires leaves <= Pow2(63) && target < U64
    ensures TreeRows(leaves) <= 63
    ensures Translate(leaves, target).Ok? <==>
            exists row, off :: InRow(row, off, TreeRows(leaves)) && target == Place(row, off, TreeRows(leaves)) && UnderSomeRoot(leaves, row, off)
    ensures Translate(leaves, target).Ok? ==>
            var rows := TreeRows(leaves);
            var row := RowOf(target, rows);
            && row <= rows && RowStart(row, rows) <= target
            && Translate(leaves, target).value == Place(row, target - RowStart(row, rows), WIRE_ROWS)
            && RowOf(Translate(leaves, target).value, WIRE_ROWS) == row
  {
    hide Pow2, TreeRows, RowOf, Shr, UnderSomeRoot, Translate, RowStart;
    LeavesFit(leaves);
    var rows := TreeRows(leaves);
    Beyond(leaves, target);
    if target < Pow2(rows + 1) - 1 {
      TranslateIs(leaves, target);
      var row, off := PlaceOf(target, rows);
      UnderSome(leaves, row, off);
      WirePlaceFits(row, off, rows);
      RowOfPlace(row, off, WIRE_ROWS);
      forall r, o | InRow(r, o, rows) && target == Place(r, o, rows) && UnderSomeRoot(leaves, r, o) ensures Translate(leaves, target).Ok? {
        RowOfPlace(r, o, rows);
        UnderSome(leaves, r, o);
      }
    } else {
      forall r, o | InRow(r, o, rows) && target == Place(r, o, rows) ensures false { RowOfPlace(r, o, rows); }
    }
  }

  /** Nothing at or above the all-ones position is accepted. */
  lemma Beyond(leaves: nat, target: nat)
    requires leaves <= Pow2(63) && target < U64 && TreeRows(leaves) <= 63
    ensures target >= Pow2(TreeRows(leaves) + 1) - 1 ==> Translate(leaves, target).Err?
  {
    hide Pow2, TreeRows, WireMask;
    WireMaskIs(TreeRows(leaves));
  }

  /** Places are ordered by row, then by offset, whatever the number of rows. */
  lemma PlaceOrder(r: nat, o: nat, s: nat, p: nat, rows: nat)
    requires InRow(r, o, rows) && InRow(s, p, rows)
    ensures Place(r, o, rows) < Place(s, p, rows) <==> r < s || (r == s && o < p)
  {
    if r < s { PlaceBelow(r, o, s, p, rows); }
    if s < r { PlaceBelow(s, p, r, o, rows); }
  }

  lemma PlaceBelow(r: nat, o: nat, s: nat, p: nat, rows: nat)
    requires InRow(r, o, rows) && InRow(s, p, rows) && r < s
    ensures Place(r, o, rows) < Place(s, p, rows)
  {
    hide Pow2;
    Pow2Mono(rows + 1 - s, rows - r);
    NextPow2(rows - r);
  }

  lemma NextPow2(k: nat)
    ensures Pow2(k + 1) == 2 * Pow2(k)
  {}

  /** The translation keeps the order of targets, so distinct targets stay distinct. */
  lemma TranslateOrder(leaves: nat, a: nat, b: nat)
    requires leaves <= Pow2(63) && a < U64 && b < U64 && Translate(leaves, a).Ok? && Translate(leaves, b).Ok?
    ensures a < b <==> Translate(leaves, a).value < Translate(leaves, b).value
    ensures a == b <==> Translate(leaves, a).value == Translate(leaves, b).value
  {
    hide Pow2, TreeRows, RowOf, Shr, Translate, Place;
    LeavesFit(leaves);
    Beyond(leaves, a);
    Beyond(leaves, b);
    var rows := TreeRows(leaves);
    var r, o := PlaceOf(a, rows);
    var s, p := PlaceOf(b, rows);
    TranslatePlace(leaves, r, o);
    TranslatePlace(leaves, s, p);
    WirePlaceFits(r, o, rows);
    WirePlaceFits(s, p, rows);
    PlaceOrder(r, o, s, p, rows);
    PlaceOrder(s, p, r, o, rows);
    PlaceOrder(r, o, s, p, WIRE_ROWS);
    PlaceOrder(s, p, r, o, WIRE_ROWS);
  }

  lemma TranslatePlace(leaves: nat, row: nat, off: nat)
    requires leaves <= Pow2(63) && TreeRows(leaves) <= 63 && InRow(row, off, TreeRows(leaves)) && Place(row, off, TreeRows(leaves)) < U64
    ensures off < Shr(leaves, row) ==> Translate(leaves, Place(row, off, TreeRows(leaves))) == Ok(Place(row, off, WIRE_ROWS))
    ensures Translate(leaves, Place(row, off, TreeRows(leaves))).Ok? ==> off < Shr(leaves, row)
  {
    hide Pow2, TreeRows, Shr, Translate;
    RowOfPlace(row, off, TreeRows(leaves));
    TranslateIs(leaves, Place(row, off, TreeRows(leaves)));
  }

  /** The parent of a place, also in the 63-row forest whose positions fill the register. */
  lemma ParentAt(row: nat, off: nat, rows: nat)
    requires InRow(row, off, rows) && row < rows <= 63
    ensures Parent(Place(row, off, rows), rows) == Place(row + 1, off / 2, rows) && InRow(row + 1, off / 2, rows)
  {
    hide Pow2, Or, Shr, Place, Bit;
    var p := Place(row, off, rows);
    RowOfPlace(row, off, rows);
    ShlOne(rows);
    HalfBelow(p, rows);
    HalfPlace(row, off, rows);
    OrBit(p / 2, rows);
  }

  lemma HalfPlace(row: nat, off: nat, rows: nat)
    requires InRow(row, off, rows) && row < rows
    ensures Place(row, off, rows) / 2 + Pow2(rows) == Place(row + 1, off / 2, rows) && InRow(row + 1, off / 2, rows)
  {
    hide Pow2;
    NextPow2(rows);
    NextPow2(rows - row);
    NextPow2(rows - row - 1);
  }

  lemma HalfBelow(p: nat, rows: nat)
    requires p < Pow2(rows + 1)
    ensures Shr(p, 1) == p / 2 < Pow2(rows) && !Bit(p / 2, rows)
  {
    NextPow2(rows);
    ShrZero(p / 2);
    ShrSmall(p / 2, rows);
  }

  /** Translating the parent is taking the parent of the translation. */
  lemma TranslateParent(leaves: nat, row: nat, off: nat)
    requires leaves <= Pow2(63) && off < Shr(leaves, row) && !(Bit(leaves, row) && off == RootOffset(leaves, row))
    ensures TreeRows(leaves) <= 63 && row < TreeRows(leaves) && InRow(row, off, TreeRows(leaves))
    ensures var rows := TreeRows(leaves);
            var target := Place(row, off, rows);
            && target < U64 && Parent(target, rows) < U64
            && Translate(leaves, target).Ok?
            && Translate(leaves, Parent(target, rows)) == Ok(Parent(Translate(leaves, target).value, WIRE_ROWS))
  {
    hide Pow2, TreeRows, Shr, Translate, Bit, Place, Parent;
    LeavesFit(leaves);
    var rows := TreeRows(leaves);
    TreeRowsBound(leaves);
    PopulatedInRow(leaves, row, off, rows);
    NonRootStep(leaves, row, off, rows);
    PlaceWord(row, off, rows);
    ParentAt(row, off, rows);
    PlaceWord(row + 1, off / 2, rows);
    TranslatePlace(leaves, row, off);
    TranslatePlace(leaves, row + 1, off / 2);
    WirePlaceFits(row, off, rows);
    ParentAt(row, off, WIRE_ROWS);
  }

  lemma PlaceWord(row: nat, off: nat, rows: nat)
    requires InRow(row, off, rows) && rows <= 63
    ensures Place(row, off, rows) < U64
  {
    hide Pow2;
    RowOfPlace(row, off, rows);
    Pow2Word(rows + 1);
  }

  /** A translated target is again a 64-bit word. */
  lemma TranslateWord(leaves: nat, target: nat)
    requires leaves <= Pow2(63) && target < U64 && Translate(leaves, target).Ok?
    ensures Translate(leaves, target).value < U64
  {
    hide Pow2, TreeRows, RowOf, Shr, Translate, Place;
    LeavesFit(leaves);
    Beyond(leaves, target);
    var rows := TreeRows(leaves);
    var row, off := PlaceOf(target, rows);
    TranslatePlace(leaves, row, off);
    WirePlaceFits(row, off, rows);
  }

  // ---- the loop over a block's targets --------------------------------------------------

  /** All targets, or the first refusal. */
  method TranslateAll(leaves: nat, targets: seq<nat>) returns (r: Result<seq<nat>>)
    requires forall i | 0 <= i < |targets| :: targets[i] < U64
    ensures r.Ok? <==> leaves <= Pow2(63) && forall i | 0 <= i < |targets| :: Translate(leaves, targets[i]).Ok?
    ensures r.Ok? ==> |r.value| == |targets| && forall i | 0 <= i < |targets| :: r.value[i] == Translate(leaves, targets[i]).value
  {
    hide Translate, Pow2;
    if leaves > Pow2(63) { return Err("unsupported forest leaf count"); }
    var wire := [];
    var i := 0;
    while i < |targets|
      invariant 0 <= i <= |targets| && |wire| == i
      invariant forall j | 0 <= j < i :: Translate(leaves, targets[j]) == Ok(wire[j])
    {
      var one := Translate(leaves, targets[i]);
      if one.Err? { return Err(one.error); }
      wire := wire + [one.value];
      i := i + 1;
    }
    return Ok(wire);
  }
}
