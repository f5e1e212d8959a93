/** Unsigned 64-bit bit operations over natural numbers, with wrap-around explicit, and the
    closed forms of the mask idioms the accumulator uses. Shifts are iterated doubling and
    halving, so every proof here stays in linear arithmetic. */
module Bits {

  const U64: nat := 0x1_0000_0000_0000_0000

  /** x * 2^k, unbounded. */
  function Up(x: nat, k: nat): (r: nat)
    ensures x <= r
    ensures x == 0 ==> r == 0
  {
    if k == 0 then x else 2 * Up(x, k - 1)
  }

  function Pow2(k: nat): (p: nat)
    ensures p >= 1
  { Up(1, k) }

  /** x >> k. */
  function Shr(x: nat, k: nat): (r: nat)
    ensures r <= x
  {
    if k == 0 then x else Shr(x / 2, k - 1)
  }

  /** x << k in a 64-bit register. */
  function Shl(x: nat, k: nat): nat { Up(x, k) % U64 }

  /** The low k bits of x, that is x mod 2^k. */
  function Low(x: nat, k: nat): (r: nat)
    ensures r <= x
  {
    if k == 0 then 0 else x % 2 + 2 * Low(x / 2, k - 1)
  }

  function And(x: nat, y: nat): nat {
    if x == 0 || y == 0 then 0
    else 2 * And(x / 2, y / 2) + (if x % 2 == 1 && y % 2 == 1 then 1 else 0)
  }

  function Or(x: nat, y: nat): nat {
    if x == 0 then y else if y == 0 then x
    else 2 * Or(x / 2, y / 2) + (if x % 2 == 1 || y % 2 == 1 then 1 else 0)
  }

  function Xor(x: nat, y: nat): nat {
    if x == 0 then y else if y == 0 then x
    else 2 * Xor(x / 2, y / 2) + (if x % 2 != y % 2 then 1 else 0)
  }

  /** ~x. */
  function Not(x: nat): nat
    requires x < U64
  { U64 - 1 - x }

  /** x - y with unsigned wrap-around. */
  function Sub(x: nat, y: nat): nat
    requires x < U64 && y < U64
  { if x >= y then x - y else x + U64 - y }

  predicate Bit(x: nat, k: nat) { Shr(x, k) % 2 == 1 }

  /** std::popcount. */
  function Popcount(x: nat): nat {
    if x == 0 then 0 else x % 2 + Popcount(x / 2)
  }

  /** std::bit_width. */
  function BitWidth(x: nat): nat {
    if x == 0 then 0 else 1 + BitWidth(x / 2)
  }

  /** std::countr_one. */
  function TrailingOnes(x: nat): nat {
    if x % 2 == 0 then 0 else 1 + TrailingOnes(x / 2)
  }

  // ---- doubling and halving -------------------------------------------------------------

  lemma {:induction false} UpAdd(x: nat, y: nat, k: nat)
    ensures Up(x + y, k) == Up(x, k) + Up(y, k)
  {
    if k > 0 { UpAdd(x, y, k - 1); }
  }

  lemma {:induction false} UpMono(x: nat, y: nat, k: nat)
    requires x < y
    ensures Up(x, k) + Pow2(k) <= Up(y, k)
  {
    if k > 0 { UpMono(x, y, k - 1); }
  }

  lemma {:induction false} UpUp(x: nat, a: nat, b: nat)
    ensures Up(Up(x, a), b) == Up(x, a + b)
  {
    if b > 0 { UpUp(x, a, b - 1); }
  }

  lemma {:induction false} UpDouble(x: nat, k: nat)
    ensures Up(2 * x, k) == 2 * Up(x, k) == Up(x, k + 1)
  {
    if k > 0 { UpDouble(x, k - 1); }
  }

  lemma {:induction false} Pow2Mono(a: nat, b: nat)
    requires a <= b
    ensures Pow2(a) <= Pow2(b)
    ensures a < b ==> 2 * Pow2(a) <= Pow2(b)
    decreases b - a
  {
    if a < b { Pow2Mono(a + 1, b); }
  }

  lemma Up16(x: nat)
    ensures Up(x, 16) == 0x1_0000 * x
  {
    UpUp(x, 4, 4); UpUp(x, 8, 4); UpUp(x, 12, 4);
    assert forall y: nat :: Up(y, 4) == 16 * y by {
      forall y: nat ensures Up(y, 4) == 16 * y {
        assert Up(y, 1) == 2 * y; assert Up(y, 2) == 4 * y; assert Up(y, 3) == 8 * y;
      }
    }
  }

  lemma Pow2Word(k: nat)
    ensures Pow2(64) == U64
    ensures k <= 64 ==> Pow2(k) <= U64
    ensures k < 64 ==> 2 * Pow2(k) <= U64
  {
    UpUp(1, 16, 16); UpUp(1, 32, 16); UpUp(1, 48, 16);
    Up16(1); Up16(0x1_0000); Up16(0x1_0000_0000); Up16(0x1_0000_0000_0000);
    if k <= 64 { Pow2Mono(k, 64); }
  }

  /** Quotient and remainder by 2^k. */
  lemma {:induction false} Split(x: nat, k: nat)
    ensures x == Up(Shr(x, k), k) + Low(x, k)
    ensures Low(x, k) < Pow2(k)
  {
    if k > 0 { Split(x / 2, k - 1); }
  }

  /** ... and they are unique. */
  lemma {:induction false} Unique(q: nat, r: nat, k: nat)
    requires r < Pow2(k)
    ensures Shr(Up(q, k) + r, k) == q
    ensures Low(Up(q, k) + r, k) == r
  {
    if k > 0 {
      Unique(q, r / 2, k - 1);
      var x := Up(q, k) + r;
      assert x / 2 == Up(q, k - 1) + r / 2 && x % 2 == r % 2;
    }
  }

  lemma {:induction false} ShrAdd(x: nat, a: nat, b: nat)
    ensures Shr(x, a + b) == Shr(Shr(x, a), b)
  {
    if a > 0 { ShrAdd(x / 2, a - 1, b); }
  }

  lemma ShrStep(x: nat, k: nat)
    ensures Shr(x, k + 1) == Shr(x, k) / 2 == Shr(x / 2, k)
  {
    ShrAdd(x, k, 1);
    assert Shr(Shr(x, k), 1) == Shr(x, k) / 2;
  }

  lemma {:induction false} ShrMono(x: nat, y: nat, k: nat)
    requires x <= y
    ensures Shr(x, k) <= Shr(y, k)
  {
    if k > 0 { ShrMono(x / 2, y / 2, k - 1); }
  }

  lemma {:induction false} ShrSmall(x: nat, k: nat)
    requires x < Pow2(k)
    ensures Shr(x, k) == 0 && Low(x, k) == x
  {
    Unique(0, x, k);
  }

  lemma {:induction false} ShrBelow(x: nat, a: nat, b: nat)
    requires x < Pow2(a + b)
    ensures Shr(x, a) < Pow2(b)
    decreases a
  {
    if a > 0 { ShrBelow(x / 2, a - 1, b); }
  }

  lemma {:induction false} UpBelow(x: nat, a: nat, b: nat)
    requires x < Pow2(b)
    ensures Up(x, a) + Pow2(a) <= Pow2(a + b)
  {
    UpMono(x, Pow2(b), a);
    UpUp(1, b, a);
  }

  // ---- masks ----------------------------------------------------------------------------

  lemma {:induction false} AndMask(x: nat, k: nat)
    ensures And(x, Pow2(k) - 1) == Low(x, k)
    decreases k
  {
    if k > 0 {
      AndMask(x / 2, k - 1);
      assert (Pow2(k) - 1) / 2 == Pow2(k - 1) - 1;
    }
  }

  lemma {:induction false} AndShifted(x: nat, y: nat, k: nat)
    ensures And(x, Up(y, k)) == Up(And(Shr(x, k), y), k)
    decreases k
  {
    if k > 0 {
      AndShifted(x / 2, y, k - 1);
      assert Up(y, k) / 2 == Up(y, k - 1) && Up(y, k) % 2 == 0;
    }
  }

  lemma AndOnesShifted(x: nat, m: nat, k: nat)
    ensures And(x, Up(Pow2(m) - 1, k)) == Up(Low(Shr(x, k), m), k)
  {
    AndShifted(x, Pow2(m) - 1, k);
    AndMask(Shr(x, k), m);
  }

  lemma AndBit(x: nat, k: nat)
    ensures And(x, Pow2(k)) == if Bit(x, k) then Pow2(k) else 0
  {
    AndShifted(x, 1, k);
    AndMask(Shr(x, k), 1);
    assert Low(Shr(x, k), 1) == Shr(x, k) % 2;
    assert Pow2(1) - 1 == 1;
  }

  lemma {:induction false} OrDisjoint(a: nat, b: nat, k: nat)
    requires b < Pow2(k)
    ensures Or(Up(a, k), b) == Or(b, Up(a, k)) == Up(a, k) + b
    decreases k
  {
    if k > 0 { OrDisjoint(a, b / 2, k - 1); }
  }

  lemma OnesHalf(k: nat)
    requires k > 0
    ensures (Pow2(k) - 1) / 2 == Pow2(k - 1) - 1 && (Pow2(k) - 1) % 2 == 1 && Pow2(k) == 2 * Pow2(k - 1) && Pow2(0) == 1
  {}

  /** Clearing a low block of ones from a block of ones. */
  lemma {:induction false} XorOnes(k: nat, low: nat)
    requires low <= k
    ensures Xor(Pow2(k) - 1, Pow2(low) - 1) == Pow2(k) - Pow2(low)
    decreases k
  {
    hide Pow2;
    if low > 0 {
      XorOnes(k - 1, low - 1);
      OnesHalf(k);
      OnesHalf(low);
    } else {
      assert Pow2(0) == 1 by { OnesHalf(1); }
    }
  }

  lemma {:induction false} OrBit(x: nat, k: nat)
    ensures Or(x, Pow2(k)) == if Bit(x, k) then x else x + Pow2(k)
    decreases k
  {
    if k > 0 {
      OrBit(x / 2, k - 1);
    } else {
      OrOne(x);
    }
  }

  lemma LowParity(x: nat, k: nat)
    requires k > 0
    ensures Low(x, k) % 2 == x % 2
  {}

  lemma {:induction false} LowBit(x: nat, k: nat)
    ensures Low(x, k + 1) == (if Bit(x, k) then Pow2(k) else 0) + Low(x, k)
  {
    if k > 0 { LowBit(x / 2, k - 1); }
  }

  lemma {:induction false} LowUp(q: nat, r: nat, a: nat, k: nat)
    requires r < Pow2(k)
    ensures Low(Up(q, k) + r, a + k) == Up(Low(q, a), k) + r
  {
    if k > 0 {
      LowUp(q, r / 2, a, k - 1);
      var x := Up(q, k) + r;
      assert x / 2 == Up(q, k - 1) + r / 2 && x % 2 == r % 2;
    }
  }

  lemma {:induction false} LowUpBelow(q: nat, r: nat, j: nat, k: nat)
    requires j <= k
    ensures Low(Up(q, k) + r, j) == Low(r, j)
    decreases j
  {
    if j > 0 {
      LowUpBelow(q, r / 2, j - 1, k - 1);
      var x := Up(q, k) + r;
      assert x / 2 == Up(q, k - 1) + r / 2 && x % 2 == r % 2;
    }
  }

  /** Taking away 2^k, even with wrap-around, keeps the bits below k. */
  lemma LowSub(x: nat, j: nat, k: nat)
    requires x < U64 && j <= k < 64
    ensures Pow2(k) < U64
    ensures Low(Sub(x, Pow2(k)), j) == Low(x, j)
  {
    Pow2Word(k);
    if x >= Pow2(k) {
      LowUpBelow(1, x - Pow2(k), j, k);
    } else {
      UpOnes(64 - k, k);
      LowUpBelow(Pow2(64 - k) - 1, x, j, k);
      Pow2Word(64);
    }
  }

  lemma {:induction false} LowLow(x: nat, a: nat, b: nat)
    requires a <= b
    ensures Low(Low(x, b), a) == Low(x, a)
    decreases a
  {
    if a > 0 { LowLow(x / 2, a - 1, b - 1); }
  }

  lemma {:induction false} LowOnes(a: nat, b: nat)
    requires a <= b
    ensures Low(Pow2(b) - 1, a) == Pow2(a) - 1
    decreases a
  {
    if a > 0 {
      assert (Pow2(b) - 1) / 2 == Pow2(b - 1) - 1;
      LowOnes(a - 1, b - 1);
    }
  }

  /** Reduction modulo the word size keeps the low 64 bits. */
  lemma WordIsLow(x: nat)
    ensures x % U64 == Low(x, 64)
  {
    Split(x, 64);
    Pow2Word(64);
    var q := Shr(x, 64);
    assert Up(q, 64) == U64 * q by {
      UpUp(q, 16, 16); UpUp(q, 32, 16); UpUp(q, 48, 16);
      Up16(q); Up16(0x1_0000 * q); Up16(0x1_0000_0000 * q); Up16(0x1_0000_0000_0000 * q);
    }
  }

  /** Shifting a block of ones left in a 64-bit register drops the ones that leave it. */
  lemma ShlOnes(a: nat, k: nat)
    requires k <= 64
    ensures Shl(Pow2(a) - 1, k) == Up(Pow2(if a + k <= 64 then a else 64 - k) - 1, k)
  {
    WordIsLow(Up(Pow2(a) - 1, k));
    LowUp(Pow2(a) - 1, 0, 64 - k, k);
    if a + k <= 64 {
      Pow2Mono(a, 64 - k);
      ShrSmall(Pow2(a) - 1, 64 - k);
    } else {
      LowOnes(64 - k, a);
    }
  }

  /** 2^a - 1 ones placed above k low bits. */
  lemma UpOnes(a: nat, k: nat)
    ensures Up(Pow2(a) - 1, k) + Pow2(k) == Pow2(a + k)
  {
    UpAdd(Pow2(a) - 1, 1, k);
    UpUp(1, a, k);
  }

  lemma LowUpOnes(m: nat, r: nat, a: nat, k: nat)
    requires r < Pow2(k) && a <= m
    ensures Low(Up(Pow2(m) - 1, k) + r, a + k) == Pow2(a + k) - Pow2(k) + r
  {
    LowUp(Pow2(m) - 1, r, a, k);
    LowOnes(a, m);
    UpOnes(a, k);
  }

  lemma ShlOne(k: nat)
    requires k < 64
    ensures Shl(1, k) == Pow2(k)
  {
    Pow2Word(k);
  }

  lemma XorOne(x: nat)
    ensures Xor(x, 1) == if x % 2 == 0 then x + 1 else x - 1
  {
    if x > 1 { assert Xor(x / 2, 0) == x / 2; }
  }

  lemma OrOne(x: nat)
    ensures Or(x, 1) == if x % 2 == 0 then x + 1 else x
  {
    if x > 1 { assert Or(x / 2, 0) == x / 2; }
  }

  // ---- single bits ----------------------------------------------------------------------

  lemma BitStep(x: nat, k: nat)
    ensures Bit(x, k + 1) == Bit(x / 2, k)
    ensures Bit(x, 0) == (x % 2 == 1)
  {}

  lemma BitShr(x: nat, a: nat, k: nat)
    ensures Bit(x, a + k) == Bit(Shr(x, a), k)
  {
    ShrAdd(x, a, k);
  }

  lemma {:induction false} BitNot(x: nat, m: nat, k: nat)
    requires x < Pow2(m) && k < m
    ensures Bit(Pow2(m) - 1 - x, k) == !Bit(x, k)
    decreases k
  {
    if k > 0 {
      assert (Pow2(m) - 1 - x) / 2 == Pow2(m - 1) - 1 - x / 2;
      BitNot(x / 2, m - 1, k - 1);
    }
  }

  /** Numbers congruent modulo 2^m agree on every bit below m. */
  lemma {:induction false} BitLow(x: nat, y: nat, m: nat, k: nat)
    requires Low(x, m) == Low(y, m) && k < m
    ensures Bit(x, k) == Bit(y, k)
    decreases k
  {
    if k > 0 { BitLow(x / 2, y / 2, m - 1, k - 1); }
  }

  lemma PopcountStep(x: nat, k: nat)
    ensures Popcount(Shr(x, k)) == (if Bit(x, k) then 1 else 0) + Popcount(Shr(x, k + 1))
  {
    ShrStep(x, k);
  }

  lemma {:induction false} BitWidthBounds(x: nat)
    ensures x < Pow2(BitWidth(x))
    ensures x > 0 ==> Pow2(BitWidth(x) - 1) <= x
    decreases x
  {
    if x > 1 { BitWidthBounds(x / 2); }
    else if x == 1 { assert BitWidth(0) == 0; }
  }

  /** Incrementing clears the trailing ones and sets one bit. */
  lemma {:induction false} PopcountIncrement(n: nat)
    ensures Popcount(n + 1) + TrailingOnes(n) == Popcount(n) + 1
  {
    if n % 2 == 1 {
      PopcountIncrement(n / 2);
      assert (n + 1) / 2 == n / 2 + 1;
    }
  }
}
