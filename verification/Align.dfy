/** `ROUNDUP` and `ROUNDDOWN` on 32-bit words: alignment by masking instead of division. */
module Align {
  import opened Words
  import opened Fields

  /** `~(y - 1)`, with the subtraction wrapping at 0. */
  function AlignMask(y: Word): (m: Word) {
    WordWidth();
    Not(32, Trunc(32, y + ALL_ONES))
  }

  function RoundDown(x: Word, y: Word): (r: Word) {
    And(x, AlignMask(y))
  }

  /** `x + y - 1` wraps at the word before it is masked. */
  function RoundUp(x: Word, y: Word): (r: Word) {
    WordWidth();
    And(Trunc(32, Trunc(32, x + y) + ALL_ONES), AlignMask(y))
  }

  ghost predicate IsPow2(y: nat) {
    exists k: nat :: y == Pow2(k)
  }

  /** Subtracting one from a positive word does not wrap. */
  lemma Decrement(y: Word)
    requires y >= 1
    ensures Trunc(32, y + ALL_ONES) == y - 1
  {
    WordWidth();
    DivModUnique(y + ALL_ONES, Pow2(32), 1, y - 1);
  }

  lemma MaskDigit(y: Word, i: nat)
    requires y >= 1 && i < 32
    ensures Bit(AlignMask(y), i) <==> !Bit(y - 1, i)
  {
    WordWidth();
    Decrement(y);
    BitNot(32, y - 1, i);
  }

  /** `y - 1` as a word. */
  function Before(y: Word): (r: Word) {
    if y == 0 then ALL_ONES else y - 1
  }

  lemma BeforeIsDecrement(y: Word)
    ensures Trunc(32, y + ALL_ONES) == Before(y)
  {
    WordWidth();
    if y == 0 {
      DivModUnique(ALL_ONES, Pow2(32), 0, ALL_ONES);
    } else {
      Decrement(y);
    }
  }

  lemma RoundDownDigit(x: Word, y: Word, i: nat)
    requires i < 32
    ensures Bit(RoundDown(x, y), i) <==> Bit(x, i) && !Bit(Before(y), i)
  {
    WordWidth();
    BeforeIsDecrement(y);
    BitAnd(x, AlignMask(y), i);
    BitNot(32, Before(y), i);
  }

  /** Every bit of both macros, for every alignment, also 0: the bits of `y - 1` are cleared, in x itself or in
      `x + y - 1`, which wraps at the word. */
  lemma RoundDigits(x: Word, y: Word, i: nat)
    requires i < 32
    ensures Bit(RoundDown(x, y), i) <==> Bit(x, i) && !Bit(Before(y), i)
    ensures Bit(RoundUp(x, y), i) <==>
            Bit(Before(if x + y >= 0x1_0000_0000 then x + y - 0x1_0000_0000 else x + y), i) && !Bit(Before(y), i)
  {
    WordWidth();
    var s: Word := if x + y >= 0x1_0000_0000 then x + y - 0x1_0000_0000 else x + y;
    DivModUnique(x + y, Pow2(32), if x + y >= 0x1_0000_0000 then 1 else 0, s);
    BeforeIsDecrement(s);
    RoundDownDigit(x, y, i);
    RoundDownDigit(Before(s), y, i);
  }

  // ---------------------------------------------------------------- powers of two

  lemma ClearLowDigit(x: Word, k: nat, q: nat, i: nat)
    requires k < 32 && Pow2(k) < 0x1_0000_0000 && q == Shr(x, k) && i < 32
    ensures Bit(RoundDown(x, Pow2(k)), i) <==> Bit(q * Pow2(k), i)
  {
    BitAnd(x, AlignMask(Pow2(k)), i);
    MaskDigit(Pow2(k), i);
    BitOnes(k, i);
    BitMul(q, k, i);
    if k <= i {
      BitShr(x, k, i - k);
    }
  }

  lemma ClearLow(x: Word, k: nat)
    requires k < 32 && Pow2(k) < 0x1_0000_0000
    ensures RoundDown(x, Pow2(k)) == Shr(x, k) * Pow2(k)
  {
    var q := Shr(x, k);
    MultipleBelow(x, Pow2(k));
    var m: Word := q * Pow2(k);
    forall i: nat | i < 32
      ensures Bit(RoundDown(x, Pow2(k)), i) <==> Bit(m, i)
    {
      ClearLowDigit(x, k, q, i);
    }
    SameWord(RoundDown(x, Pow2(k)), m);
  }

  lemma MultipleBelow(x: nat, d: nat)
    requires d >= 1
    ensures 0 <= (x / d) * d <= x
  {
    DivMod(x, d);
  }

  /** For a power of two, masking is rounding by division. */
  lemma RoundDownPow2(x: Word, k: nat)
    requires k < 32
    ensures Pow2(k) < 0x1_0000_0000 && RoundDown(x, Pow2(k)) == (x / Pow2(k)) * Pow2(k)
  {
    WordWidth();
    Pow2Strict(k, 32);
    ClearLow(x, k);
  }

  // ---------------------------------------------------------------- and only for powers of two

  /** The lowest set bit of a positive number. */
  function LowBit(y: nat): (b: nat)
    requires y >= 1
    ensures 1 <= b <= y && IsPow2(b)
  {
    if y % 2 == 1 then
      assert Pow2(0) == 1; 1
    else
      var half := LowBit(y / 2);
      assert IsPow2(2 * half) by {
        var k: nat :| half == Pow2(k);
        assert Pow2(k + 1) == 2 * half;
      }
      2 * half
  }

  /** `y & ~(y - 1)` isolates the lowest set bit. */
  lemma {:induction false} LowBitByMask(y: nat, width: nat)
    requires 1 <= y < Pow2(width)
    ensures And(y, Not(width, y - 1)) == LowBit(y)
    decreases width
  {
    Halves(y);
    WidthHalves(y, width);
    if y % 2 == 1 {
      MaskOfOdd(y / 2, width);
    } else {
      LowBitByMask(y / 2, width - 1);
      MaskOfEven(y / 2, width);
    }
  }

  lemma WidthHalves(y: nat, width: nat)
    requires 1 <= y < Pow2(width)
    ensures width >= 1 && Pow2(width) == 2 * Pow2(width - 1) && y / 2 < Pow2(width - 1)
  {
  }

  lemma MaskOfOdd(h: nat, width: nat)
    requires width >= 1 && Pow2(width) == 2 * Pow2(width - 1) && h < Pow2(width - 1)
    ensures And(2 * h + 1, Not(width, 2 * h)) == 1
  {
    AndComplement(h, width - 1);
    AndHalves(h, 1, Not(width - 1, h), 1);
  }

  lemma MaskOfEven(h: nat, width: nat)
    requires width >= 1 && Pow2(width) == 2 * Pow2(width - 1) && 1 <= h < Pow2(width - 1)
    ensures And(2 * h, Not(width, 2 * h - 1)) == 2 * And(h, Not(width - 1, h - 1))
  {
    AndHalves(h, 0, Not(width - 1, h - 1), 0);
  }

  /** `&` on numbers given by half and lowest digit. */
  lemma AndHalves(a: nat, c: nat, b: nat, d: nat)
    requires c < 2 && d < 2
    ensures And(2 * a + c, 2 * b + d) == 2 * And(a, b) + (if c == 1 && d == 1 then 1 else 0)
  {
    assert (2 * a + c) / 2 == a && (2 * b + d) / 2 == b;
  }

  lemma AndComplement(x: nat, width: nat)
    requires x < Pow2(width)
    ensures And(x, Not(width, x)) == 0
  {
    forall i: nat | i < width
      ensures Bit(And(x, Not(width, x)), i) <==> Bit(0, i)
    {
      BitAnd(x, Not(width, x), i);
      BitNot(width, x, i);
      BitZero(i);
    }
    Extensional(And(x, Not(width, x)), 0, width);
  }

  lemma LowBitDouble(p: nat)
    requires p >= 1
    ensures LowBit(2 * p) == 2 * LowBit(p)
  {
    assert (2 * p) / 2 == p;
  }

  lemma {:induction false} LowBitOfPow2(k: nat)
    ensures LowBit(Pow2(k)) == Pow2(k)
  {
    if k > 0 {
      LowBitOfPow2(k - 1);
      LowBitDouble(Pow2(k - 1));
    }
  }

  lemma RoundDownSelf(y: Word)
    requires y >= 1
    ensures RoundDown(y, y) == LowBit(y)
  {
    WordWidth();
    Decrement(y);
    LowBitByMask(y, 32);
  }

  lemma Exponent(y: Word, k: nat)
    requires y == Pow2(k)
    ensures k < 32
  {
    WordWidth();
    if k >= 32 {
      Pow2Mono(32, k);
    }
  }

  ghost predicate RoundsDown(y: Word)
    requires y >= 1
  {
    forall x: Word :: RoundDown(x, y) == (x / y) * y
  }

  /** `ROUNDDOWN(x, y)` is the multiple of y at or below every x exactly when y is a power of two. */
  lemma RoundDownIff(y: Word)
    requires y >= 1
    ensures RoundsDown(y) <==> IsPow2(y)
  {
    if IsPow2(y) {
      var k: nat :| y == Pow2(k);
      Exponent(y, k);
      forall x: Word
        ensures RoundDown(x, y) == (x / y) * y
      {
        RoundDownPow2(x, k);
      }
    }
    if RoundsDown(y) {
      FixesItself(y);
      RoundDownSelf(y);
    }
  }

  lemma FixesItself(y: Word)
    requires y >= 1 && RoundsDown(y)
    ensures RoundDown(y, y) == y
  {
    DivModUnique(y, y, 1, 0);
    var q := y / y;
    assert RoundDown(y, y) == q * y;
  }

  // ---------------------------------------------------------------- rounding up

  /** r is the least multiple of y at or above x. */
  ghost predicate LeastMultiple(r: nat, x: nat, y: nat)
    requires y >= 1
  {
    r % y == 0 && r >= x && forall m: nat :: m % y == 0 && m >= x ==> r <= m
  }

  /** Multiples of y do not lie strictly between neighbours. */
  lemma MultipleGap(m: nat, q: nat, y: nat)
    requires y >= 1 && m % y == 0
    ensures m > q * y ==> m >= q * y + y
  {
    DivMod(m, y);
    if m / y <= q {
      MulMono(m / y, q, y);
    } else {
      MulStep(q, m / y, y);
    }
  }

  lemma WordSum(x: Word, y: Word)
    requires 1 <= x + y <= 0x1_0000_0000
    ensures Trunc(32, Trunc(32, x + y) + ALL_ONES) == x + y - 1
  {
    WordWidth();
    var p := Pow2(32);
    if x + y < p {
      DivModUnique(x + y, p, 0, x + y);
      Decrement(x + y);
    } else {
      DivModUnique(x + y, p, 1, 0);
      DivModUnique(ALL_ONES, p, 0, ALL_ONES);
    }
  }

  lemma RoundUpNoWrap(x: Word, y: Word)
    requires y >= 1 && x + y <= 0x1_0000_0000
    ensures x + y - 1 < 0x1_0000_0000 && RoundUp(x, y) == RoundDown(x + y - 1, y)
  {
    WordSum(x, y);
  }

  /** The multiple of y at or below x + y - 1 is the least one at or above x. */
  lemma CeilingByFloor(x: nat, y: nat)
    requires y >= 1
    ensures (x + y - 1) / y >= 0 && LeastMultiple(((x + y - 1) / y) * y, x, y)
  {
    var q := (x + y - 1) / y;
    DivMod(x + y - 1, y);
    DivModUnique(q * y, y, q, 0);
    forall m: nat | m % y == 0 && m >= x
      ensures q * y <= m
    {
      if m < q * y {
        DivMod(m, y);
        MultipleGap(q * y, m / y, y);
      }
    }
  }

  lemma RoundUpPow2Floor(x: Word, y: Word, k: nat)
    requires k < 32 && y == Pow2(k) && x + y <= 0x1_0000_0000
    ensures RoundUp(x, y) == ((x + y - 1) / y) * y
  {
    RoundUpNoWrap(x, y);
    RoundDownPow2(x + y - 1, k);
  }

  /** Without wrap-around, `ROUNDUP` by a power of two is the least multiple at or above x. */
  lemma RoundUpPow2(x: Word, k: nat)
    requires k < 32 && x + Pow2(k) <= 0x1_0000_0000
    ensures Pow2(k) < 0x1_0000_0000 && LeastMultiple(RoundUp(x, Pow2(k)), x, Pow2(k))
  {
    WordWidth();
    Pow2Strict(k, 32);
    RoundUpPow2Floor(x, Pow2(k), k);
    CeilingByFloor(x, Pow2(k));
  }

  /** Exactly the words above 2^32 - 2^k wrap, and they all round to 0. */
  lemma RoundUpWraps(x: Word, k: nat)
    requires k < 32
    ensures Pow2(k) < 0x1_0000_0000
    ensures x + Pow2(k) > 0x1_0000_0000 <==> (RoundUp(x, Pow2(k)) == 0 && x > 0)
  {
    WordWidth();
    Pow2Strict(k, 32);
    var y: Word := Pow2(k);
    if x + y > 0x1_0000_0000 {
      var s: nat := x + y - 0x1_0000_0000;
      DivModUnique(x + y, Pow2(32), 1, s);
      Decrement(s);
      ClearLow(s - 1, k);
      DivModUnique(s - 1, y, 0, s - 1);
    } else {
      RoundUpPow2(x, k);
    }
  }

  lemma FloorBelow(x: nat, m: nat, y: nat)
    requires y >= 1 && m % y == 0
    ensures x / y >= 0 && (m <= (x / y) * y <==> m <= x)
  {
    DivMod(x, y);
    MultipleGap(m, x / y, y);
  }

  lemma RoundDownAdjoint(x: Word, m: Word, k: nat)
    requires k < 32 && m % Pow2(k) == 0
    ensures Pow2(k) < 0x1_0000_0000 && (m <= RoundDown(x, Pow2(k)) <==> m <= x)
  {
    WordWidth();
    Pow2Strict(k, 32);
    RoundDownPow2(x, k);
    FloorBelow(x, m, Pow2(k));
  }

  /** Rounding up is adjoint as far as it does not wrap, and no further: a word that wraps rounds to 0. */
  lemma RoundUpAdjointIff(x: Word, k: nat)
    requires k < 32
    ensures Pow2(k) < 0x1_0000_0000
    ensures (forall m: Word :: m % Pow2(k) == 0 ==> (RoundUp(x, Pow2(k)) <= m <==> x <= m))
            <==> x + Pow2(k) <= 0x1_0000_0000
  {
    WordWidth();
    Pow2Strict(k, 32);
    RoundUpWraps(x, k);
    if x + Pow2(k) <= 0x1_0000_0000 {
      RoundUpPow2(x, k);
    } else {
      DivModUnique(0, Pow2(k), 0, 0);
      assert RoundUp(x, Pow2(k)) <= 0 && 0 % Pow2(k) == 0;
    }
  }

  /** Rounding up and down are the two adjoints of the inclusion of the multiples of 2^k: down on every
      word, up on every word that does not wrap. */
  lemma RoundingGalois(x: Word, m: Word, k: nat)
    requires k < 32 && m % Pow2(k) == 0
    ensures Pow2(k) < 0x1_0000_0000
    ensures x + Pow2(k) <= 0x1_0000_0000 ==> (RoundUp(x, Pow2(k)) <= m <==> x <= m)
    ensures m <= RoundDown(x, Pow2(k)) <==> m <= x
  {
    RoundDownAdjoint(x, m, k);
    RoundUpAdjointIff(x, k);
  }

  ghost predicate RoundsUp(y: Word)
    requires y >= 1
  {
    forall x: Word :: x + y <= 0x1_0000_0000 ==> LeastMultiple(RoundUp(x, y), x, y)
  }

  lemma RoundUpOne(y: Word)
    requires y >= 1
    ensures RoundUp(1, y) == LowBit(y)
  {
    RoundUpNoWrap(1, y);
    RoundDownSelf(y);
  }

  /** `ROUNDUP(x, y)` is right for every x that does not wrap exactly when y is a power of two. */
  lemma RoundUpIff(y: Word)
    requires y >= 1
    ensures RoundsUp(y) <==> IsPow2(y)
  {
    if IsPow2(y) {
      var k: nat :| y == Pow2(k);
      Exponent(y, k);
      forall x: Word | x + y <= 0x1_0000_0000
        ensures LeastMultiple(RoundUp(x, y), x, y)
      {
        RoundUpPow2(x, k);
      }
    }
    if RoundsUp(y) {
      assert LeastMultiple(RoundUp(1, y), 1, y);
      RoundUpOne(y);
      MultipleGap(LowBit(y), 0, y);
    }
  }

  lemma CeilingCases(r: nat, x: nat, y: nat)
    requires y >= 1 && LeastMultiple(r, x, y)
    ensures x % y == 0 ==> r == x
    ensures x / y >= 0 && (r == (x / y + 1) * y <==> x % y != 0)
  {
    var q := x / y;
    DivMod(x, y);
    MulStep(q, q + 1, y);
    if x % y == 0 {
      assert r <= x;
    } else {
      DivModUnique((q + 1) * y, y, q + 1, 0);
      MultipleGap(r, q, y);
      assert (q + 1) * y == q * y + y;
    }
  }

  /** The comment beside the macro, `INT(x/y + 1) * y`, describes it only off the multiples: at a
      multiple the macro returns x itself. */
  lemma RoundUpComment(x: Word, y: Word, k: nat)
    requires k < 32 && y == Pow2(k) && x + y <= 0x1_0000_0000
    ensures RoundUp(x, y) == (x / y + 1) * y <==> x % y != 0
    ensures x % y == 0 ==> RoundUp(x, y) == x
  {
    RoundUpPow2(x, k);
    CeilingCases(RoundUp(x, y), x, y);
  }
}
