/** Bit fields of a 32-bit hardware register: the words `hal_get_bits` returns and `hal_put_bits` stores.

    The write does not mask its value, so it is modelled for every value, and what it does to the bits
    around the field is stated exactly. */
module Fields {
  import opened Words

  /** `unsigned long` and `u32`. */
  type Word = x: nat | x < 0x1_0000_0000

  const ALL_ONES: Word := 0xFFFF_FFFF

  /** The shift amounts `offset` and `32 - num` are defined in C. */
  predicate Shiftable(offset: nat, num: nat) {
    offset < 32 && 1 <= num <= 32
  }

  lemma WordWidth()
    ensures Pow2(32) == 0x1_0000_0000
  {
    assert Pow2(8) == 0x100;
    assert Pow2(16) == 0x1_0000;
    assert Pow2(24) == 0x100_0000;
  }

  function FieldMask(num: nat): (m: Word)
    requires 1 <= num <= 32
  {
    WordWidth();
    ShrBound(ALL_ONES, 32 - num);
    Shr(ALL_ONES, 32 - num)
  }

  function GetBits(w: Word, offset: nat, num: nat): (r: Word)
    requires Shiftable(offset, num)
  {
    And(Shr(w, offset), FieldMask(num))
  }

  function PutBits(w: Word, offset: nat, num: nat, value: Word): (r: Word)
    requires Shiftable(offset, num)
  {
    WordWidth();
    var kept := And(w, Not(32, Shl(32, FieldMask(num), offset)));
    OrBound(kept, Shl(32, value, offset), 32);
    Or(kept, Shl(32, value, offset))
  }

  // ---------------------------------------------------------------- the operators, digit by digit

  lemma ShrBound(x: nat, k: nat)
    ensures Shr(x, k) <= x
  {
    DivMod(x, Pow2(k));
    MulMono(1, Pow2(k), x / Pow2(k));
  }

  lemma BitMask(num: nat, i: nat)
    requires 1 <= num <= 32
    ensures Bit(FieldMask(num), i) <==> i < num
  {
    WordWidth();
    BitShr(ALL_ONES, 32 - num, i);
    BitOnes(32, 32 - num + i);
  }

  lemma MaskIsOnes(num: nat)
    requires 1 <= num <= 32
    ensures FieldMask(num) == Pow2(num) - 1
  {
    WordWidth();
    Pow2Mono(num, 32);
    forall i: nat | i < 32
      ensures Bit(FieldMask(num), i) <==> Bit(Pow2(num) - 1, i)
    {
      BitMask(num, i);
      BitOnes(num, i);
    }
    Extensional(FieldMask(num), Pow2(num) - 1, 32);
  }

  lemma GetBitsBit(w: Word, offset: nat, num: nat, i: nat)
    requires Shiftable(offset, num)
    ensures Bit(GetBits(w, offset, num), i) <==> i < num && Bit(w, offset + i)
  {
    BitAnd(Shr(w, offset), FieldMask(num), i);
    BitShr(w, offset, i);
    BitMask(num, i);
  }

  /** Every digit of the written word: the old one outside the field, and the value's digit from
      `offset` up, inside the field and beyond it. */
  lemma PutBitsBit(w: Word, offset: nat, num: nat, value: Word, i: nat)
    requires Shiftable(offset, num) && i < 32
    ensures Bit(PutBits(w, offset, num, value), i) <==>
            (Bit(w, i) && !(offset <= i < offset + num)) || (offset <= i && Bit(value, i - offset))
  {
    WordWidth();
    var hole := Shl(32, FieldMask(num), offset);
    var kept := And(w, Not(32, hole));
    BitOr(kept, Shl(32, value, offset), i);
    BitAnd(w, Not(32, hole), i);
    BitNot(32, hole, i);
    BitShl(32, FieldMask(num), offset, i);
    BitShl(32, value, offset, i);
    if offset <= i {
      BitMask(num, i - offset);
    }
  }

  lemma SameWord(x: Word, y: Word)
    requires forall i: nat :: i < 32 ==> (Bit(x, i) <==> Bit(y, i))
    ensures x == y
  {
    WordWidth();
    Extensional(x, y, 32);
  }

  // ---------------------------------------------------------------- what a read and a write mean

  /** A read is the quotient by 2^offset reduced modulo 2^num. */
  lemma GetBitsValue(w: Word, offset: nat, num: nat)
    requires Shiftable(offset, num)
    ensures GetBits(w, offset, num) == (w / Pow2(offset)) % Pow2(num)
  {
    MaskIsOnes(num);
    AndOnes(Shr(w, offset), num);
  }

  lemma QuotientBound(x: Word, k: nat)
    requires k <= 32
    ensures 0 <= x / Pow2(k) < Pow2(32 - k)
  {
    WordWidth();
    Pow2Add(k, 32 - k);
    QuotientLess(x, Pow2(k), Pow2(32 - k));
  }

  /** The bits of the value that land above the field. */
  function Overflow(offset: nat, num: nat, value: Word): (r: nat)
    requires offset + num <= 32
  {
    Trunc(32 - offset - num, Shr(value, num))
  }

  lemma OverflowBit(offset: nat, num: nat, value: Word, i: nat)
    requires offset + num <= 32
    ensures Bit(Overflow(offset, num, value), i) <==> i < 32 - offset - num && Bit(value, num + i)
  {
    BitTrunc(32 - offset - num, Shr(value, num), i);
    BitShr(value, num, i);
  }

  /** Exact effect of a write of any value to a field inside the word. */
  lemma PutBitsEffect(w: Word, offset: nat, num: nat, value: Word)
    requires Shiftable(offset, num) && offset + num <= 32
    ensures var r := PutBits(w, offset, num, value);
            && r % Pow2(offset) == w % Pow2(offset)
            && GetBits(r, offset, num) == value % Pow2(num)
            && r / Pow2(offset + num) == Or(Shr(w, offset + num), Overflow(offset, num, value))
  {
    PutBelow(w, offset, num, value);
    PutInside(w, offset, num, value);
    PutAbove(w, offset, num, value);
  }

  lemma PutInsideBit(w: Word, offset: nat, num: nat, value: Word, i: nat)
    requires Shiftable(offset, num) && offset + num <= 32 && i < num
    ensures Bit(GetBits(PutBits(w, offset, num, value), offset, num), i) <==> Bit(Trunc(num, value), i)
  {
    GetBitsBit(PutBits(w, offset, num, value), offset, num, i);
    PutBitsBit(w, offset, num, value, offset + i);
    BitTrunc(num, value, i);
  }

  lemma PutInside(w: Word, offset: nat, num: nat, value: Word)
    requires Shiftable(offset, num) && offset + num <= 32
    ensures GetBits(PutBits(w, offset, num, value), offset, num) == value % Pow2(num)
  {
    var r := PutBits(w, offset, num, value);
    forall i: nat | i < num
      ensures Bit(GetBits(r, offset, num), i) <==> Bit(Trunc(num, value), i)
    {
      PutInsideBit(w, offset, num, value, i);
    }
    GetBitsValue(r, offset, num);
    Extensional(GetBits(r, offset, num), Trunc(num, value), num);
  }

  lemma PutAboveBit(w: Word, offset: nat, num: nat, value: Word, i: nat)
    requires Shiftable(offset, num) && offset + num + i < 32
    ensures Bit(Shr(PutBits(w, offset, num, value), offset + num), i)
            <==> Bit(Or(Shr(w, offset + num), Overflow(offset, num, value)), i)
  {
    BitShr(PutBits(w, offset, num, value), offset + num, i);
    BitShr(w, offset + num, i);
    PutBitsBit(w, offset, num, value, offset + num + i);
    BitOr(Shr(w, offset + num), Overflow(offset, num, value), i);
    OverflowBit(offset, num, value, i);
  }

  lemma PutAbove(w: Word, offset: nat, num: nat, value: Word)
    requires Shiftable(offset, num) && offset + num <= 32
    ensures Shr(PutBits(w, offset, num, value), offset + num)
            == Or(Shr(w, offset + num), Overflow(offset, num, value))
  {
    var r, top := PutBits(w, offset, num, value), offset + num;
    var above := Or(Shr(w, top), Overflow(offset, num, value));
    QuotientBound(w, top);
    QuotientBound(r, top);
    OrBound(Shr(w, top), Overflow(offset, num, value), 32 - top);
    forall i: nat | i < 32 - top
      ensures Bit(Shr(r, top), i) <==> Bit(above, i)
    {
      PutAboveBit(w, offset, num, value, i);
    }
    Extensional(Shr(r, top), above, 32 - top);
  }

  lemma PutBelow(w: Word, offset: nat, num: nat, value: Word)
    requires Shiftable(offset, num)
    ensures PutBits(w, offset, num, value) % Pow2(offset) == w % Pow2(offset)
  {
    var r := PutBits(w, offset, num, value);
    forall i: nat | i < offset
      ensures Bit(Trunc(offset, r), i) <==> Bit(Trunc(offset, w), i)
    {
      PutBitsBit(w, offset, num, value, i);
      BitTrunc(offset, r, i);
      BitTrunc(offset, w, i);
    }
    Extensional(Trunc(offset, r), Trunc(offset, w), offset);
  }

  /** A field that reaches past bit 31 is cut at the top of the word. */
  lemma PutBitsCut(w: Word, offset: nat, num: nat, value: Word)
    requires Shiftable(offset, num) && offset + num >= 32
    ensures var r := PutBits(w, offset, num, value);
            && r % Pow2(offset) == w % Pow2(offset)
            && r / Pow2(offset) == value % Pow2(32 - offset)
  {
    var r := PutBits(w, offset, num, value);
    PutBelow(w, offset, num, value);
    QuotientBound(r, offset);
    forall i: nat | i < 32 - offset
      ensures Bit(Shr(r, offset), i) <==> Bit(Trunc(32 - offset, value), i)
    {
      BitShr(r, offset, i);
      PutBitsBit(w, offset, num, value, offset + i);
      BitTrunc(32 - offset, value, i);
    }
    Extensional(Shr(r, offset), Trunc(32 - offset, value), 32 - offset);
  }

  // ---------------------------------------------------------------- when the neighbours survive

  ghost predicate KeepsOutside(w: Word, r: Word, offset: nat, num: nat) {
    forall i: nat :: i < 32 && !(offset <= i < offset + num) ==> (Bit(r, i) <==> Bit(w, i))
  }

  /** The value has no digit that lands in the word above the field. */
  predicate Fits(offset: nat, num: nat, value: Word)
    requires offset + num <= 32
  {
    Overflow(offset, num, value) == 0
  }

  lemma InRangeFits(offset: nat, num: nat, value: Word)
    requires offset + num <= 32 && value < Pow2(num)
    ensures Fits(offset, num, value)
  {
    DivModUnique(value, Pow2(num), 0, value);
  }

  ghost predicate NoDigits(value: nat, lo: nat, hi: nat) {
    forall i: nat :: lo <= i < hi ==> !Bit(value, i)
  }

  lemma FitsBits(offset: nat, num: nat, value: Word)
    requires offset + num <= 32
    ensures Fits(offset, num, value) <==> NoDigits(value, num, 32 - offset)
  {
    var o := Overflow(offset, num, value);
    if o == 0 {
      forall i: nat | num <= i < 32 - offset
        ensures !Bit(value, i)
      {
        OverflowBit(offset, num, value, i - num);
        BitZero(i - num);
      }
    }
    if NoDigits(value, num, 32 - offset) {
      forall i: nat | i < 32 - offset - num
        ensures Bit(o, i) <==> Bit(0, i)
      {
        OverflowBit(offset, num, value, i);
        BitZero(i);
      }
      Extensional(o, 0, 32 - offset - num);
    }
  }

  lemma PutAboveDigit(w: Word, offset: nat, num: nat, value: Word, j: nat)
    requires Shiftable(offset, num) && offset + num + j < 32
    ensures var o := Overflow(offset, num, value);
            (Bit(PutBits(w, offset, num, value), offset + num + j) <==> Bit(w, offset + num + j))
            <==> (Bit(And(o, Shr(w, offset + num)), j) <==> Bit(o, j))
  {
    PutBitsBit(w, offset, num, value, offset + num + j);
    BitAnd(Overflow(offset, num, value), Shr(w, offset + num), j);
    OverflowBit(offset, num, value, j);
    BitShr(w, offset + num, j);
  }

  /** On a given register the neighbours survive exactly when the overflow only sets bits already set. */
  lemma NeighboursSurviveHere(w: Word, offset: nat, num: nat, value: Word)
    requires Shiftable(offset, num) && offset + num <= 32
    ensures KeepsOutside(w, PutBits(w, offset, num, value), offset, num) <==>
            And(Overflow(offset, num, value), Shr(w, offset + num)) == Overflow(offset, num, value)
  {
    var r, o, top := PutBits(w, offset, num, value), Overflow(offset, num, value), offset + num;
    var both := And(o, Shr(w, top));
    if KeepsOutside(w, r, offset, num) {
      forall j: nat | j < 32 - top
        ensures Bit(both, j) <==> Bit(o, j)
      {
        PutAboveDigit(w, offset, num, value, j);
      }
      Extensional(both, o, 32 - top);
    }
    if both == o {
      forall i: nat | i < 32 && !(offset <= i < top)
        ensures Bit(r, i) <==> Bit(w, i)
      {
        if i < offset {
          PutBitsBit(w, offset, num, value, i);
        } else {
          PutAboveDigit(w, offset, num, value, i - top);
        }
      }
    }
  }

  /** The neighbours survive on every register exactly when the value fits. */
  lemma NeighboursSurviveIff(offset: nat, num: nat, value: Word)
    requires Shiftable(offset, num) && offset + num <= 32
    ensures (forall w: Word :: KeepsOutside(w, PutBits(w, offset, num, value), offset, num))
            <==> Fits(offset, num, value)
  {
    forall w: Word
      ensures Fits(offset, num, value) ==> KeepsOutside(w, PutBits(w, offset, num, value), offset, num)
    {
      NeighboursSurviveHere(w, offset, num, value);
    }
    if forall w: Word :: KeepsOutside(w, PutBits(w, offset, num, value), offset, num) {
      NeighboursSurviveHere(0, offset, num, value);
      DivModUnique(0, Pow2(offset + num), 0, 0);
    }
  }

  /** A value too wide for its field does corrupt the neighbour: 2 written to the single bit 0. */
  lemma OverflowCorrupts()
    ensures GetBits(0, 1, 1) == 0 && GetBits(PutBits(0, 0, 1, 2), 1, 1) == 1
  {
    var r := PutBits(0, 0, 1, 2);
    GetBitsValue(0, 1, 1);
    assert Bit(2, 1);
    PutBitsBit(0, 0, 1, 2, 1);
    GetBitsBit(r, 1, 1, 0);
    GetBitsValue(r, 1, 1);
  }

  // ---------------------------------------------------------------- arithmetic form

  lemma Distribute(h: nat, b: nat, m: nat, a: nat)
    ensures (h * b + m) * a == h * (a * b) + m * a
  {
    assert (h * b) * a == h * (b * a);
  }

  lemma SplitNat(x: nat, a: nat, b: nat)
    requires a >= 1 && b >= 1
    ensures var q := x / a;
            && q >= 0 && x / (a * b) == q / b
            && x == x % a + (q % b) * a + (q / b) * (a * b)
  {
    var q := x / a;
    DivMod(x, a);
    DivMod(q, b);
    var h, m := q / b, q % b;
    Distribute(h, b, m, a);
    Regroup(x % a, m, a, b);
    DivModUnique(x, a * b, h, x % a + m * a);
  }

  lemma Regroup(low: nat, mid: nat, a: nat, b: nat)
    requires low < a && mid < b
    ensures low + mid * a < a * b
  {
    MulStep(mid, b, a);
  }

  /** A word is its low part, a field and its high part, weighted. */
  lemma Split(w: Word, offset: nat, num: nat)
    requires Shiftable(offset, num) && offset + num <= 32
    ensures w == w % Pow2(offset) + GetBits(w, offset, num) * Pow2(offset)
                 + (w / Pow2(offset + num)) * Pow2(offset + num)
  {
    GetBitsValue(w, offset, num);
    Pow2Add(offset, num);
    SplitNat(w, Pow2(offset), Pow2(num));
  }

  /** Writing a fitting value adds the change of the field, weighted: nothing is borrowed or carried. */
  lemma PutBitsClosedForm(w: Word, offset: nat, num: nat, value: Word)
    requires Shiftable(offset, num) && offset + num <= 32 && Fits(offset, num, value)
    ensures PutBits(w, offset, num, value)
            == w + (value % Pow2(num) - GetBits(w, offset, num)) * Pow2(offset)
  {
    var r := PutBits(w, offset, num, value);
    PutBitsEffect(w, offset, num, value);
    Split(w, offset, num);
    Split(r, offset, num);
  }

  /** Reading inside a read field reads the register directly. */
  lemma NestedRead(w: Word, o1: nat, n1: nat, o2: nat, n2: nat)
    requires Shiftable(o1, n1) && o1 + n1 <= 32 && 1 <= n2 && o2 + n2 <= n1
    ensures GetBits(GetBits(w, o1, n1), o2, n2) == GetBits(w, o1 + o2, n2)
  {
    var outer := GetBits(w, o1, n1);
    forall i: nat | i < 32
      ensures Bit(GetBits(outer, o2, n2), i) <==> Bit(GetBits(w, o1 + o2, n2), i)
    {
      GetBitsBit(outer, o2, n2, i);
      GetBitsBit(w, o1, n1, o2 + i);
      GetBitsBit(w, o1 + o2, n2, i);
    }
    SameWord(GetBits(outer, o2, n2), GetBits(w, o1 + o2, n2));
  }
}
