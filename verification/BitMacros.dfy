/** The single-bit macros `SYS_SET_BIT`, `SYS_CLR_BIT`, `SYS_PUT_BIT` and `SYS_GET_BIT`.

    The mask `1 << bit` has 32 bits whatever the type of the variable, and the assignment converts the
    result back to that type; `width` is the width of the variable. */
module BitMacros {
  import opened Words
  import opened Fields
  import Sequences

  function SetBit(width: nat, x: nat, bit: nat): (r: nat)
    requires width <= 32 && x < Pow2(width) && bit < 32
    ensures r < Pow2(width)
  {
    Trunc(width, Or(x, Shl(32, 1, bit)))
  }

  function ClrBit(width: nat, x: nat, bit: nat): (r: nat)
    requires width <= 32 && x < Pow2(width) && bit < 32
    ensures r < Pow2(width)
  {
    Trunc(width, And(x, Not(32, Shl(32, 1, bit))))
  }

  function PutBit(width: nat, x: nat, bit: nat, val: int): (r: nat)
    requires width <= 32 && x < Pow2(width) && bit < 32
    ensures r < Pow2(width)
  {
    Trunc(width, Or(And(x, Not(32, Shl(32, 1, bit))), Shl(32, if val != 0 then 1 else 0, bit)))
  }

  /** The write on a 32-bit variable. */
  function PutBit32(w: Word, bit: nat, val: int): (r: Word)
    requires bit < 32
  {
    WordWidth();
    PutBit(32, w, bit, val)
  }

  function GetBit(x: nat, bit: nat): (r: nat) {
    And(Shr(x, bit), 1)
  }

  // ---------------------------------------------------------------- digits

  lemma BitOne(bit: nat, i: nat)
    requires bit < 32
    ensures Bit(Shl(32, 1, bit), i) <==> i == bit
  {
    BitShl(32, 1, bit, i);
    if bit <= i {
      BitPow2(0, i - bit);
    }
  }

  lemma SetBitDigit(width: nat, x: nat, bit: nat, i: nat)
    requires width <= 32 && x < Pow2(width) && bit < 32 && i < width
    ensures Bit(SetBit(width, x, bit), i) <==> i == bit || Bit(x, i)
  {
    BitTrunc(width, Or(x, Shl(32, 1, bit)), i);
    BitOr(x, Shl(32, 1, bit), i);
    BitOne(bit, i);
  }

  lemma ClrBitDigit(width: nat, x: nat, bit: nat, i: nat)
    requires width <= 32 && x < Pow2(width) && bit < 32 && i < width
    ensures Bit(ClrBit(width, x, bit), i) <==> i != bit && Bit(x, i)
  {
    var hole := Not(32, Shl(32, 1, bit));
    BitTrunc(width, And(x, hole), i);
    BitAnd(x, hole, i);
    BitNot(32, Shl(32, 1, bit), i);
    BitOne(bit, i);
  }

  lemma PutBitDigit(width: nat, x: nat, bit: nat, val: int, i: nat)
    requires width <= 32 && x < Pow2(width) && bit < 32 && i < width
    ensures Bit(PutBit(width, x, bit, val), i) <==> if i == bit then val != 0 else Bit(x, i)
  {
    var hole, on := Not(32, Shl(32, 1, bit)), Shl(32, if val != 0 then 1 else 0, bit);
    BitTrunc(width, Or(And(x, hole), on), i);
    BitOr(And(x, hole), on, i);
    BitAnd(x, hole, i);
    BitNot(32, Shl(32, 1, bit), i);
    BitOne(bit, i);
    BitShl(32, 0, bit, i);
    if bit <= i {
      BitZero(i - bit);
    }
  }

  lemma PutBit32Digit(w: Word, bit: nat, val: int, i: nat)
    requires bit < 32 && i < 32
    ensures Bit(PutBit32(w, bit, val), i) <==> if i == bit then val != 0 else Bit(w, i)
  {
    WordWidth();
    PutBitDigit(32, w, bit, val, i);
  }

  lemma GetBitDigit(x: nat, bit: nat)
    ensures GetBit(x, bit) == if Bit(x, bit) then 1 else 0
  {
    assert Pow2(1) == 2;
    AndOnes(Shr(x, bit), 1);
    BitShr(x, bit, 0);
  }

  // ---------------------------------------------------------------- runs refine a set of bit numbers

  datatype BitOp = Set(bit: nat) | Clr(bit: nat) | Put(bit: nat, val: int)

  function Apply(width: nat, x: nat, op: BitOp): (r: nat)
    requires width <= 32 && x < Pow2(width) && op.bit < 32
    ensures r < Pow2(width)
  {
    match op
    case Set(b) => SetBit(width, x, b)
    case Clr(b) => ClrBit(width, x, b)
    case Put(b, v) => PutBit(width, x, b, v)
  }

  function BitRun(width: nat, x: nat, ops: seq<BitOp>): (r: nat)
    requires width <= 32 && x < Pow2(width)
    requires forall k :: 0 <= k < |ops| ==> ops[k].bit < 32
    ensures r < Pow2(width)
  {
    if ops == [] then x else Apply(width, BitRun(width, x, ops[..|ops| - 1]), ops[|ops| - 1])
  }

  /** The numbers of the bits that are set. */
  ghost function Members(width: nat, x: nat): set<nat> {
    set i: nat | i < width && Bit(x, i)
  }

  /** One macro on the set: an insertion or a removal, lost when the bit is not in the variable. */
  ghost function SetStep(width: nat, s: set<nat>, op: BitOp): set<nat> {
    if op.bit < width && (op.Set? || (op.Put? && op.val != 0)) then s + {op.bit} else s - {op.bit}
  }

  ghost function SetRun(width: nat, s: set<nat>, ops: seq<BitOp>): set<nat> {
    if ops == [] then s else SetStep(width, SetRun(width, s, ops[..|ops| - 1]), ops[|ops| - 1])
  }

  lemma ApplyRefinesSet(width: nat, x: nat, op: BitOp)
    requires width <= 32 && x < Pow2(width) && op.bit < 32
    ensures Members(width, Apply(width, x, op)) == SetStep(width, Members(width, x), op)
  {
    forall i: nat | i < width
      ensures i in Members(width, Apply(width, x, op)) <==> i in SetStep(width, Members(width, x), op)
    {
      match op
      case Set(b) => SetBitDigit(width, x, b, i);
      case Clr(b) => ClrBitDigit(width, x, b, i);
      case Put(b, v) => PutBitDigit(width, x, b, v, i);
    }
  }

  /** After any run of the macros the variable is the set that the same insertions and removals build,
      and `SYS_GET_BIT` decides membership in it. */
  lemma {:induction false} BitRunRefinesSet(width: nat, x: nat, ops: seq<BitOp>)
    requires width <= 32 && x < Pow2(width)
    requires forall k :: 0 <= k < |ops| ==> ops[k].bit < 32
    ensures Members(width, BitRun(width, x, ops)) == SetRun(width, Members(width, x), ops)
    ensures forall i: nat :: i < width ==>
              GetBit(BitRun(width, x, ops), i) == if i in SetRun(width, Members(width, x), ops) then 1 else 0
    decreases |ops|
  {
    if ops != [] {
      BitRunRefinesSet(width, x, ops[..|ops| - 1]);
      ApplyRefinesSet(width, BitRun(width, x, ops[..|ops| - 1]), ops[|ops| - 1]);
    }
    var r := BitRun(width, x, ops);
    forall i: nat | i < width
      ensures GetBit(r, i) == if i in Members(width, r) then 1 else 0
    {
      GetBitDigit(r, i);
    }
  }

  /** The set is the whole variable: distinct values have distinct sets. */
  lemma MembersDetermine(width: nat, x: nat, y: nat)
    requires x < Pow2(width) && y < Pow2(width) && Members(width, x) == Members(width, y)
    ensures x == y
  {
    forall i: nat | i < width
      ensures Bit(x, i) <==> Bit(y, i)
    {
      assert i in Members(width, x) <==> i in Members(width, y);
    }
    Extensional(x, y, width);
  }

  // ---------------------------------------------------------------- agreement with the register functions

  lemma GetBitAgrees(w: Word, bit: nat)
    requires bit < 32
    ensures GetBit(w, bit) == GetBits(w, bit, 1)
  {
    MaskIsOnes(1);
  }

  lemma PutBitAgrees(w: Word, bit: nat, val: Word)
    requires bit < 32 && Trunc(32 - bit, val) == if val != 0 then 1 else 0
    ensures PutBits(w, bit, 1, val) == PutBit32(w, bit, val)
  {
    forall i: nat | i < 32
      ensures Bit(PutBits(w, bit, 1, val), i) <==> Bit(PutBit32(w, bit, val), i)
    {
      PutBitsBit(w, bit, 1, val, i);
      PutBit32Digit(w, bit, val, i);
      if bit <= i {
        BitTrunc(32 - bit, val, i - bit);
        DigitBit(val != 0, i - bit);
      }
    }
    SameWord(PutBits(w, bit, 1, val), PutBit32(w, bit, val));
  }

  /** The single-bit write macro and the register function do the same on every register exactly when the
      value, cut to the bits from `bit` up, is already the digit the macro stores. */
  lemma PutBitAgreesIff(bit: nat, val: Word)
    requires bit < 32
    ensures (forall w: Word :: PutBits(w, bit, 1, val) == PutBit32(w, bit, val))
            <==> val % Pow2(32 - bit) == if val != 0 then 1 else 0
  {
    var digit := if val != 0 then 1 else 0;
    if Trunc(32 - bit, val) == digit {
      forall w: Word
        ensures PutBits(w, bit, 1, val) == PutBit32(w, bit, val)
      {
        PutBitAgrees(w, bit, val);
      }
    }
    if PutBits(0, bit, 1, val) == PutBit32(0, bit, val) {
      Pow2Mono(1, 32 - bit);
      forall i: nat | i < 32 - bit
        ensures Bit(Trunc(32 - bit, val), i) <==> Bit(digit, i)
      {
        PutBitsBit(0, bit, 1, val, bit + i);
        PutBit32Digit(0, bit, val, bit + i);
        BitTrunc(32 - bit, val, i);
        BitZero(bit + i);
        DigitBit(val != 0, i);
      }
      Extensional(Trunc(32 - bit, val), digit, 32 - bit);
    }
  }

  lemma DigitBit(on: bool, i: nat)
    ensures Bit(if on then 1 else 0, i) <==> on && i == 0
  {
    if on {
      BitPow2(0, i);
    } else {
      BitZero(i);
    }
  }

  /** One write of a digit, through the register function or through the macro. */
  datatype Single = Single(hal: bool, bit: nat, on: bool)

  function ApplySingle(w: Word, s: Single): (r: Word)
    requires s.bit < 32
  {
    if s.hal then PutBits(w, s.bit, 1, if s.on then 1 else 0) else PutBit32(w, s.bit, if s.on then 1 else 0)
  }

  function SingleRun(w: Word, xs: seq<Single>): (r: Word)
    requires forall k :: 0 <= k < |xs| ==> xs[k].bit < 32
  {
    if xs == [] then w else ApplySingle(SingleRun(w, xs[..|xs| - 1]), xs[|xs| - 1])
  }

  /** In a mixed run each write may go through either implementation. */
  lemma {:induction false} MixedRunAgrees(w: Word, xs: seq<Single>, ys: seq<Single>)
    requires |xs| == |ys|
    requires forall k :: 0 <= k < |xs| ==> xs[k].bit == ys[k].bit < 32 && xs[k].on == ys[k].on
    ensures SingleRun(w, xs) == SingleRun(w, ys)
    decreases |xs|
  {
    if xs != [] {
      var n := |xs| - 1;
      MixedRunAgrees(w, xs[..n], ys[..n]);
      var digit := if xs[n].on then 1 else 0;
      WordWidth();
      Pow2Mono(1, 32 - xs[n].bit);
      DivModUnique(digit, Pow2(32 - xs[n].bit), 0, digit);
      PutBitAgrees(SingleRun(w, xs[..n]), xs[n].bit, digit);
    }
  }

  // ---------------------------------------------------------------- a field write, bit by bit

  predicate InReach(offset: nat, order: seq<nat>) {
    forall k :: 0 <= k < |order| ==> offset + order[k] < 32
  }

  /** `SYS_PUT_BIT` for the digits of value listed in order, each at its place above offset. */
  function PutDigits(w: Word, offset: nat, value: Word, order: seq<nat>): (r: Word)
    requires InReach(offset, order)
  {
    if order == [] then w
    else
      var d := order[|order| - 1];
      PutBit32(PutDigits(w, offset, value, order[..|order| - 1]), offset + d, GetBit(value, d))
  }

  lemma {:induction false} PutDigitsBit(w: Word, offset: nat, value: Word, order: seq<nat>, i: nat)
    requires i < 32
    requires InReach(offset, order)
    ensures Bit(PutDigits(w, offset, value, order), i) <==>
            if offset <= i && i - offset in order then Bit(value, i - offset) else Bit(w, i)
    decreases |order|
  {
    if order != [] {
      var n := |order| - 1;
      var d, init := order[n], order[..n];
      PutDigitsBit(w, offset, value, init, i);
      CopyDigit(PutDigits(w, offset, value, init), offset, value, d, i);
      Sequences.LastOrEarlier(order, i - offset);
    }
  }

  lemma CopyDigit(w: Word, offset: nat, value: Word, d: nat, i: nat)
    requires offset + d < 32 && i < 32
    ensures Bit(PutBit32(w, offset + d, GetBit(value, d)), i) <==> if i == offset + d then Bit(value, d) else Bit(w, i)
  {
    GetBitDigit(value, d);
    PutBit32Digit(w, offset + d, GetBit(value, d), i);
  }

  ghost predicate Lists(order: seq<nat>, num: nat) {
    forall d: nat :: d in order <==> d < num
  }

  /** A fitting `hal_put_bits` is `SYS_PUT_BIT` on each digit of the field, in any order and with
      repetitions allowed. */
  lemma PutBitsIsDigitByDigit(w: Word, offset: nat, num: nat, value: Word, order: seq<nat>)
    requires Shiftable(offset, num) && offset + num <= 32 && Fits(offset, num, value)
    requires Lists(order, num)
    ensures InReach(offset, order) && PutDigits(w, offset, value, order) == PutBits(w, offset, num, value)
  {
    assert InReach(offset, order) by {
      forall k | 0 <= k < |order|
        ensures offset + order[k] < 32
      {
        assert order[k] in order;
      }
    }
    forall i: nat | i < 32
      ensures Bit(PutDigits(w, offset, value, order), i) <==> Bit(PutBits(w, offset, num, value), i)
    {
      PutDigitsBit(w, offset, value, order, i);
      PutBitsBit(w, offset, num, value, i);
      FitsBits(offset, num, value);
    }
    SameWord(PutDigits(w, offset, value, order), PutBits(w, offset, num, value));
  }
}
