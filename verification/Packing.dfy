/** Packed identifiers: bytes into words, request contexts, chip revisions, event ids, message ids.

    All of them are positional numbers whose digits have given widths, least significant first; `Pack` and
    `Unpack` are inverse, and each source expression is one of the two. */
module Packing {
  import opened Words
  import opened Fields

  function Sum(widths: seq<nat>): (n: nat) {
    if widths == [] then 0 else widths[0] + Sum(widths[1..])
  }

  function Pack(parts: seq<nat>, widths: seq<nat>): (x: nat)
    requires |parts| == |widths|
  {
    if widths == [] then 0 else parts[0] + Pack(parts[1..], widths[1..]) * Pow2(widths[0])
  }

  /** The parts of x from digit base up. */
  function Unpack(x: nat, base: nat, widths: seq<nat>): (parts: seq<nat>)
    ensures |parts| == |widths|
    decreases |widths|
  {
    if widths == [] then [] else [Trunc(widths[0], Shr(x, base))] + Unpack(x, base + widths[0], widths[1..])
  }

  ghost predicate InRange(parts: seq<nat>, widths: seq<nat>) {
    |parts| == |widths| && forall k :: 0 <= k < |parts| ==> parts[k] < Pow2(widths[k])
  }

  lemma ShrShr(x: nat, a: nat, b: nat)
    ensures Shr(Shr(x, a), b) == Shr(x, a + b)
  {
    Pow2Add(a, b);
    SplitNat(x, Pow2(a), Pow2(b));
  }

  lemma ShrZero(x: nat)
    ensures Shr(x, 0) == x
  {
    assert Pow2(0) == 1;
  }

  lemma {:induction false} PackBound(parts: seq<nat>, widths: seq<nat>)
    requires InRange(parts, widths)
    ensures Pack(parts, widths) < Pow2(Sum(widths))
    decreases |widths|
  {
    if widths != [] {
      PackBound(parts[1..], widths[1..]);
      Pow2Add(widths[0], Sum(widths[1..]));
      Regroup(parts[0], Pack(parts[1..], widths[1..]), Pow2(widths[0]), Pow2(Sum(widths[1..])));
    }
  }

  /** Parts in range come back unchanged from the number they pack into. */
  lemma {:induction false} UnpackPack(x: nat, base: nat, parts: seq<nat>, widths: seq<nat>)
    requires InRange(parts, widths) && Shr(x, base) == Pack(parts, widths)
    ensures Unpack(x, base, widths) == parts
    decreases |widths|
  {
    if widths != [] {
      var rest := Pack(parts[1..], widths[1..]);
      DivModUnique(Pack(parts, widths), Pow2(widths[0]), rest, parts[0]);
      ShrShr(x, base, widths[0]);
      UnpackPack(x, base + widths[0], parts[1..], widths[1..]);
    }
  }

  /** Any number below the total width is the weighted sum of its parts, each in range. */
  lemma {:induction false} PackUnpack(x: nat, base: nat, widths: seq<nat>)
    requires Shr(x, base) < Pow2(Sum(widths))
    ensures InRange(Unpack(x, base, widths), widths)
    ensures Pack(Unpack(x, base, widths), widths) == Shr(x, base)
    decreases |widths|
  {
    if widths != [] {
      var w := widths[0];
      ShrShr(x, base, w);
      Pow2Add(w, Sum(widths[1..]));
      QuotientLess(Shr(x, base), Pow2(w), Pow2(Sum(widths[1..])));
      PackUnpack(x, base + w, widths[1..]);
      DivMod(Shr(x, base), Pow2(w));
      assert Unpack(x, base, widths)[1..] == Unpack(x, base + w, widths[1..]);
    }
  }

  /** The parts of a register are its bit fields at the running offsets, so a register is the weighted
      sum of the fields of any partition of it (with `PackUnpack`). */
  lemma {:induction false} UnpackIsGetBits(w: Word, base: nat, widths: seq<nat>, k: nat)
    requires k < |widths| && widths[k] >= 1 && base + Sum(widths) <= 32
    ensures base + Sum(widths[..k]) + widths[k] <= 32
    ensures Unpack(w, base, widths)[k] == GetBits(w, base + Sum(widths[..k]), widths[k])
    decreases |widths|
  {
    if k == 0 {
      GetBitsValue(w, base, widths[0]);
    } else {
      UnpackIsGetBits(w, base + widths[0], widths[1..], k - 1);
      assert widths[..k][1..] == widths[1..][..k - 1];
    }
  }

  // ---------------------------------------------------------------- masks

  /** Masking with a shifted mask is masking the shifted number, put back in place. */
  lemma {:induction false} AndShifted(x: nat, m: nat, lo: nat)
    ensures And(x, m * Pow2(lo)) == And(Shr(x, lo), m) * Pow2(lo)
    decreases lo
  {
    if lo == 0 {
      ShrZero(x);
    } else {
      var p := Pow2(lo - 1);
      AndShifted(x / 2, m, lo - 1);
      HalfSplit(x, lo - 1);
      AndTwice(x, m * p);
      TwiceProduct(m, p);
      TwiceProduct(And(Shr(x, lo), m), p);
    }
  }

  lemma TwiceProduct(a: nat, p: nat)
    ensures a * (2 * p) == 2 * (a * p)
  {
  }

  lemma AndTwice(x: nat, y: nat)
    ensures And(x, 2 * y) == 2 * And(x / 2, y)
  {
    if x > 0 && y > 0 {
      assert (2 * y) / 2 == y;
    }
  }

  /** A mask of n ones from digit lo up cuts that part out, in place. */
  lemma AndMask(x: nat, lo: nat, n: nat)
    ensures And(x, (Pow2(n) - 1) * Pow2(lo)) == Trunc(n, Shr(x, lo)) * Pow2(lo)
  {
    AndShifted(x, Pow2(n) - 1, lo);
    AndOnes(Shr(x, lo), n);
  }

  lemma BelowShifted(x: nat, n: nat, lo: nat)
    requires x < Pow2(n)
    ensures x * Pow2(lo) < Pow2(n + lo)
  {
    Pow2Add(n, lo);
    MulStep(x, Pow2(n), Pow2(lo));
  }

  lemma Powers()
    ensures Pow2(4) == 0x10 && Pow2(8) == 0x100 && Pow2(12) == 0x1000 && Pow2(16) == 0x1_0000
    ensures Pow2(24) == 0x100_0000 && Pow2(32) == 0x1_0000_0000
  {
    WordWidth();
    assert Pow2(8) == 0x100;
    assert Pow2(12) == 0x1000;
    assert Pow2(16) == 0x1_0000;
  }

  /** A shift that stays inside the width is a product. */
  lemma ShlExact(width: nat, x: nat, k: nat, n: nat)
    requires x < Pow2(n) && n + k <= width
    ensures Shl(width, x, k) == x * Pow2(k) < Pow2(n + k)
  {
    BelowShifted(x, n, k);
    Pow2Mono(n + k, width);
    DivModUnique(x * Pow2(k), Pow2(width), 0, x * Pow2(k));
  }

  // ---------------------------------------------------------------- bytes, words, dwords, lwords

  function MakeWord(low: nat, high: nat): (r: nat) {
    Trunc(16, Or(Trunc(8, low), Shl(32, Trunc(8, high), 8)))
  }

  function MakeDword(low: nat, high: nat): (r: nat) {
    Trunc(32, Or(Trunc(16, low), Shl(32, Trunc(16, high), 16)))
  }

  function MakeLword(low: nat, high: nat): (r: nat) {
    Trunc(64, Or(Trunc(32, low), Shl(64, Trunc(32, high), 32)))
  }

  function GetByte(x: nat, k: nat): (r: nat) {
    And(Shr(x, 8 * k), 0xFF)
  }

  /** Two halves of n digits join into one number of 2n digits, with over-wide halves cut. */
  lemma JoinHalves(n: nat, width: nat, low: nat, high: nat)
    requires n + n <= width
    ensures Trunc(n + n, Or(Trunc(n, low), Shl(width, Trunc(n, high), n))) == Trunc(n, low) + Trunc(n, high) * Pow2(n)
    ensures Trunc(n, low) + Trunc(n, high) * Pow2(n) < Pow2(n + n)
  {
    var l, h := Trunc(n, low), Trunc(n, high);
    ShlExact(width, h, n, n);
    Concat(l, h, n);
    Pow2Add(n, n);
    Regroup(l, h, Pow2(n), Pow2(n));
    DivModUnique(l + h * Pow2(n), Pow2(n + n), 0, l + h * Pow2(n));
  }

  lemma GetByteValue(x: nat, k: nat)
    ensures GetByte(x, k) == Trunc(8, Shr(x, 8 * k))
  {
    Powers();
    AndOnes(Shr(x, 8 * k), 8);
  }

  const BYTES: seq<nat> := [8, 8, 8, 8]

  /** The parts of a number of four bytes are what the byte macros return. */
  lemma GetBytesAreParts(x: nat)
    ensures Unpack(x, 0, BYTES) == [GetByte(x, 0), GetByte(x, 1), GetByte(x, 2), GetByte(x, 3)]
  {
    GetByteValue(x, 0);
    GetByteValue(x, 1);
    GetByteValue(x, 2);
    GetByteValue(x, 3);
    assert BYTES[1..] == [8, 8, 8] && [8, 8, 8][1..] == [8, 8] && [8, 8][1..] == [8] && [8][1..] == [];
    assert Unpack(x, 24, [8]) == [GetByte(x, 3)];
    assert Unpack(x, 16, [8, 8]) == [GetByte(x, 2), GetByte(x, 3)];
    assert Unpack(x, 8, [8, 8, 8]) == [GetByte(x, 1), GetByte(x, 2), GetByte(x, 3)];
    assert Unpack(x, 0, BYTES) == [Trunc(8, Shr(x, 0))] + Unpack(x, 8, BYTES[1..]);
  }

  lemma PackCons(low: nat, parts: seq<nat>, width: nat, widths: seq<nat>)
    requires |parts| == |widths|
    ensures Pack([low] + parts, [width] + widths) == low + Pack(parts, widths) * Pow2(width)
  {
    assert ([low] + parts)[1..] == parts && ([width] + widths)[1..] == widths;
  }

  lemma PackFour(a: nat, b: nat, c: nat, d: nat)
    ensures Pack([a, b, c, d], BYTES) == (a + b * 0x100) + (c + d * 0x100) * 0x1_0000
  {
    Powers();
    PackCons(a, [b, c, d], 8, [8, 8, 8]);
    PackCons(b, [c, d], 8, [8, 8]);
    PackCons(c, [d], 8, [8]);
    PackCons(d, [], 8, []);
    assert BYTES == [8] + [8, 8, 8] && [8, 8, 8] == [8] + [8, 8] && [8, 8] == [8] + [8] && [8] == [8] + [];
    assert [a, b, c, d] == [a] + [b, c, d] && [b, c, d] == [b] + [c, d] && [c, d] == [c] + [d] && [d] == [d] + [];
  }

  lemma MakeWordValue(low: nat, high: nat)
    ensures MakeWord(low, high) == Trunc(8, low) + Trunc(8, high) * 0x100 < 0x1_0000
  {
    Powers();
    JoinHalves(8, 32, low, high);
  }

  lemma MakeDwordValue(low: nat, high: nat)
    requires low < 0x1_0000 && high < 0x1_0000
    ensures MakeDword(low, high) == low + high * 0x1_0000
  {
    Powers();
    JoinHalves(16, 32, low, high);
    DivModUnique(low, Pow2(16), 0, low);
    DivModUnique(high, Pow2(16), 0, high);
  }

  /** Four bytes of any width assemble into the dword with their low bytes as base-256 digits. */
  lemma BytesToDword(a: nat, b: nat, c: nat, d: nat)
    ensures MakeDword(MakeWord(a, b), MakeWord(c, d)) ==
            Pack([Trunc(8, a), Trunc(8, b), Trunc(8, c), Trunc(8, d)], BYTES)
  {
    MakeWordValue(a, b);
    MakeWordValue(c, d);
    MakeDwordValue(MakeWord(a, b), MakeWord(c, d));
    PackFour(Trunc(8, a), Trunc(8, b), Trunc(8, c), Trunc(8, d));
  }

  /** Assembly and disassembly undo each other, over-wide bytes acting modulo 256. */
  lemma DwordRoundTrip(x: Word, a: nat, b: nat, c: nat, d: nat)
    ensures var w := MakeDword(MakeWord(a, b), MakeWord(c, d));
            GetByte(w, 0) == a % 256 && GetByte(w, 1) == b % 256 && GetByte(w, 2) == c % 256 && GetByte(w, 3) == d % 256
    ensures MakeDword(MakeWord(GetByte(x, 0), GetByte(x, 1)), MakeWord(GetByte(x, 2), GetByte(x, 3))) == x
  {
    BytesOfDword(a, b, c, d);
    DwordOfBytes(x);
  }

  lemma BytesOfDword(a: nat, b: nat, c: nat, d: nat)
    ensures var w := MakeDword(MakeWord(a, b), MakeWord(c, d));
            GetByte(w, 0) == a % 256 && GetByte(w, 1) == b % 256 && GetByte(w, 2) == c % 256 && GetByte(w, 3) == d % 256
  {
    Powers();
    var parts := [Trunc(8, a), Trunc(8, b), Trunc(8, c), Trunc(8, d)];
    BytesToDword(a, b, c, d);
    ShrZero(Pack(parts, BYTES));
    UnpackPack(Pack(parts, BYTES), 0, parts, BYTES);
    GetBytesAreParts(Pack(parts, BYTES));
  }

  lemma DwordOfBytes(x: Word)
    ensures MakeDword(MakeWord(GetByte(x, 0), GetByte(x, 1)), MakeWord(GetByte(x, 2), GetByte(x, 3))) == x
  {
    Powers();
    var p := Unpack(x, 0, BYTES);
    SumOfBytes();
    GetBytesAreParts(x);
    ShrZero(x);
    PackUnpack(x, 0, BYTES);
    BytesToDword(p[0], p[1], p[2], p[3]);
    forall k | 0 <= k < 4
      ensures Trunc(8, p[k]) == p[k]
    {
      DivModUnique(p[k], Pow2(8), 0, p[k]);
    }
    assert p == [Trunc(8, p[0]), Trunc(8, p[1]), Trunc(8, p[2]), Trunc(8, p[3])];
  }

  lemma SumOfBytes()
    ensures Sum(BYTES) == 32
  {
    assert BYTES[1..] == [8, 8, 8] && [8, 8, 8][1..] == [8, 8] && [8, 8][1..] == [8] && [8][1..] == [];
  }

  /** Two dwords join into a 64-bit word from which both come back, over-wide dwords cut to 32 bits. */
  lemma LwordRoundTrip(low: nat, high: nat)
    ensures var x := MakeLword(low, high);
            && x == low % 0x1_0000_0000 + (high % 0x1_0000_0000) * 0x1_0000_0000
            && Trunc(32, x) == low % 0x1_0000_0000 && Shr(x, 32) == high % 0x1_0000_0000
  {
    JoinHalves(32, 64, low, high);
    WordWidth();
    Concat(Trunc(32, low), Trunc(32, high), 32);
  }
}
