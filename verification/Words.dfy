/** Unsigned machine words of any width, as naturals, with the C operators on them.

    Shifts are the quotient and the truncated product by a power of two; `&`, `|` and `~` work on the
    binary digits.  `Bit` reads one digit, and every law about the operators is a law about digits:
    two words of a width are equal as soon as their digits below that width agree (`SameBits`). */
module Words {

  function Pow2(n: nat): (p: nat)
    ensures p >= 1
  {
    if n == 0 then 1 else 2 * Pow2(n - 1)
  }

  /** Digit i of x. */
  predicate Bit(x: nat, i: nat)
    decreases i
  {
    if i == 0 then x % 2 == 1 else Bit(x / 2, i - 1)
  }

  function And(x: nat, y: nat): (r: nat)
    ensures r <= x && r <= y
    decreases x
  {
    if x == 0 || y == 0 then 0
    else 2 * And(x / 2, y / 2) + (if x % 2 == 1 && y % 2 == 1 then 1 else 0)
  }

  function Or(x: nat, y: nat): (r: nat)
    ensures r >= x && r >= y
    decreases x + y
  {
    if x == 0 then y else if y == 0 then x
    else 2 * Or(x / 2, y / 2) + (if x % 2 == 1 || y % 2 == 1 then 1 else 0)
  }

  /** `~x` at the given width. */
  function Not(width: nat, x: nat): (r: nat)
    requires x < Pow2(width)
    ensures r < Pow2(width)
  {
    Pow2(width) - 1 - x
  }

  /** Conversion to an unsigned type of the given width. */
  function Trunc(width: nat, x: nat): (r: nat)
    ensures r < Pow2(width)
  {
    x % Pow2(width)
  }

  /** `x >> k`. */
  function Shr(x: nat, k: nat): nat {
    DivNat(x, Pow2(k));
    x / Pow2(k)
  }

  /** `x << k` at the given width. */
  function Shl(width: nat, x: nat, k: nat): (r: nat)
    ensures r < Pow2(width)
  {
    Trunc(width, x * Pow2(k))
  }

  // ---------------------------------------------------------------- arithmetic

  lemma DivNat(x: nat, d: nat)
    requires d >= 1
    ensures x / d >= 0
  {
  }

  /** Quotient and remainder are the only pair that splits x. */
  lemma DivModUnique(x: nat, d: nat, q: nat, r: nat)
    requires x == q * d + r && r < d
    ensures x / d == q && x % d == r
  {
    DivMod(x, d);
    SplitUnique(d, q, r, x / d, x % d);
  }

  lemma DivMod(x: nat, d: nat)
    requires d >= 1
    ensures x == (x / d) * d + x % d && x / d >= 0 && 0 <= x % d < d
  {
  }

  lemma SplitUnique(d: nat, q: nat, r: nat, q': nat, r': nat)
    requires q * d + r == q' * d + r' && r < d && r' < d
    ensures q == q' && r == r'
  {
    if q < q' {
      MulStep(q, q', d);
    } else if q' < q {
      MulStep(q', q, d);
    }
  }

  lemma MulMono(a: nat, b: nat, c: nat)
    requires a <= b
    ensures a * c <= b * c
  {
  }

  lemma MulStep(a: nat, b: nat, c: nat)
    requires a < b
    ensures a * c + c <= b * c
  {
    var k := b - a - 1;
    assert b * c == a * c + c + k * c;
    assert k * c >= 0;
  }

  lemma QuotientLess(x: nat, a: nat, b: nat)
    requires a >= 1 && x < a * b
    ensures 0 <= x / a < b
  {
    DivMod(x, a);
    if x / a >= b {
      MulMono(b, x / a, a);
    }
  }

  lemma {:induction false} Pow2Add(a: nat, b: nat)
    ensures Pow2(a + b) == Pow2(a) * Pow2(b)
  {
    if a > 0 {
      Pow2Add(a - 1, b);
      assert Pow2(a + b) == 2 * (Pow2(a - 1) * Pow2(b));
    }
  }

  lemma {:induction false} Pow2Mono(a: nat, b: nat)
    requires a <= b
    ensures Pow2(a) <= Pow2(b)
    decreases b
  {
    if a < b {
      Pow2Mono(a, b - 1);
    }
  }

  lemma Pow2Strict(a: nat, b: nat)
    requires a < b
    ensures Pow2(a) < Pow2(b)
  {
    Pow2Mono(a + 1, b);
  }

  /** Halving commutes with division and remainder by a power of two. */
  lemma HalfSplit(x: nat, k: nat)
    ensures x / Pow2(k + 1) == (x / 2) / Pow2(k)
    ensures x % Pow2(k + 1) == 2 * ((x / 2) % Pow2(k)) + x % 2
  {
    var p := Pow2(k);
    var q, r := (x / 2) / p, (x / 2) % p;
    assert x / 2 == q * p + r;
    assert q * (2 * p) == 2 * (q * p);
    DivModUnique(x, 2 * p, q, 2 * r + x % 2);
  }

  // ---------------------------------------------------------------- digits of each operator

  lemma {:induction false} BitMeaning(x: nat, i: nat)
    ensures Bit(x, i) <==> (x / Pow2(i)) % 2 == 1
    decreases i
  {
    if i > 0 {
      BitMeaning(x / 2, i - 1);
      HalfSplit(x, i - 1);
    }
  }

  lemma {:induction false} BitZero(i: nat)
    ensures !Bit(0, i)
  {
    if i > 0 {
      BitZero(i - 1);
    }
  }

  lemma {:induction false} BitHigh(x: nat, width: nat, i: nat)
    requires x < Pow2(width) && width <= i
    ensures !Bit(x, i)
    decreases i
  {
    if width == 0 {
      BitZero(i);
    } else {
      BitHigh(x / 2, width - 1, i - 1);
    }
  }

  /** Digits of a number given by its half and its lowest digit. */
  lemma BitCons(half: nat, low: nat, i: nat)
    requires low < 2
    ensures Bit(2 * half + low, i) <==> if i == 0 then low == 1 else Bit(half, i - 1)
  {
    assert (2 * half + low) / 2 == half;
  }

  lemma Halves(x: nat)
    ensures x == 2 * (x / 2) + x % 2
  {
  }

  lemma {:induction false} BitAnd(x: nat, y: nat, i: nat)
    ensures Bit(And(x, y), i) <==> Bit(x, i) && Bit(y, i)
    decreases i
  {
    if x == 0 || y == 0 {
      BitZero(i);
    } else {
      Halves(x);
      Halves(y);
      BitCons(x / 2, x % 2, i);
      BitCons(y / 2, y % 2, i);
      BitCons(And(x / 2, y / 2), if x % 2 == 1 && y % 2 == 1 then 1 else 0, i);
      if i > 0 {
        BitAnd(x / 2, y / 2, i - 1);
      }
    }
  }

  lemma {:induction false} BitOr(x: nat, y: nat, i: nat)
    ensures Bit(Or(x, y), i) <==> Bit(x, i) || Bit(y, i)
    decreases i
  {
    if x == 0 || y == 0 {
      BitZero(i);
    } else {
      Halves(x);
      Halves(y);
      BitCons(x / 2, x % 2, i);
      BitCons(y / 2, y % 2, i);
      BitCons(Or(x / 2, y / 2), if x % 2 == 1 || y % 2 == 1 then 1 else 0, i);
      if i > 0 {
        BitOr(x / 2, y / 2, i - 1);
      }
    }
  }

  lemma {:induction false} BitNot(width: nat, x: nat, i: nat)
    requires x < Pow2(width)
    ensures Bit(Not(width, x), i) <==> i < width && !Bit(x, i)
    decreases width
  {
    if i >= width {
      BitHigh(Not(width, x), width, i);
    } else {
      Halves(x);
      BitCons(x / 2, x % 2, i);
      BitCons(Not(width - 1, x / 2), 1 - x % 2, i);
      if i > 0 {
        BitNot(width - 1, x / 2, i - 1);
      }
    }
  }

  lemma {:induction false} BitTrunc(width: nat, x: nat, i: nat)
    ensures Bit(Trunc(width, x), i) <==> i < width && Bit(x, i)
    decreases width
  {
    if width == 0 {
      BitHigh(Trunc(width, x), 0, i);
    } else {
      var low := Trunc(width - 1, x / 2);
      assert Trunc(width, x) == 2 * low + x % 2 by {
        HalfSplit(x, width - 1);
      }
      BitCons(low, x % 2, i);
      BitCons(x / 2, x % 2, i);
      if i > 0 {
        BitTrunc(width - 1, x / 2, i - 1);
      }
    }
  }

  lemma {:induction false} BitShr(x: nat, k: nat, i: nat)
    ensures Bit(Shr(x, k), i) <==> Bit(x, k + i)
    decreases k
  {
    if k > 0 {
      HalfSplit(x, k - 1);
      BitShr(x / 2, k - 1, i);
    }
  }

  /** Digits of a shift to the left before truncation. */
  lemma {:induction false} BitMul(x: nat, k: nat, i: nat)
    ensures Bit(x * Pow2(k), i) <==> k <= i && Bit(x, i - k)
    decreases k
  {
    if k > 0 {
      var y := x * Pow2(k - 1);
      assert x * Pow2(k) == 2 * y;
      if i > 0 {
        BitMul(x, k - 1, i - 1);
      }
    }
  }

  lemma BitShl(width: nat, x: nat, k: nat, i: nat)
    ensures Bit(Shl(width, x, k), i) <==> k <= i < width && Bit(x, i - k)
  {
    BitTrunc(width, x * Pow2(k), i);
    BitMul(x, k, i);
  }

  /** Digits of 2^k - 1, the mask of k ones. */
  lemma {:induction false} BitOnes(k: nat, i: nat)
    ensures Bit(Pow2(k) - 1, i) <==> i < k
    decreases i
  {
    if k == 0 {
      BitZero(i);
    } else if i > 0 {
      BitOnes(k - 1, i - 1);
      assert (Pow2(k) - 1) / 2 == Pow2(k - 1) - 1;
    }
  }

  lemma {:induction false} BitPow2(k: nat, i: nat)
    ensures Bit(Pow2(k), i) <==> i == k
  {
    BitMul(1, k, i);
    if i > k {
      BitHigh(1, 1, i - k);
    }
  }

  // ---------------------------------------------------------------- digits determine words

  ghost predicate SameBits(x: nat, y: nat, width: nat) {
    forall i: nat :: i < width ==> (Bit(x, i) <==> Bit(y, i))
  }

  lemma {:induction false} Extensional(x: nat, y: nat, width: nat)
    requires x < Pow2(width) && y < Pow2(width)
    requires SameBits(x, y, width)
    ensures x == y
    decreases width
  {
    if width > 0 {
      assert Bit(x, 0) <==> Bit(y, 0);
      forall i: nat | i < width - 1
        ensures Bit(x / 2, i) <==> Bit(y / 2, i)
      {
        assert Bit(x, i + 1) <==> Bit(y, i + 1);
      }
      Extensional(x / 2, y / 2, width - 1);
    }
  }

  lemma {:induction false} OrBound(x: nat, y: nat, width: nat)
    requires x < Pow2(width) && y < Pow2(width)
    ensures Or(x, y) < Pow2(width)
    decreases width
  {
    if x > 0 && y > 0 {
      OrBound(x / 2, y / 2, width - 1);
    }
  }

  /** Words without a common digit add without carry, so `|` and `+` agree on them. */
  lemma {:induction false} OrIsAdd(x: nat, y: nat)
    requires And(x, y) == 0
    ensures Or(x, y) == x + y
    decreases x + y
  {
    if x > 0 && y > 0 {
      OrIsAdd(x / 2, y / 2);
    }
  }

  /** A low part below 2^k and a shifted high part never share a digit. */
  lemma {:induction false} Concat(lo: nat, hi: nat, k: nat)
    requires lo < Pow2(k)
    ensures And(lo, hi * Pow2(k)) == 0
    ensures Or(lo, hi * Pow2(k)) == lo + hi * Pow2(k)
    ensures (lo + hi * Pow2(k)) % Pow2(k) == lo && (lo + hi * Pow2(k)) / Pow2(k) == hi
  {
    forall i: nat | i < k
      ensures Bit(And(lo, hi * Pow2(k)), i) <==> Bit(0, i)
    {
      BitAnd(lo, hi * Pow2(k), i);
      BitMul(hi, k, i);
      BitZero(i);
    }
    Extensional(And(lo, hi * Pow2(k)), 0, k);
    OrIsAdd(lo, hi * Pow2(k));
    DivModUnique(lo + hi * Pow2(k), Pow2(k), hi, lo);
  }

  /** Masking with k ones is the remainder by 2^k. */
  lemma AndOnes(x: nat, k: nat)
    ensures And(x, Pow2(k) - 1) == x % Pow2(k)
  {
    forall i: nat | i < k
      ensures Bit(And(x, Pow2(k) - 1), i) <==> Bit(Trunc(k, x), i)
    {
      BitAnd(x, Pow2(k) - 1, i);
      BitOnes(k, i);
      BitTrunc(k, x, i);
    }
    Extensional(And(x, Pow2(k) - 1), Trunc(k, x), k);
  }
}
