/** Whole runs of `hal_put_bits` on one register: any number of writes, to any fields, in any order.

    The run is related to two simpler machines: bit by bit to "the last write that covers the bit", and
    for a layout of disjoint fields to an abstract map from fields to values. */
module FieldRuns {
  import opened Words
  import opened Fields

  datatype Field = Field(offset: nat, num: nat) {
    predicate InWord() {
      1 <= num && offset + num <= 32
    }

    predicate Covers(i: nat) {
      offset <= i < offset + num
    }

    predicate Disjoint(g: Field) {
      offset + num <= g.offset || g.offset + g.num <= offset
    }
  }

  datatype Write = Write(field: Field, value: Word) {
    /** The write stays inside its field. */
    predicate Safe() {
      field.InWord() && Fits(field.offset, field.num, value)
    }

    /** The digit that the write gives to bit i of the register. */
    predicate Digit(i: nat)
      requires field.Covers(i)
    {
      Bit(value, i - field.offset)
    }
  }

  function Read(w: Word, f: Field): (r: Word)
    requires f.InWord()
  {
    GetBits(w, f.offset, f.num)
  }

  function Put(w: Word, x: Write): (r: Word)
    requires x.field.InWord()
  {
    PutBits(w, x.field.offset, x.field.num, x.value)
  }

  predicate AllSafe(xs: seq<Write>) {
    forall k :: 0 <= k < |xs| ==> xs[k].Safe()
  }

  /** The register after the writes xs, first to last. */
  function Run(w: Word, xs: seq<Write>): (r: Word)
    requires AllSafe(xs)
  {
    if xs == [] then w else Put(Run(w, xs[..|xs| - 1]), xs[|xs| - 1])
  }

  /** The last write that covers bit i, or -1. */
  function LastCover(xs: seq<Write>, i: nat): (k: int)
    ensures -1 <= k < |xs|
    ensures k >= 0 ==> xs[k].field.Covers(i)
    ensures forall j :: k < j < |xs| ==> !xs[j].field.Covers(i)
  {
    if xs == [] then -1
    else if xs[|xs| - 1].field.Covers(i) then |xs| - 1
    else LastCover(xs[..|xs| - 1], i)
  }

  lemma PutDigit(w: Word, x: Write, i: nat)
    requires x.Safe() && i < 32
    ensures Bit(Put(w, x), i) <==> if x.field.Covers(i) then x.Digit(i) else Bit(w, i)
  {
    PutBitsBit(w, x.field.offset, x.field.num, x.value, i);
    FitsBits(x.field.offset, x.field.num, x.value);
  }

  /** Every bit of the register holds what its last writer gave it, or its initial digit. */
  lemma {:induction false} RunDigit(w: Word, xs: seq<Write>, i: nat)
    requires AllSafe(xs) && i < 32
    ensures var k := LastCover(xs, i);
            Bit(Run(w, xs), i) <==> if k >= 0 then xs[k].Digit(i) else Bit(w, i)
    decreases |xs|
  {
    if xs != [] {
      var init := xs[..|xs| - 1];
      RunDigit(w, init, i);
      PutDigit(Run(w, init), xs[|xs| - 1], i);
    }
  }

  // ---------------------------------------------------------------- refinement of a field map

  ghost predicate Layout(fields: set<Field>) {
    && (forall f :: f in fields ==> f.InWord())
    && (forall f, g :: f in fields && g in fields && f != g ==> f.Disjoint(g))
  }

  /** What the register says about a layout. */
  ghost function FieldMap(fields: set<Field>, w: Word): map<Field, nat>
    requires Layout(fields)
  {
    map f | f in fields :: Read(w, f)
  }

  /** The abstract machine: each write replaces the value of its field and nothing else. */
  ghost function Assign(m: map<Field, nat>, xs: seq<Write>): map<Field, nat> {
    if xs == [] then m
    else
      var x := xs[|xs| - 1];
      Assign(m, xs[..|xs| - 1])[x.field := x.value % Pow2(x.field.num)]
  }

  ghost predicate SameOutside(fields: set<Field>, w: Word, r: Word) {
    forall i: nat :: i < 32 && (forall f :: f in fields ==> !f.Covers(i)) ==> (Bit(r, i) <==> Bit(w, i))
  }

  lemma ReadOtherField(w: Word, x: Write, f: Field)
    requires x.Safe() && f.InWord() && f.Disjoint(x.field)
    ensures Read(Put(w, x), f) == Read(w, f)
  {
    forall i: nat | i < 32
      ensures Bit(Read(Put(w, x), f), i) <==> Bit(Read(w, f), i)
    {
      GetBitsBit(Put(w, x), f.offset, f.num, i);
      GetBitsBit(w, f.offset, f.num, i);
      if i < f.num {
        PutDigit(w, x, f.offset + i);
      }
    }
    SameWord(Read(Put(w, x), f), Read(w, f));
  }

  lemma PutRefinesUpdate(fields: set<Field>, w: Word, x: Write)
    requires Layout(fields) && x.Safe() && x.field in fields
    ensures FieldMap(fields, Put(w, x)) == FieldMap(fields, w)[x.field := x.value % Pow2(x.field.num)]
    ensures SameOutside(fields, w, Put(w, x))
  {
    PutInside(w, x.field.offset, x.field.num, x.value);
    forall f | f in fields && f != x.field
      ensures Read(Put(w, x), f) == Read(w, f)
    {
      ReadOtherField(w, x, f);
    }
    forall i: nat | i < 32 && !x.field.Covers(i)
      ensures Bit(Put(w, x), i) <==> Bit(w, i)
    {
      PutDigit(w, x, i);
    }
  }

  /** Any run of safe writes to the fields of a layout refines assignments to an abstract map, and no bit
      outside the layout ever changes. */
  lemma {:induction false} RunRefinesFieldMap(fields: set<Field>, w: Word, xs: seq<Write>)
    requires Layout(fields) && AllSafe(xs)
    requires forall k :: 0 <= k < |xs| ==> xs[k].field in fields
    ensures FieldMap(fields, Run(w, xs)) == Assign(FieldMap(fields, w), xs)
    ensures SameOutside(fields, w, Run(w, xs))
    decreases |xs|
  {
    if xs != [] {
      var init, x := xs[..|xs| - 1], xs[|xs| - 1];
      RunRefinesFieldMap(fields, w, init);
      PutRefinesUpdate(fields, Run(w, init), x);
    }
  }

  /** The field map and the uncovered bits leave no freedom: together they are the register. */
  lemma FieldMapDeterminesWord(fields: set<Field>, w: Word, r: Word)
    requires Layout(fields)
    requires FieldMap(fields, w) == FieldMap(fields, r) && SameOutside(fields, w, r)
    ensures w == r
  {
    forall i: nat | i < 32
      ensures Bit(w, i) <==> Bit(r, i)
    {
      if f :| f in fields && f.Covers(i) {
        assert FieldMap(fields, w)[f] == FieldMap(fields, r)[f];
        GetBitsBit(w, f.offset, f.num, i - f.offset);
        GetBitsBit(r, f.offset, f.num, i - f.offset);
      }
    }
    SameWord(w, r);
  }

  // ---------------------------------------------------------------- order of writes

  /** Two writes give the same digit to every bit they share; disjoint fields always agree. */
  ghost predicate Agree(x: Write, y: Write) {
    forall i: nat :: x.field.Covers(i) && y.field.Covers(i) ==> (x.Digit(i) <==> y.Digit(i))
  }

  /** Both runs or neither decide bit i, and if both, alike. */
  predicate SameAt(xs: seq<Write>, ys: seq<Write>, i: nat) {
    var k, l := LastCover(xs, i), LastCover(ys, i);
    (k >= 0 <==> l >= 0) && (k >= 0 && l >= 0 ==> (xs[k].Digit(i) <==> ys[l].Digit(i)))
  }

  ghost predicate SameLast(xs: seq<Write>, ys: seq<Write>) {
    forall i: nat :: i < 32 ==> SameAt(xs, ys, i)
  }

  ghost predicate SameEffect(xs: seq<Write>, ys: seq<Write>)
    requires AllSafe(xs) && AllSafe(ys)
  {
    forall w: Word :: Run(w, xs) == Run(w, ys)
  }

  /** Two runs have the same effect on every register exactly when, bit by bit, both or neither cover it
      and the last covering writes agree. */
  lemma RunEqualIff(xs: seq<Write>, ys: seq<Write>)
    requires AllSafe(xs) && AllSafe(ys)
    ensures SameEffect(xs, ys) <==> SameLast(xs, ys)
  {
    if SameLast(xs, ys) {
      forall w: Word
        ensures Run(w, xs) == Run(w, ys)
      {
        SameLastSameRun(w, xs, ys);
      }
    }
    if SameEffect(xs, ys) {
      SameRunSameLast(xs, ys, 0, ALL_ONES);
    }
  }

  lemma SameLastSameRun(w: Word, xs: seq<Write>, ys: seq<Write>)
    requires AllSafe(xs) && AllSafe(ys) && SameLast(xs, ys)
    ensures Run(w, xs) == Run(w, ys)
  {
    forall i: nat | i < 32
      ensures Bit(Run(w, xs), i) <==> Bit(Run(w, ys), i)
    {
      RunDigit(w, xs, i);
      RunDigit(w, ys, i);
      assert SameAt(xs, ys, i);
    }
    SameWord(Run(w, xs), Run(w, ys));
  }

  lemma SameRunSameLast(xs: seq<Write>, ys: seq<Write>, zeros: Word, ones: Word)
    requires AllSafe(xs) && AllSafe(ys) && SameEffect(xs, ys) && zeros == 0 && ones == ALL_ONES
    ensures SameLast(xs, ys)
  {
    assert Run(zeros, xs) == Run(zeros, ys) && Run(ones, xs) == Run(ones, ys);
    forall i: nat | i < 32
      ensures SameAt(xs, ys, i)
    {
      BitZero(i);
      OnesBit(ones, i);
      TwoRegistersTell(xs, ys, zeros, ones, i);
    }
  }

  lemma OnesBit(ones: Word, i: nat)
    requires ones == ALL_ONES && i < 32
    ensures Bit(ones, i)
  {
    WordWidth();
    BitOnes(32, i);
  }

  /** A register with the bit clear and one with the bit set already tell whether a run decides it, and how. */
  lemma TwoRegistersTell(xs: seq<Write>, ys: seq<Write>, zeros: Word, ones: Word, i: nat)
    requires AllSafe(xs) && AllSafe(ys) && i < 32 && !Bit(zeros, i) && Bit(ones, i)
    requires Run(zeros, xs) == Run(zeros, ys) && Run(ones, xs) == Run(ones, ys)
    ensures SameAt(xs, ys, i)
  {
    RunDigit(zeros, xs, i);
    RunDigit(zeros, ys, i);
    RunDigit(ones, xs, i);
    RunDigit(ones, ys, i);
  }

  /** Only the set of writes matters when every two of them agree: reordering or repeating writes
      never changes the final word. */
  lemma RunOrderIrrelevant(w: Word, xs: seq<Write>, ys: seq<Write>)
    requires AllSafe(xs) && AllSafe(ys)
    requires forall x :: x in xs <==> x in ys
    requires forall x, y :: x in xs && y in xs ==> Agree(x, y)
    ensures Run(w, xs) == Run(w, ys)
  {
    forall i: nat | i < 32
      ensures SameAt(xs, ys, i)
    {
      var k, l := LastCover(xs, i), LastCover(ys, i);
      if k >= 0 {
        assert xs[k] in ys;
      }
      if l >= 0 {
        assert ys[l] in xs;
      }
      if k >= 0 && l >= 0 {
        assert xs[k] in xs && Agree(xs[k], ys[l]);
      }
    }
    SameLastSameRun(w, xs, ys);
  }

  /** A batch of writes to pairwise disjoint fields may be permuted freely. */
  lemma RunPermutation(w: Word, xs: seq<Write>, ys: seq<Write>)
    requires AllSafe(xs) && multiset(xs) == multiset(ys)
    requires forall i, j :: 0 <= i < j < |xs| ==> xs[i].field.Disjoint(xs[j].field)
    ensures AllSafe(ys) && Run(w, xs) == Run(w, ys)
  {
    forall x
      ensures x in xs <==> x in ys
    {
      assert x in multiset(xs) <==> x in multiset(ys);
    }
    forall k | 0 <= k < |ys|
      ensures ys[k].Safe()
    {
      assert ys[k] in ys;
    }
    RunOrderIrrelevant(w, xs, ys);
  }

  lemma RunAppend(w: Word, xs: seq<Write>, y: Write)
    requires AllSafe(xs) && y.Safe()
    ensures AllSafe(xs + [y]) && Run(w, xs + [y]) == Put(Run(w, xs), y)
  {
    var all := xs + [y];
    assert all[..|all| - 1] == xs;
  }

  lemma RunTwo(w: Word, x: Write, y: Write)
    requires x.Safe() && y.Safe()
    ensures Run(w, [x, y]) == Put(Put(w, x), y)
  {
    RunAppend(w, [], x);
    RunAppend(w, [x], y);
    assert [] + [x] == [x] && [x] + [y] == [x, y];
  }

  /** Two safe writes commute on every register exactly when they agree on the bits they share. */
  lemma CommuteIffAgree(x: Write, y: Write)
    requires x.Safe() && y.Safe()
    ensures (forall w: Word :: Put(Put(w, x), y) == Put(Put(w, y), x)) <==> Agree(x, y)
  {
    if Agree(x, y) {
      forall w: Word
        ensures Put(Put(w, x), y) == Put(Put(w, y), x)
      {
        RunTwo(w, x, y);
        RunTwo(w, y, x);
        RunOrderIrrelevant(w, [x, y], [y, x]);
      }
    }
    if forall w: Word :: Put(Put(w, x), y) == Put(Put(w, y), x) {
      forall i: nat | x.field.Covers(i) && y.field.Covers(i)
        ensures x.Digit(i) <==> y.Digit(i)
      {
        PutDigit(Put(0, x), y, i);
        PutDigit(Put(0, y), x, i);
      }
    }
  }

  // ---------------------------------------------------------------- overwritten writes

  ghost predicate CoveredBy(f: Field, xs: seq<Write>) {
    forall i: nat :: f.Covers(i) ==> LastCover(xs, i) >= 0
  }

  /** A write is redundant, whatever it writes and whatever the register holds, exactly when the writes
      after it cover all of its field. */
  lemma DeadWriteIff(f: Field, post: seq<Write>)
    requires f.InWord() && AllSafe(post)
    ensures (forall w: Word, v: Word :: Write(f, v).Safe() ==> Run(Put(w, Write(f, v)), post) == Run(w, post))
            <==> CoveredBy(f, post)
  {
    if CoveredBy(f, post) {
      forall w: Word, v: Word | Write(f, v).Safe()
        ensures Run(Put(w, Write(f, v)), post) == Run(w, post)
      {
        CoveredIsDead(w, Write(f, v), post);
      }
    } else {
      var i: nat :| f.Covers(i) && LastCover(post, i) < 0;
      var v := LiveWitness(f, post, i);
    }
  }

  lemma CoveredIsDead(w: Word, x: Write, post: seq<Write>)
    requires x.Safe() && AllSafe(post) && CoveredBy(x.field, post)
    ensures Run(Put(w, x), post) == Run(w, post)
  {
    forall i: nat | i < 32
      ensures Bit(Run(Put(w, x), post), i) <==> Bit(Run(w, post), i)
    {
      RunDigit(Put(w, x), post, i);
      RunDigit(w, post, i);
      PutDigit(w, x, i);
    }
    SameWord(Run(Put(w, x), post), Run(w, post));
  }

  /** On an uncovered bit some value makes the write visible. */
  lemma LiveWitness(f: Field, post: seq<Write>, i: nat) returns (v: Word)
    requires f.InWord() && AllSafe(post)
    requires f.Covers(i) && LastCover(post, i) < 0
    ensures Write(f, v).Safe() && Run(Put(0, Write(f, v)), post) != Run(0, post)
  {
    var bit := i - f.offset;
    WordWidth();
    Pow2Strict(bit, f.num);
    Pow2Mono(f.num, 32);
    v := Pow2(bit);
    var x := Write(f, v);
    InRangeFits(f.offset, f.num, v);
    BitPow2(bit, bit);
    BitZero(i);
    PutDigit(0, x, i);
    RunDigit(Put(0, x), post, i);
    RunDigit(0, post, i);
  }
}
