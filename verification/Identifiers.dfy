/** Packed 32-bit identifiers: conditional access request contexts, inter-processor message ids, event ids
    and chip revisions. */
module Identifiers {
  import opened Words
  import opened Fields
  import opened Packing

  // ---------------------------------------------------------------- three parts of 8, 8 and 16 bits

  const TRIPLE: seq<nat> := [8, 8, 16]

  /** Data byte 2, data byte 1 and id of a request; number, layer and command of a message. */
  function Triple(low: nat, mid: nat, high: nat): (x: nat) {
    Pack([low, mid, high], TRIPLE)
  }

  lemma TripleValue(low: nat, mid: nat, high: nat)
    ensures Triple(low, mid, high) == low + (mid + high * 0x100) * 0x100
  {
    Powers();
    PackCons(low, [mid, high], 8, [8, 16]);
    PackCons(mid, [high], 8, [16]);
    PackCons(high, [], 16, []);
    assert TRIPLE == [8] + [8, 16] && [8, 16] == [8] + [16] && [16] == [16] + [];
    assert [low, mid, high] == [low] + [mid, high] && [mid, high] == [mid] + [high] && [high] == [high] + [];
  }

  lemma TripleParts(x: nat)
    ensures Unpack(x, 0, TRIPLE) == [Trunc(8, x), Trunc(8, Shr(x, 8)), Trunc(16, Shr(x, 16))]
  {
    ShrZero(x);
    assert TRIPLE[1..] == [8, 16] && [8, 16][1..] == [16] && [16][1..] == [];
    assert Unpack(x, 16, [16]) == [Trunc(16, Shr(x, 16))];
    assert Unpack(x, 8, [8, 16]) == [Trunc(8, Shr(x, 8)), Trunc(16, Shr(x, 16))];
    assert Unpack(x, 0, TRIPLE) == [Trunc(8, Shr(x, 0))] + Unpack(x, 8, TRIPLE[1..]);
  }

  /** The three parts are in bijection with the 32-bit words. */
  lemma TripleRoundTrip(low: nat, mid: nat, high: nat)
    requires low < 0x100 && mid < 0x100 && high < 0x1_0000
    ensures var x := Triple(low, mid, high);
            x < Pow2(32) && Trunc(8, x) == low && Trunc(8, Shr(x, 8)) == mid && Trunc(16, Shr(x, 16)) == high
  {
    var x, parts := Triple(low, mid, high), [low, mid, high];
    Powers();
    TripleValue(low, mid, high);
    WordWidth();
    ShrZero(x);
    assert InRange(parts, TRIPLE);
    UnpackPack(x, 0, parts, TRIPLE);
    TripleParts(x);
    assert parts == [Trunc(8, x), Trunc(8, Shr(x, 8)), Trunc(16, Shr(x, 16))];
  }

  lemma TripleRebuild(x: Word)
    ensures Triple(Trunc(8, x), Trunc(8, Shr(x, 8)), Trunc(16, Shr(x, 16))) == x
  {
    Powers();
    ShrZero(x);
    assert TRIPLE[1..] == [8, 16] && [8, 16][1..] == [16] && [16][1..] == [];
    assert Sum(TRIPLE) == 32;
    PackUnpack(x, 0, TRIPLE);
    TripleParts(x);
  }

  /** Three shifted parts in range share no digit: `|` and `+` build the same word. */
  lemma OrOfThree(low: nat, mid: nat, high: nat)
    requires low < 0x100 && mid < 0x100 && high < 0x1_0000
    ensures Or(Or(Shl(32, high, 16), Shl(32, mid, 8)), low) == Triple(low, mid, high)
    ensures Shl(32, high, 16) + (Shl(32, mid, 8) + low) == Triple(low, mid, high)
  {
    Powers();
    ShlExact(32, high, 16, 16);
    ShlExact(32, mid, 8, 8);
    TripleValue(low, mid, high);
    OrOfTwo(mid * 0x100, high, 16);
    OrOfTwo(low, mid + high * 0x100, 8);
  }

  lemma OrOfTwo(low: nat, high: nat, k: nat)
    requires low < Pow2(k)
    ensures Or(high * Pow2(k), low) == low + high * Pow2(k)
  {
    Concat(low, high, k);
    OrCommutes(low, high * Pow2(k));
  }

  lemma {:induction false} OrCommutes(x: nat, y: nat)
    ensures Or(x, y) == Or(y, x)
    decreases x + y
  {
    if x > 0 && y > 0 {
      OrCommutes(x / 2, y / 2);
    }
  }

  // ---------------------------------------------------------------- request contexts

  function MakeRequestContext(id: nat, data1: nat, data2: nat): (r: nat) {
    Trunc(32, Or(Or(Shl(32, And(id, 0xFFFF), 16), Shl(32, And(data1, 0xFF), 8)), And(data2, 0xFF)))
  }

  function GetRequestId(context: nat): (r: nat) {
    Trunc(16, And(Shr(context, 16), 0xFFFF))
  }

  function GetRequestData1(context: nat): (r: nat) {
    Trunc(16, Shr(And(context, 0xFF00), 8))
  }

  function GetRequestData2(context: nat): (r: nat) {
    Trunc(16, And(context, 0xFF))
  }

  function GetRequestData(context: nat): (r: nat) {
    Trunc(16, And(context, 0xFFFF))
  }

  lemma SmallTrunc(n: nat, x: nat)
    requires x < Pow2(n)
    ensures Trunc(n, x) == x
  {
    DivModUnique(x, Pow2(n), 0, x);
  }

  lemma LowMasks(x: nat)
    ensures And(x, 0xFF) == Trunc(8, x) < 0x100 && And(x, 0xFFFF) == Trunc(16, x) < 0x1_0000
  {
    Powers();
    AndOnes(x, 8);
    AndOnes(x, 16);
  }

  lemma MidMask(x: nat)
    ensures Shr(And(x, 0xFF00), 8) == Trunc(8, Shr(x, 8))
  {
    Powers();
    AndMask(x, 8, 8);
    DivModUnique(Trunc(8, Shr(x, 8)) * Pow2(8), Pow2(8), Trunc(8, Shr(x, 8)), 0);
  }

  lemma GettersAreParts(context: nat)
    ensures GetRequestId(context) == Trunc(16, Shr(context, 16))
    ensures GetRequestData1(context) == Trunc(8, Shr(context, 8))
    ensures GetRequestData2(context) == Trunc(8, context)
    ensures GetRequestData(context) == Trunc(16, context)
  {
    Powers();
    LowMasks(Shr(context, 16));
    LowMasks(context);
    MidMask(context);
    SmallTrunc(16, Trunc(16, Shr(context, 16)));
    SmallTrunc(16, Trunc(8, Shr(context, 8)));
    SmallTrunc(16, Trunc(8, context));
    SmallTrunc(16, Trunc(16, context));
  }

  lemma MakeRequestIsTriple(id: nat, data1: nat, data2: nat)
    ensures MakeRequestContext(id, data1, data2) == Triple(Trunc(8, data2), Trunc(8, data1), Trunc(16, id))
  {
    Powers();
    LowMasks(id);
    LowMasks(data1);
    LowMasks(data2);
    OrOfThree(Trunc(8, data2), Trunc(8, data1), Trunc(16, id));
    TripleRoundTrip(Trunc(8, data2), Trunc(8, data1), Trunc(16, id));
    SmallTrunc(32, Triple(Trunc(8, data2), Trunc(8, data1), Trunc(16, id)));
  }

  /** The context as a number: id, data byte 1, data byte 2, most significant first. */
  lemma RequestValue(id: nat, data1: nat, data2: nat)
    ensures MakeRequestContext(id, data1, data2) ==
            (id % 0x1_0000) * 0x1_0000 + (data1 % 0x100) * 0x100 + data2 % 0x100
  {
    Powers();
    MakeRequestIsTriple(id, data1, data2);
    TripleValue(Trunc(8, data2), Trunc(8, data1), Trunc(16, id));
  }

  /** The getters return the arguments modulo their widths, and the pair of data bytes as one word. */
  lemma RequestRoundTrip(id: nat, data1: nat, data2: nat)
    ensures var c := MakeRequestContext(id, data1, data2);
            && GetRequestId(c) == id % 0x1_0000
            && GetRequestData1(c) == data1 % 0x100
            && GetRequestData2(c) == data2 % 0x100
            && GetRequestData(c) == MakeWord(data2, data1)
  {
    var low, mid, high := Trunc(8, data2), Trunc(8, data1), Trunc(16, id);
    var c := MakeRequestContext(id, data1, data2);
    Powers();
    MakeRequestIsTriple(id, data1, data2);
    TripleRoundTrip(low, mid, high);
    GettersAreParts(c);
    TripleValue(low, mid, high);
    DivModUnique(c, 0x1_0000, high, low + mid * 0x100);
    MakeWordValue(data2, data1);
  }

  /** Every 32-bit context is the one made from its own parts. */
  lemma RequestRebuild(c: Word)
    ensures MakeRequestContext(GetRequestId(c), GetRequestData1(c), GetRequestData2(c)) == c
  {
    GettersAreParts(c);
    MakeRequestIsTriple(GetRequestId(c), GetRequestData1(c), GetRequestData2(c));
    Powers();
    SmallTrunc(16, GetRequestId(c));
    SmallTrunc(8, GetRequestData1(c));
    SmallTrunc(8, GetRequestData2(c));
    TripleRebuild(c);
  }

  // ---------------------------------------------------------------- message ids

  /** `(cmd << 16) + ((layer << 8) + n)` in 32-bit arithmetic. */
  function MessageId(cmd: nat, layer: nat, n: nat): (r: nat) {
    Trunc(32, Shl(32, cmd, 16) + (Shl(32, layer, 8) + n))
  }

  lemma MessageIdValue(cmd: nat, layer: nat, n: nat)
    requires cmd < 0x1_0000 && layer < 0x100 && n < 0x100
    ensures MessageId(cmd, layer, n) == Triple(n, layer, cmd) == Or(Or(Shl(32, cmd, 16), Shl(32, layer, 8)), n)
  {
    OrOfThree(n, layer, cmd);
    TripleRoundTrip(n, layer, cmd);
    SmallTrunc(32, Triple(n, layer, cmd));
  }

  /** A message id as a number. */
  lemma MessageIdSum(cmd: nat, layer: nat, n: nat)
    requires cmd < 0x1_0000 && layer < 0x100 && n < 0x100
    ensures MessageId(cmd, layer, n) == cmd * 0x1_0000 + layer * 0x100 + n
  {
    MessageIdValue(cmd, layer, n);
    TripleValue(n, layer, cmd);
  }

  ghost predicate MessageDecodes(cmd: nat, layer: nat, n: nat) {
    var x := MessageId(cmd, layer, n);
    Trunc(16, Shr(x, 16)) == cmd && Trunc(8, Shr(x, 8)) == layer && Trunc(8, x) == n
  }

  /** A message id decodes to its three parts exactly when each fits its place. */
  lemma MessageIdDecodesIff(cmd: nat, layer: nat, n: nat)
    ensures MessageDecodes(cmd, layer, n) <==> cmd < 0x1_0000 && layer < 0x100 && n < 0x100
  {
    if cmd < 0x1_0000 && layer < 0x100 && n < 0x100 {
      MessageIdValue(cmd, layer, n);
      TripleRoundTrip(n, layer, cmd);
    } else if MessageDecodes(cmd, layer, n) {
      Powers();
    }
  }

  // ---------------------------------------------------------------- event ids

  const SYNC_CMD: nat := 0x1000

  /** The event numbered idx in its enumeration: the first one is `(app << 16) | base`, and each later one
      is the previous plus one.  Synchronous events start at `SYNC_CMD`, the others at 0. */
  datatype Event = Event(app: nat, sync: bool, idx: nat)

  function EventId(e: Event): (x: nat) {
    Trunc(32, Or(Shl(32, e.app, 16), if e.sync then SYNC_CMD else 0) + e.idx)
  }

  /** Reading an id back: the application in the high half, the class from the low half. */
  function EventOf(x: nat): (e: Event) {
    var low := Trunc(16, x);
    Event(Trunc(16, Shr(x, 16)), low >= SYNC_CMD, if low >= SYNC_CMD then low - SYNC_CMD else low)
  }

  /** The enumeration has not run out of its class. */
  predicate InClass(e: Event) {
    e.idx < if e.sync then 0xF000 else SYNC_CMD
  }

  lemma EventIdValue(e: Event)
    requires e.app < 0x1_0000
    ensures EventId(e) == Trunc(32, e.app * 0x1_0000 + (if e.sync then SYNC_CMD else 0) + e.idx)
  {
    Powers();
    var base := if e.sync then SYNC_CMD else 0;
    ShlExact(32, e.app, 16, 16);
    Concat(base, e.app, 16);
    OrCommutes(base, e.app * 0x1_0000);
  }

  /** Whatever the word, the number read back lies inside the class read back. */
  lemma ReadBackInClass(x: nat)
    ensures InClass(EventOf(x))
  {
    Powers();
    assert Trunc(16, x) < 0x1_0000;
  }

  lemma EventHalves(app: nat, low: nat)
    requires app < 0x1_0000 && low < 0x1_0000
    ensures var x := Trunc(32, app * 0x1_0000 + low); Trunc(16, Shr(x, 16)) == app && Trunc(16, x) == low
  {
    Powers();
    SmallTrunc(32, app * 0x1_0000 + low);
    Concat(low, app, 16);
    SmallTrunc(16, app);
  }

  /** An event id reads back as the same application, class and number exactly while the number stays
      inside its class; so ids of events inside their classes are all different. */
  lemma EventDecodesIff(e: Event)
    requires e.app < 0x1_0000
    ensures EventOf(EventId(e)) == e <==> InClass(e)
  {
    ReadBackInClass(EventId(e));
    if InClass(e) {
      EventIdValue(e);
      EventHalves(e.app, (if e.sync then SYNC_CMD else 0) + e.idx);
    }
  }

  // ---------------------------------------------------------------- chip revisions

  function ChipIcId(rev: Word): (r: Word) {
    And(rev, 0xFFF0)
  }

  function ChipCusId(rev: Word): (r: Word) {
    And(rev, 0xFFFF_0000)
  }

  function ChipVerId(rev: Word): (r: Word) {
    And(rev, 0xFFFF)
  }

  lemma ChipParts(rev: Word)
    ensures ChipVerId(rev) == Trunc(16, rev)
    ensures ChipCusId(rev) == Shr(rev, 16) * 0x1_0000
    ensures ChipIcId(rev) == Trunc(12, Shr(rev, 4)) * 0x10
  {
    Powers();
    LowMasks(rev);
    AndMask(rev, 16, 16);
    AndMask(rev, 4, 12);
    QuotientBound(rev, 16);
    SmallTrunc(16, Shr(rev, 16));
  }

  /** The custom and version parts split every revision without overlap. */
  lemma ChipPartition(rev: Word)
    ensures ChipCusId(rev) + ChipVerId(rev) == rev
    ensures Or(ChipVerId(rev), ChipCusId(rev)) == rev && And(ChipVerId(rev), ChipCusId(rev)) == 0
  {
    Powers();
    ChipParts(rev);
    DivMod(rev, Pow2(16));
    Concat(Trunc(16, rev), Shr(rev, 16), 16);
  }

  lemma IcIdBelow(v: nat)
    requires v < 0x1_0000
    ensures ChipIcId(v) == v - v % 0x10
  {
    Powers();
    ChipParts(v);
    DivMod(v, 0x10);
    QuotientLess(v, Pow2(4), Pow2(12));
    SmallTrunc(12, Shr(v, 4));
  }

  /** The family depends on the version part only. */
  lemma FamilyOfVersion(rev: Word)
    ensures ChipIcId(rev) == ChipIcId(ChipVerId(rev))
  {
    forall i: nat | i < 32
      ensures Bit(ChipIcId(rev), i) <==> Bit(ChipIcId(ChipVerId(rev)), i)
    {
      BitAnd(rev, 0xFFF0, i);
      BitAnd(rev, 0xFFFF, i);
      BitAnd(ChipVerId(rev), 0xFFF0, i);
      FamilyMaskInside(i);
    }
    SameWord(ChipIcId(rev), ChipIcId(ChipVerId(rev)));
  }

  lemma FamilyMaskInside(i: nat)
    ensures Bit(0xFFF0, i) ==> Bit(0xFFFF, i)
  {
    Powers();
    BitOnes(16, i);
    if i >= 16 {
      BitHigh(0xFFF0, 16, i);
    }
  }

  /** Revision k of a family decodes back to the family exactly for the sixteen revisions 0 to 15. */
  lemma RevisionDecodesIff(base: nat, k: nat)
    requires base % 0x10 == 0 && base + k < 0x1_0000
    ensures ChipIcId(base + k) == base <==> k < 0x10
  {
    IcIdBelow(base + k);
  }
}
