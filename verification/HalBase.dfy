/** The register access functions on memory: an array of 32-bit cells, addressed by index. */
module HalBase {
  import opened Words
  import opened Fields
  import opened FieldRuns

  /** `hal_put_u32`. */
  method StoreWord(mem: array<Word>, p: nat, data: Word)
    requires p < mem.Length
    modifies mem
    ensures mem[..] == old(mem[..])[p := data]
  {
    mem[p] := data;
  }

  /** `hal_get_u32`. */
  method LoadWord(mem: array<Word>, p: nat) returns (r: Word)
    requires p < mem.Length
    ensures r == mem[p]
  {
    r := mem[p];
  }

  /** `hal_get_bits`. */
  method LoadBits(mem: array<Word>, p: nat, offset: nat, num: nat) returns (r: Word)
    requires p < mem.Length && Shiftable(offset, num)
    ensures r == (mem[p] / Pow2(offset)) % Pow2(num)
    ensures forall i: nat :: Bit(r, i) <==> i < num && Bit(mem[p], offset + i)
  {
    var data := LoadWord(mem, p);
    r := And(Shr(data, offset), Shr(ALL_ONES, 32 - num));
    GetBitsValue(mem[p], offset, num);
    forall i: nat
      ensures Bit(r, i) <==> i < num && Bit(mem[p], offset + i)
    {
      GetBitsBit(mem[p], offset, num, i);
    }
  }

  /** `hal_put_bits`: one read-modify-write of one cell. */
  method StoreBits(mem: array<Word>, p: nat, offset: nat, num: nat, value: Word)
    requires p < mem.Length && Shiftable(offset, num)
    modifies mem
    ensures mem[..] == old(mem[..])[p := PutBits(old(mem[p]), offset, num, value)]
    ensures forall i: nat :: i < 32 ==>
              (Bit(mem[p], i) <==>
               (Bit(old(mem[p]), i) && !(offset <= i < offset + num)) || (offset <= i && Bit(value, i - offset)))
  {
    var before := LoadWord(mem, p);
    StoreWord(mem, p, PutBits(before, offset, num, value));
    forall i: nat | i < 32
      ensures Bit(mem[p], i) <==>
              (Bit(before, i) && !(offset <= i < offset + num)) || (offset <= i && Bit(value, i - offset))
    {
      PutBitsBit(before, offset, num, value, i);
    }
  }

  // ---------------------------------------------------------------- runs over a bank of registers

  datatype Access = Access(p: nat, write: Write)

  predicate Legal(n: nat, xs: seq<Access>) {
    forall k :: 0 <= k < |xs| ==> xs[k].p < n && xs[k].write.Safe()
  }

  /** The bank after the writes xs, each stored at its own address. */
  function BankRun(mem: seq<Word>, xs: seq<Access>): (r: seq<Word>)
    requires Legal(|mem|, xs)
    ensures |r| == |mem|
  {
    if xs == [] then mem
    else
      var m, x := BankRun(mem, xs[..|xs| - 1]), xs[|xs| - 1];
      m[x.p := Put(m[x.p], x.write)]
  }

  /** The writes of a run that go to address p, in order. */
  function At(p: nat, xs: seq<Access>): (r: seq<Write>) {
    if xs == [] then []
    else
      var init, x := At(p, xs[..|xs| - 1]), xs[|xs| - 1];
      if x.p == p then init + [x.write] else init
  }

  lemma {:induction false} AtSafe(n: nat, p: nat, xs: seq<Access>)
    requires Legal(n, xs)
    ensures AllSafe(At(p, xs))
    decreases |xs|
  {
    if xs != [] {
      AtSafe(n, p, xs[..|xs| - 1]);
    }
  }

  /** However the writes to different registers interleave, each register only sees its own. */
  lemma {:induction false} BankRunSplits(mem: seq<Word>, xs: seq<Access>, p: nat)
    requires Legal(|mem|, xs) && p < |mem|
    ensures AllSafe(At(p, xs)) && BankRun(mem, xs)[p] == Run(mem[p], At(p, xs))
    decreases |xs|
  {
    AtSafe(|mem|, p, xs);
    if xs != [] {
      var init, x := xs[..|xs| - 1], xs[|xs| - 1];
      BankRunSplits(mem, init, p);
      if x.p == p {
        RunAppend(mem[p], At(p, init), x.write);
      }
    }
  }
}
