/** What each edit does to a virtual view, said place by place and bit by bit.

    The steps of `ViewModel` compute new views; here every bit of every place after a call is given in terms
    of the view before it, and so are the three flags and counters that the update later goes by. */
module ViewLaws {
  import opened Words
  import opened BitMacros
  import opened ViewItems
  import opened ViewModel
  import opened VirtualView

  // ---------------------------------------------------------------- single items

  lemma SetItemDigit(x: Item, bit: nat, i: nat)
    requires bit < 32 && i < 16
    ensures Bit(SetItemBit(x, bit), i) <==> i == bit || Bit(x, i)
  {
    ItemWidth();
    SetBitDigit(16, x, bit, i);
  }

  lemma ClearItemDigit(x: Item, bit: nat, i: nat)
    requires bit < 32 && i < 16
    ensures Bit(ClearItemBit(x, bit), i) <==> i != bit && Bit(x, i)
  {
    ItemWidth();
    ClrBitDigit(16, x, bit, i);
  }

  lemma SameItem(x: Item, y: Item)
    requires forall i: nat :: i < 16 ==> (Bit(x, i) <==> Bit(y, i))
    ensures x == y
  {
    ItemWidth();
    Extensional(x, y, 16);
  }

  /** A mark call writes its bit and no other; mark 2 has no bit in an item. */
  lemma MarkDigit(x: Item, shift: nat, flag: bool, i: nat)
    requires shift < 3 && i < 16
    ensures Bit(MarkItem(x, shift, flag), i) <==> if i == shift + 14 then flag else Bit(x, i)
  {
    SetItemDigit(x, shift + 14, i);
    ClearItemDigit(x, shift + 14, i);
  }

  // ---------------------------------------------------------------- clearing

  /** The clearing that starts at place i gets to place k and still has a count to take from. */
  ghost predicate Clears(v: View, i: nat, k: nat) {
    && i <= k < v.total <= |v.items|
    && (forall j :: i <= j <= k ==> v.items[j] != NULL_ITEM)
    && |Actives(v.items[i..k])| < v.activeNum
  }

  lemma ActivesFront(s: seq<Item>, i: nat, k: nat)
    requires i < k <= |s|
    ensures |Actives(s[i..k])| == Weight(s[i]) + |Actives(s[i + 1..k])|
  {
    assert s[i..k] == [s[i]] + s[i + 1..k];
    ActivesConcat([s[i]], s[i + 1..k]);
    ActivesOne(s[i]);
  }

  /** What a clearing at place i leaves of later places. */
  lemma ClearsNext(v: View, next: View, i: nat, k: nat)
    requires i < k < |v.items| && v.items[i] != NULL_ITEM && SameBut(v, next, i)
    requires v.total <= |v.items|
    requires i < v.total ==> next.activeNum + Weight(v.items[i]) == v.activeNum || v.activeNum == 0 == next.activeNum
    ensures Clears(v, i, k) <==> Clears(next, i + 1, k)
  {
    ActivesFront(v.items, i, k);
    assert next.items[i + 1..k] == v.items[i + 1..k];
  }

  lemma DeleteCount(v: View, i: nat)
    requires Shape(v) && i < v.total
    ensures if IsActive(v.items[i]) && v.activeNum > 0 then DeleteStep(v, i).activeNum == v.activeNum - 1
            else DeleteStep(v, i).activeNum == v.activeNum
  {
  }

  lemma {:induction false} ClearBits(v: View, i: nat, k: nat, b: nat)
    requires Shape(v) && k < |v.items| && b < 16
    ensures Bit(ClearFrom(v, i).items[k], b) <==> Bit(v.items[k], b) && !(b == 15 && Clears(v, i, k))
    decreases |v.items| - i
  {
    if i < |v.items| && v.items[i] != NULL_ITEM {
      var next := ClearRound(v, i, k, b);
      ClearBits(next, i + 1, k, b);
    }
  }

  lemma ClearRound(v: View, i: nat, k: nat, b: nat) returns (next: View)
    requires Shape(v) && i < |v.items| && v.items[i] != NULL_ITEM && k < |v.items| && b < 16
    ensures Shape(next) && |next.items| == |v.items| && ClearFrom(v, i) == ClearFrom(next, i + 1)
    ensures Bit(next.items[k], b) && !(b == 15 && Clears(next, i + 1, k)) <==>
            Bit(v.items[k], b) && !(b == 15 && Clears(v, i, k))
  {
    next := v;
    ActiveIsBit(v.items[i]);
    if IsActive(v.items[i]) {
      next := DeleteStep(v, i);
      DeleteOneSpot(v, i);
      if i < v.total {
        DeleteCount(v, i);
      }
      ClearItemDigit(v.items[i], 15, b);
    }
    if i < k {
      ClearsNext(v, next, i, k);
    } else if i == k {
      ClearHere(v, i);
    }
  }

  lemma ClearHere(v: View, i: nat)
    requires Shape(v) && i < |v.items| && v.items[i] != NULL_ITEM
    ensures Clears(v, i, i) <==> i < v.total && v.activeNum > 0
  {
    assert v.items[i..i] == [];
  }

  // ---------------------------------------------------------------- every bit after a call

  /** Whether bit i of place k is set after a call. */
  ghost predicate BitAfter(v: View, op: ViewOp, k: nat, i: nat)
    requires Shape(v) && k < |v.items|
  {
    match op
    case Add(stored) =>
      if stored.Stored? && v.total + v.passNum < |v.items| && k == v.total then i == 15 || Bit(stored.id, i)
      else Bit(v.items[k], i)
    case Delete(pos) =>
      Bit(v.items[k], i) && !(k == pos && pos < v.total && v.activeNum > 0 && i == 15)
    case Activate(pos) =>
      Bit(v.items[k], i) || (k == pos && pos < v.total && i == 15)
    case Mark(pos, shift, flag) =>
      if k == pos && pos < v.total && shift < 3 && i == shift + 14 then flag else Bit(v.items[k], i)
    case Exchange(l, r) =>
      var from := if l < v.total && r < v.total then (if k == l then r else if k == r then l else k) else k;
      Bit(v.items[from], i)
    case Move(from, to) =>
      var source := if from < v.total && to < v.total then MovedFrom(from, to, k) else k;
      source < |v.items| && Bit(v.items[source], i)
    case ClearAll =>
      Bit(v.items[k], i) && !(i == 15 && Clears(v, 0, k))
  }

  /** The place of the item that a move brings to place k. */
  function MovedFrom(from: nat, to: nat, k: nat): (j: nat) {
    if k == to then from else if from <= k < to then k + 1 else if to < k <= from then k - 1 else k
  }

  lemma AddBits(v: View, stored: Stored, k: nat, i: nat)
    requires Shape(v) && k < |v.items| && i < 16
    ensures Bit(AddStep(v, stored).items[k], i) <==> BitAfter(v, Add(stored), k, i)
  {
    if stored.Stored? {
      SetItemDigit(stored.id, 15, i);
    }
  }

  lemma DeleteBits(v: View, pos: nat, k: nat, i: nat)
    requires Shape(v) && k < |v.items| && i < 16
    ensures Bit(DeleteStep(v, pos).items[k], i) <==> BitAfter(v, Delete(pos), k, i)
  {
    if pos < v.total {
      ClearItemDigit(v.items[pos], 15, i);
      ActiveIsBit(v.items[pos]);
    }
  }

  lemma ActivateBits(v: View, pos: nat, k: nat, i: nat)
    requires Shape(v) && k < |v.items| && i < 16
    ensures Bit(ActivateStep(v, pos).items[k], i) <==> BitAfter(v, Activate(pos), k, i)
  {
    if pos < v.total {
      SetItemDigit(v.items[pos], 15, i);
      ActiveIsBit(v.items[pos]);
    }
  }

  lemma MarkBits(v: View, pos: nat, shift: nat, flag: bool, k: nat, i: nat)
    requires Shape(v) && k < |v.items| && i < 16
    ensures Bit(MarkStep(v, pos, shift, flag).items[k], i) <==> BitAfter(v, Mark(pos, shift, flag), k, i)
  {
    if pos < v.total && shift < 3 {
      MarkDigit(v.items[pos], shift, flag, i);
    }
  }

  lemma MoveBits(v: View, from: nat, to: nat, k: nat, i: nat)
    requires Shape(v) && k < |v.items| && i < 16
    ensures Bit(MoveStep(v, from, to).items[k], i) <==> BitAfter(v, Move(from, to), k, i)
  {
    if from < v.total && to < v.total {
      MovedAt(v.items, from, to, k);
    }
  }

  /** Every bit of every place after a call. */
  lemma StepBits(v: View, op: ViewOp, k: nat, i: nat)
    requires Shape(v) && k < |v.items| && i < 16
    ensures |Step(v, op).items| == |v.items|
    ensures Bit(Step(v, op).items[k], i) <==> BitAfter(v, op, k, i)
  {
    match op
    case Add(stored) => AddBits(v, stored, k, i);
    case Delete(pos) => DeleteBits(v, pos, k, i);
    case Activate(pos) => ActivateBits(v, pos, k, i);
    case Mark(pos, shift, flag) => MarkBits(v, pos, shift, flag, k, i);
    case Exchange(l, r) =>
    case Move(from, to) => MoveBits(v, from, to, k, i);
    case ClearAll => ClearBits(v, 0, k, i);
  }

  /** One place more after a successful addition to a table that is not full, and after nothing else. */
  lemma StepTotal(v: View, op: ViewOp)
    requires Shape(v)
    ensures Step(v, op).total ==
            if op.Add? && op.stored.Stored? && v.total + v.passNum < |v.items| then v.total + 1 else v.total
  {
  }

  // ---------------------------------------------------------------- marks and deletions undone

  ghost predicate MarkSet(v: View, pos: nat, shift: nat) {
    pos < |v.items| && Bit(v.items[pos], shift + 14)
  }

  /** A mark reads back as it was written, and every other mark as before. */
  lemma MarkReadsBack(v: View, pos: nat, shift: nat, flag: bool, q: nat, t: nat)
    requires Shape(v) && pos < v.total && q < v.total && shift < 2 && t < 2
    ensures MarkSet(Step(v, Mark(pos, shift, flag)), q, t) <==>
            if q == pos && t == shift then flag else MarkSet(v, q, t)
  {
    StepBits(v, Mark(pos, shift, flag), q, t + 14);
  }

  /** Activating an item just deleted restores the items and the count. */
  lemma DeleteUndone(v: View, pos: nat)
    requires Shape(v) && pos < v.total && v.activeNum > 0 && IsActive(v.items[pos])
    ensures var r := Step(Step(v, Delete(pos)), Activate(pos));
            r.items == v.items && r.activeNum == v.activeNum
  {
    var d := Step(v, Delete(pos));
    var r := Step(d, Activate(pos));
    ActiveIsBit(v.items[pos]);
    HighBitEffect(v.items[pos], 15, false);
    forall k: nat | k < |v.items|
      ensures r.items[k] == v.items[k]
    {
      forall i: nat | i < 16
        ensures Bit(r.items[k], i) <==> Bit(v.items[k], i)
      {
        StepBits(v, Delete(pos), k, i);
        StepBits(d, Activate(pos), k, i);
      }
      SameItem(r.items[k], v.items[k]);
    }
  }

  // ---------------------------------------------------------------- when plus-only mode ends

  /** No empty item from place i up to place k. */
  ghost predicate Reaches(v: View, i: nat, k: nat) {
    i <= k < |v.items| && forall j :: i <= j <= k ==> v.items[j] != NULL_ITEM
  }

  /** The positions that a call checks: one or two arguments, the second only if the first is in the view;
      for clearing, every active item that it gets to. */
  ghost predicate Checks(v: View, op: ViewOp, p: nat)
    requires Shape(v)
  {
    match op
    case Add(_) => false
    case Delete(pos) => p == pos
    case Activate(pos) => p == pos
    case Mark(pos, _, _) => p == pos
    case Exchange(l, r) => p == l || (l < v.total && p == r)
    case Move(from, to) => p == from || (from < v.total && p == to)
    case ClearAll => Reaches(v, 0, p) && IsActive(v.items[p])
  }

  ghost predicate SparesFrom(v: View, i: nat) {
    forall k: nat :: k < v.created && Reaches(v, i, k) ==> !IsActive(v.items[k])
  }

  lemma DeletePlus(v: View, pos: nat)
    requires Shape(v)
    ensures DeleteStep(v, pos).plusOnly <==> v.plusOnly && pos >= v.created
    ensures DeleteStep(v, pos).created == v.created
  {
  }

  lemma SparesNext(v: View, next: View, i: nat)
    requires v.total <= |v.items| && Reaches(v, i, i) && SameBut(v, next, i) && next.created == v.created
    ensures SparesFrom(v, i) <==> (i < v.created ==> !IsActive(v.items[i])) && SparesFrom(next, i + 1)
  {
    if SparesFrom(v, i) {
      forall k: nat | k < next.created && Reaches(next, i + 1, k)
        ensures !IsActive(next.items[k])
      {
        ReachesNext(v, next, i, k);
      }
    }
    if (i < v.created ==> !IsActive(v.items[i])) && SparesFrom(next, i + 1) {
      forall k: nat | k < v.created && Reaches(v, i, k)
        ensures !IsActive(v.items[k])
      {
        if k > i {
          ReachesNext(v, next, i, k);
        }
      }
    }
  }

  lemma ReachesNext(v: View, next: View, i: nat, k: nat)
    requires Reaches(v, i, i) && SameBut(v, next, i) && i < k
    ensures Reaches(next, i + 1, k) <==> Reaches(v, i, k)
  {
  }

  lemma {:induction false} ClearPlus(v: View, i: nat)
    requires Shape(v)
    ensures ClearFrom(v, i).plusOnly <==> v.plusOnly && SparesFrom(v, i)
    decreases |v.items| - i
  {
    if i < |v.items| && v.items[i] != NULL_ITEM {
      if IsActive(v.items[i]) {
        DeletePlus(v, i);
        DeleteOneSpot(v, i);
        SparesNext(v, DeleteStep(v, i), i);
        ClearPlus(DeleteStep(v, i), i + 1);
      } else {
        SparesNext(v, v, i);
        ClearPlus(v, i + 1);
      }
    }
  }

  /** A call ends plus-only mode exactly when it checks a position of the creation. */
  lemma StepPlusIff(v: View, op: ViewOp)
    requires Shape(v)
    ensures Step(v, op).plusOnly <==> v.plusOnly && forall p: nat :: Checks(v, op, p) ==> p >= v.created
  {
    match op
    case Add(_) =>
    case Delete(pos) => assert Checks(v, op, pos);
    case Activate(pos) => assert Checks(v, op, pos);
    case Mark(pos, _, _) => assert Checks(v, op, pos);
    case Exchange(l, r) =>
      assert Checks(v, op, l) && (l < v.total ==> Checks(v, op, r));
    case Move(from, to) =>
      assert Checks(v, op, from) && (from < v.total ==> Checks(v, op, to));
    case ClearAll =>
      ClearPlus(v, 0);
      ChecksSpare(v);
  }

  lemma ChecksSpare(v: View)
    requires Shape(v)
    ensures SparesFrom(v, 0) <==> forall p: nat :: Checks(v, ClearAll, p) ==> p >= v.created
  {
    if SparesFrom(v, 0) {
      forall p: nat | Checks(v, ClearAll, p)
        ensures p >= v.created
      {
      }
    }
    if forall p: nat :: Checks(v, ClearAll, p) ==> p >= v.created {
      forall k: nat | k < v.created && Reaches(v, 0, k)
        ensures !IsActive(v.items[k])
      {
        assert IsActive(v.items[k]) ==> Checks(v, ClearAll, k);
      }
    }
  }

  /** No call of the run checks a position of the creation. */
  ghost predicate SparesCreation(v: View, ops: seq<ViewOp>)
    requires Shape(v)
    decreases |ops|
  {
    ops == [] || ((forall p: nat :: Checks(v, ops[0], p) ==> p >= v.created)
                  && SparesCreation(Step(v, ops[0]), ops[1..]))
  }

  /** Plus-only mode outlasts a run exactly when no call of it checks a position of the creation. */
  lemma {:induction false} RunPlusIff(v: View, ops: seq<ViewOp>)
    requires Shape(v)
    ensures ViewRun(v, ops).plusOnly <==> v.plusOnly && SparesCreation(v, ops)
    decreases |ops|
  {
    if ops != [] {
      StepPlusIff(v, ops[0]);
      RunPlusIff(Step(v, ops[0]), ops[1..]);
    }
  }

  // ---------------------------------------------------------------- when there is something to write

  /** The calls that ask for an update: those that get to their write, even where it changes nothing. */
  ghost predicate Writes(v: View, op: ViewOp)
    requires Shape(v)
  {
    match op
    case Add(stored) => stored.Stored? && v.total + v.passNum < |v.items|
    case Delete(pos) => pos < v.total && v.activeNum > 0 && Bit(v.items[pos], 15)
    case Activate(pos) => pos < v.total && !Bit(v.items[pos], 15)
    case Mark(pos, shift, _) => pos < v.total && shift < 3
    case Exchange(l, r) => l < v.total && r < v.total && l != r
    case Move(from, to) => from < v.total && to < v.total
    case ClearAll => true
  }

  lemma DeleteNeeds(v: View, pos: nat)
    requires Shape(v)
    ensures DeleteStep(v, pos).needUp <==> v.needUp || Writes(v, Delete(pos))
  {
    if pos < v.total {
      ActiveIsBit(v.items[pos]);
    }
  }

  lemma ActivateNeeds(v: View, pos: nat)
    requires Shape(v)
    ensures ActivateStep(v, pos).needUp <==> v.needUp || Writes(v, Activate(pos))
  {
    if pos < v.total {
      ActiveIsBit(v.items[pos]);
    }
  }

  lemma StepNeedsIff(v: View, op: ViewOp)
    requires Shape(v)
    ensures Step(v, op).needUp <==> v.needUp || Writes(v, op)
  {
    match op
    case Add(_) =>
    case Delete(pos) => DeleteNeeds(v, pos);
    case Activate(pos) => ActivateNeeds(v, pos);
    case Mark(_, _, _) =>
    case Exchange(_, _) =>
    case Move(_, _) =>
    case ClearAll => ClearNeeds(v, 0);
  }

  lemma {:induction false} ClearNeeds(v: View, i: nat)
    requires Shape(v)
    ensures ClearFrom(v, i).needUp
    decreases |v.items| - i
  {
    if i < |v.items| && v.items[i] != NULL_ITEM {
      if IsActive(v.items[i]) {
        ClearNeeds(DeleteStep(v, i), i + 1);
      } else {
        ClearNeeds(v, i + 1);
      }
    }
  }

  ghost predicate SomeWrites(v: View, ops: seq<ViewOp>)
    requires Shape(v)
    decreases |ops|
  {
    ops != [] && (Writes(v, ops[0]) || SomeWrites(Step(v, ops[0]), ops[1..]))
  }

  /** After a run there is something to write exactly when there was, or a call of the run got to its write. */
  lemma {:induction false} RunNeedsIff(v: View, ops: seq<ViewOp>)
    requires Shape(v)
    ensures ViewRun(v, ops).needUp <==> v.needUp || SomeWrites(v, ops)
    decreases |ops|
  {
    if ops != [] {
      StepNeedsIff(v, ops[0]);
      RunNeedsIff(Step(v, ops[0]), ops[1..]);
    }
  }

  // ---------------------------------------------------------------- where a cleanup and a creation put items

  lemma SplitAround(s: seq<Item>, n: nat, k: nat)
    requires k < n <= |s|
    ensures s[..n] == s[..k] + [s[k]] + s[k + 1..n]
  {
  }

  lemma MiddleOf<T>(a: seq<T>, x: T, b: seq<T>)
    ensures (a + [x] + b)[|a|] == x
  {
  }

  lemma {:induction false} ActivesAt(s: seq<Item>, n: nat, k: nat)
    requires k < n <= |s| && IsActive(s[k])
    ensures |Actives(s[..k])| < |Actives(s[..n])| && Actives(s[..n])[|Actives(s[..k])|] == s[k]
  {
    SplitAround(s, n, k);
    ActivesConcat(s[..k] + [s[k]], s[k + 1..n]);
    ActivesConcat(s[..k], [s[k]]);
    ActivesOne(s[k]);
    MiddleOf(Actives(s[..k]), s[k], Actives(s[k + 1..n]));
  }

  lemma {:induction false} DeadSnoc(s: seq<Item>, x: Item)
    ensures Dead(s + [x]) == if IsActive(x) then Dead(s) else [x] + Dead(s)
  {
    SweptLast(s + [x]);
    assert (s + [x])[..|s|] == s;
  }

  lemma {:induction false} DeadConcat(a: seq<Item>, b: seq<Item>)
    ensures Dead(a + b) == Dead(b) + Dead(a)
    decreases |b|
  {
    if b == [] {
      assert a + b == a;
    } else {
      var c, x := b[..|b| - 1], b[|b| - 1];
      assert b == c + [x] && a + b == (a + c) + [x];
      DeadConcat(a, c);
      DeadSnoc(a + c, x);
      DeadSnoc(c, x);
      ConsConcat([x], Dead(c), Dead(a));
    }
  }

  lemma ConsConcat(x: seq<Item>, d: seq<Item>, e: seq<Item>)
    ensures x + (d + e) == (x + d) + e
  {
  }

  lemma DeadOne(x: Item)
    ensures Dead([x]) == if IsActive(x) then [] else [x]
  {
    assert [x][..0] == [];
  }

  lemma {:induction false} DeadAt(s: seq<Item>, n: nat, k: nat)
    requires k < n <= |s| && !IsActive(s[k])
    ensures |Dead(s[..k])| < |Dead(s[..n])| && Dead(s[..n])[|Dead(s[..n])| - 1 - |Dead(s[..k])|] == s[k]
  {
    SplitAround(s, n, k);
    DeadConcat(s[..k] + [s[k]], s[k + 1..n]);
    DeadConcat(s[..k], [s[k]]);
    DeadOne(s[k]);
    MiddleOf(Dead(s[k + 1..n]), s[k], Dead(s[..k]));
  }

  /** Where a cleanup of the first n items puts the item at k: an active one behind the active ones before it,
      a deleted one in front of the deleted ones before it, counted from the end, and the items not looked at
      between them. */
  lemma SweptAt(s: seq<Item>, n: nat, k: nat)
    requires n <= |s| && k < |s|
    ensures |Actives(s[..k])| <= k && |Actives(s[..n])| <= n
    ensures var place := if k >= n then k - (n - |Actives(s[..n])|)
                         else if IsActive(s[k]) then |Actives(s[..k])|
                         else |s| - 1 - (k - |Actives(s[..k])|);
            0 <= place < |s| && Swept(s, n)[place] == s[k]
  {
    assert |Actives(s[..k])| + |Dead(s[..k])| == k && |Actives(s[..n])| + |Dead(s[..n])| == n;
    if k < n {
      if IsActive(s[k]) {
        ActivesAt(s, n, k);
      } else {
        DeadAt(s, n, k);
      }
    }
  }

  /** A new view lists the items that pass in the order of the list. */
  lemma {:induction false} PassingAt(s: seq<Item>, pass: Item -> bool, n: nat, k: nat)
    requires k < n <= |s| && pass(s[k])
    ensures |Passing(s[..k], pass)| < |Passing(s[..n], pass)|
    ensures Passing(s[..n], pass)[|Passing(s[..k], pass)|] == s[k]
    decreases n
  {
    PassingOne(s, n - 1, pass);
    if k < n - 1 {
      PassingAt(s, pass, n - 1, k);
    }
  }
}
