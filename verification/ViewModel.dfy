/** A virtual view of the program database as a value, and what each editing call does to it.

    `activeNum` is meant to count the active items among the first `total`; `Counted` says it does.  The
    update of the real view later asserts that, so the question is after which runs of calls it holds. */
module ViewModel {
  import opened Words
  import opened ViewItems

  datatype View = View(items: seq<Item>, total: nat, created: nat, activeNum: nat, passNum: nat,
                       plusOnly: bool, needUp: bool)
  {
    function Prefix(): (s: seq<Item>)
      requires total <= |items|
    {
      items[..total]
    }
  }

  /** The counters fit their 16 bits and the table; every call keeps this. */
  predicate Shape(v: View) {
    v.total + v.passNum <= |v.items| < 0x1_0000 && v.activeNum < 0x1_0000
  }

  /** The answer of the element store to a new element. */
  datatype Stored = Stored(id: Item) | StoreFull | StoreFailed

  datatype ViewOp =
    | Add(stored: Stored)
    | Delete(pos: nat)
    | Activate(pos: nat)
    | Mark(pos: nat, shift: nat, flag: bool)
    | Exchange(l: nat, r: nat)
    | Move(from: nat, to: nat)
    | ClearAll

  // ---------------------------------------------------------------- the calls

  /** The side effect of a position check: an edit of an item of the creation ends plus-only mode. */
  function Checked(v: View, pos: nat): (r: View) {
    if v.plusOnly && pos < v.created then v.(plusOnly := false) else v
  }

  /** Increment of a `u16` counter. */
  function Inc16(n: nat): (r: nat)
    requires n < 0x1_0000
    ensures r < 0x1_0000
  {
    if n == 0xFFFF then 0 else n + 1
  }

  predicate IsFull(v: View) {
    v.total + v.passNum >= |v.items|
  }

  function AddStep(v: View, stored: Stored): (r: View)
    requires Shape(v)
  {
    if IsFull(v) || !stored.Stored? then v
    else v.(items := v.items[v.total := SetItemBit(stored.id, ACTIVE_BIT)], total := v.total + 1,
            activeNum := Inc16(v.activeNum), needUp := true)
  }

  function DeleteStep(v: View, pos: nat): (r: View)
    requires Shape(v)
  {
    var c := Checked(v, pos);
    if pos < v.total && v.activeNum > 0 && IsActive(v.items[pos]) then
      c.(items := v.items[pos := ClearItemBit(v.items[pos], ACTIVE_BIT)], activeNum := v.activeNum - 1, needUp := true)
    else c
  }

  function ActivateStep(v: View, pos: nat): (r: View)
    requires Shape(v)
  {
    var c := Checked(v, pos);
    if pos < v.total && !IsActive(v.items[pos]) then
      c.(items := v.items[pos := SetItemBit(v.items[pos], ACTIVE_BIT)], activeNum := Inc16(v.activeNum),
         needUp := true)
    else c
  }

  function MarkItem(x: Item, shift: nat, flag: bool): (r: Item)
    requires shift < MAX_MARKS
  {
    if flag then SetItemBit(x, shift + MARK_SHIFT) else ClearItemBit(x, shift + MARK_SHIFT)
  }

  function MarkStep(v: View, pos: nat, shift: nat, flag: bool): (r: View)
    requires Shape(v)
  {
    var c := Checked(v, pos);
    if pos < v.total && shift < MAX_MARKS then
      c.(items := v.items[pos := MarkItem(v.items[pos], shift, flag)], needUp := true)
    else c
  }

  /** Both positions of a two-position call are checked, the second only if the first is in the view. */
  function CheckedBoth(v: View, a: nat, b: nat): (r: View) {
    if a < v.total then Checked(Checked(v, a), b) else Checked(v, a)
  }

  function ExchangeStep(v: View, l: nat, r: nat): (v': View)
    requires Shape(v)
  {
    var c := CheckedBoth(v, l, r);
    if l < v.total && r < v.total && l != r then
      c.(items := v.items[l := v.items[r]][r := v.items[l]], needUp := true)
    else c
  }

  /** s with the item at from taken out and put back so that it ends up at position to. */
  function Moved<T>(s: seq<T>, from: nat, to: nat): (r: seq<T>)
    requires from < |s| && to < |s|
    ensures |r| == |s|
  {
    var rest := s[..from] + s[from + 1..];
    rest[..to] + [s[from]] + rest[to..]
  }

  function MoveStep(v: View, from: nat, to: nat): (r: View)
    requires Shape(v)
  {
    var c := CheckedBoth(v, from, to);
    if from < v.total && to < v.total then c.(items := Moved(v.items, from, to), needUp := true) else c
  }

  /** Deletion of every active item from position i on, up to the first empty item. */
  function ClearFrom(v: View, i: nat): (r: View)
    requires Shape(v)
    ensures Shape(r) && |r.items| == |v.items| && r.total == v.total
    decreases |v.items| - i
  {
    if i >= |v.items| || v.items[i] == NULL_ITEM then v.(needUp := true)
    else ClearFrom(if IsActive(v.items[i]) then DeleteStep(v, i) else v, i + 1)
  }

  function Step(v: View, op: ViewOp): (r: View)
    requires Shape(v)
    ensures Shape(r)
  {
    match op
    case Add(stored) => AddStep(v, stored)
    case Delete(pos) => DeleteStep(v, pos)
    case Activate(pos) => ActivateStep(v, pos)
    case Mark(pos, shift, flag) => MarkStep(v, pos, shift, flag)
    case Exchange(l, r) => ExchangeStep(v, l, r)
    case Move(from, to) => MoveStep(v, from, to)
    case ClearAll => ClearFrom(v, 0)
  }

  function ViewRun(v: View, ops: seq<ViewOp>): (r: View)
    requires Shape(v)
    ensures Shape(r)
    decreases |ops|
  {
    if ops == [] then v else ViewRun(Step(v, ops[0]), ops[1..])
  }

  // ---------------------------------------------------------------- active items and ids

  function Actives(s: seq<Item>): (r: seq<Item>)
    ensures |r| <= |s|
  {
    if s == [] then [] else Actives(s[..|s| - 1]) + (if IsActive(s[|s| - 1]) then [s[|s| - 1]] else [])
  }

  function Ids(s: seq<Item>): (r: seq<nat>) {
    seq(|s|, i requires 0 <= i < |s| => ItemId(s[i]))
  }

  /** No item is the empty one, which ends a view wherever it is looked through. */
  ghost predicate NoNulls(s: seq<Item>) {
    forall i :: 0 <= i < |s| ==> s[i] != NULL_ITEM
  }

  /** No item has the id of the empty one. */
  ghost predicate NoReserved(s: seq<Item>) {
    forall i :: 0 <= i < |s| ==> ItemId(s[i]) != NO_ID
  }

  /** The count is right. */
  predicate Counted(v: View)
    requires v.total <= |v.items|
  {
    v.activeNum == |Actives(v.Prefix())|
  }

  lemma {:induction false} ActivesConcat(a: seq<Item>, b: seq<Item>)
    ensures Actives(a + b) == Actives(a) + Actives(b)
    decreases |b|
  {
    if b == [] {
      assert a + b == a;
    } else {
      var n := |b| - 1;
      assert (a + b)[..|a + b| - 1] == a + b[..n];
      ActivesConcat(a, b[..n]);
    }
  }

  lemma ActivesOne(x: Item)
    ensures Actives([x]) == if IsActive(x) then [x] else []
  {
    assert [x][..0] == [];
  }

  function Weight(x: Item): (n: nat) {
    if IsActive(x) then 1 else 0
  }

  lemma IdsUpdate(s: seq<Item>, i: nat, x: Item)
    requires i < |s| && ItemId(x) == ItemId(s[i])
    ensures Ids(s[i := x]) == Ids(s)
  {
    assert forall k :: 0 <= k < |s| ==> ItemId(s[i := x][k]) == ItemId(s[k]);
  }

  // ---------------------------------------------------------------- reordering

  /** Taking an item out and putting it back there restores the order: a move is undone by its reverse. */
  lemma MoveUndo<T>(s: seq<T>, from: nat, to: nat)
    requires from < |s| && to < |s|
    ensures Moved(Moved(s, from, to), to, from) == s
  {
    var rest := s[..from] + s[from + 1..];
    var m := Moved(s, from, to);
    assert m[..to] + m[to + 1..] == rest;
    assert m[to] == s[from];
  }

  /** Where every item of a moved sequence comes from: the moved one lands on its target, the ones in
      between shift by one towards the gap, the others stay. */
  lemma MovedAt<T>(s: seq<T>, from: nat, to: nat, k: nat)
    requires from < |s| && to < |s| && k < |s|
    ensures Moved(s, from, to)[k] ==
            if k == to then s[from]
            else if from <= k < to then s[k + 1]
            else if to < k <= from then s[k - 1]
            else s[k]
  {
  }

  lemma MovedPrefix<T>(s: seq<T>, total: nat, from: nat, to: nat)
    requires from < total <= |s| && to < total
    ensures Moved(s, from, to)[..total] == Moved(s[..total], from, to)
  {
    forall k: nat | k < total
      ensures Moved(s, from, to)[k] == Moved(s[..total], from, to)[k]
    {
      MovedAt(s, from, to, k);
      MovedAt(s[..total], from, to, k);
    }
  }

  function Swapped<T>(s: seq<T>, l: nat, r: nat): (t: seq<T>)
    requires l < |s| && r < |s|
    ensures |t| == |s|
  {
    s[l := s[r]][r := s[l]]
  }

  /** Taking an item out, or putting one in, changes the number of active items by its weight. */
  lemma TakeOut(s: seq<Item>, i: nat)
    requires i < |s|
    ensures |Actives(s)| == |Actives(s[..i] + s[i + 1..])| + Weight(s[i])
  {
    var a, b := s[..i], s[i + 1..];
    ActivesBetween(a, s[i], b);
    assert s == a + [s[i]] + b;
  }

  lemma ActivesBetween(a: seq<Item>, x: Item, b: seq<Item>)
    ensures |Actives(a + [x] + b)| == |Actives(a + b)| + Weight(x)
  {
    ActivesConcat(a, [x]);
    ActivesConcat(a + [x], b);
    ActivesConcat(a, b);
    ActivesOne(x);
  }

  lemma ActivesUpdate(s: seq<Item>, i: nat, x: Item)
    requires i < |s|
    ensures |Actives(s[i := x])| == |Actives(s)| - Weight(s[i]) + Weight(x)
  {
    TakeOut(s, i);
    TakeOut(s[i := x], i);
    assert s[i := x][..i] + s[i := x][i + 1..] == s[..i] + s[i + 1..];
  }

  lemma MovedActives(s: seq<Item>, from: nat, to: nat)
    requires from < |s| && to < |s|
    ensures |Actives(Moved(s, from, to))| == |Actives(s)|
  {
    var rest, m := s[..from] + s[from + 1..], Moved(s, from, to);
    TakeOut(s, from);
    TakeOut(m, to);
    assert m[..to] + m[to + 1..] == rest;
  }

  lemma SwappedActives(s: seq<Item>, l: nat, r: nat)
    requires l < |s| && r < |s|
    ensures |Actives(Swapped(s, l, r))| == |Actives(s)|
  {
    ActivesUpdate(s, l, s[r]);
    ActivesUpdate(s[l := s[r]], r, s[l]);
  }

  lemma TakeOutMultiset<T>(s: seq<T>, i: nat)
    requires i < |s|
    ensures multiset(s) == multiset(s[..i] + s[i + 1..]) + multiset{s[i]}
  {
    assert s == s[..i] + [s[i]] + s[i + 1..];
  }

  lemma SwappedMultiset<T>(s: seq<T>, l: nat, r: nat)
    requires l < |s| && r < |s|
    ensures multiset(Swapped(s, l, r)) == multiset(s)
  {
  }

  lemma MovedMultiset<T>(s: seq<T>, from: nat, to: nat)
    requires from < |s| && to < |s|
    ensures multiset(Moved(s, from, to)) == multiset(s)
  {
    var rest, m := s[..from] + s[from + 1..], Moved(s, from, to);
    TakeOutMultiset(s, from);
    TakeOutMultiset(m, to);
    assert m[..to] + m[to + 1..] == rest;
  }

  /** Reordering commutes with taking ids. */
  lemma ReorderedIds(s: seq<Item>, a: nat, b: nat)
    requires a < |s| && b < |s|
    ensures Ids(Moved(s, a, b)) == Moved(Ids(s), a, b)
    ensures Ids(Swapped(s, a, b)) == Swapped(Ids(s), a, b)
  {
    forall k: nat | k < |s|
      ensures Ids(Moved(s, a, b))[k] == Moved(Ids(s), a, b)[k]
    {
      MovedAt(s, a, b, k);
      MovedAt(Ids(s), a, b, k);
    }
  }

  // ---------------------------------------------------------------- how far the count drifts

  /** How far the count is from the number of active items. */
  function Gap(v: View): (g: int)
    requires v.total <= |v.items|
  {
    v.activeNum - |Actives(v.Prefix())|
  }

  function Wraps(n: int): (d: int) {
    n * 0x1_0000
  }

  /** Equal in 16 bits. */
  ghost predicate Same16(a: int, b: int) {
    exists n :: a == b + Wraps(n)
  }

  /** What a call adds to the gap.  Only mark number 1, whose bit is the active flag itself, makes an item
      active or inactive behind the back of the count. */
  function Drift(v: View, op: ViewOp): (d: int)
    requires Shape(v)
  {
    match op
    case Mark(pos, shift, flag) =>
      if pos < v.total && shift == 1 then Weight(v.items[pos]) - (if flag then 1 else 0) else 0
    case _ => 0
  }

  function DriftRun(v: View, ops: seq<ViewOp>): (d: int)
    requires Shape(v)
    decreases |ops|
  {
    if ops == [] then 0 else Drift(v, ops[0]) + DriftRun(Step(v, ops[0]), ops[1..])
  }

  /** What a caller can check beforehand: mark 1 is only written where it already has the value. */
  predicate Safe(v: View, op: ViewOp)
    requires Shape(v)
  {
    match op
    case Mark(pos, shift, flag) => pos >= v.total || shift != 1 || (flag <==> IsActive(v.items[pos]))
    case _ => true
  }

  lemma Same16Chain(a: int, b: int, c: int, d: int, e: int)
    requires Same16(b, c + d) && Same16(a, b + e)
    ensures Same16(a, c + (d + e))
  {
    var n, k :| b == c + d + Wraps(n) && a == b + e + Wraps(k);
    assert a == c + (d + e) + Wraps(n + k);
  }

  /** The gap of r is, in 16 bits, d more than that of v. */
  ghost predicate Drifts(v: View, r: View, d: int)
    requires v.total <= |v.items| && r.total <= |r.items|
  {
    Same16(Gap(r), Gap(v) + d)
  }

  lemma SameGap(v: View, r: View, d: int)
    requires v.total <= |v.items| && r.total <= |r.items| && Gap(r) == Gap(v) + d
    ensures Drifts(v, r, d)
  {
    assert Gap(r) == Gap(v) + d + Wraps(0);
  }

  /** Counting one more active item keeps the gap, also where the counter wraps. */
  lemma IncGap(v: View, r: View)
    requires Shape(v) && r.total <= |r.items| && r.activeNum == Inc16(v.activeNum)
    requires |Actives(r.Prefix())| == |Actives(v.Prefix())| + 1
    ensures Drifts(v, r, 0)
  {
    assert Gap(r) == Gap(v) + 0 + Wraps(if v.activeNum == 0xFFFF then -1 else 0);
  }

  lemma PrefixUpdate(v: View, pos: nat, x: Item)
    requires pos < v.total <= |v.items|
    ensures v.items[pos := x][..v.total] == v.Prefix()[pos := x]
  {
  }

  /** Replacing one item moves the number of active items by the difference of their weights. */
  lemma EditActives(v: View, r: View, pos: nat)
    requires pos < v.total == r.total && |r.items| == |v.items| >= v.total
    requires r.items == v.items[pos := r.items[pos]]
    ensures |Actives(r.Prefix())| == |Actives(v.Prefix())| - Weight(v.items[pos]) + Weight(r.items[pos])
  {
    PrefixUpdate(v, pos, r.items[pos]);
    ActivesUpdate(v.Prefix(), pos, r.items[pos]);
  }

  lemma DeleteGap(v: View, pos: nat)
    requires Shape(v)
    ensures Gap(DeleteStep(v, pos)) == Gap(v)
  {
    if pos < v.total && v.activeNum > 0 && IsActive(v.items[pos]) {
      HighBitEffect(v.items[pos], ACTIVE_BIT, false);
      EditActives(v, DeleteStep(v, pos), pos);
    }
  }

  lemma ActivateGap(v: View, pos: nat)
    requires Shape(v)
    ensures Drifts(v, ActivateStep(v, pos), 0)
  {
    if pos < v.total && !IsActive(v.items[pos]) {
      HighBitEffect(v.items[pos], ACTIVE_BIT, true);
      EditActives(v, ActivateStep(v, pos), pos);
      IncGap(v, ActivateStep(v, pos));
    } else {
      SameGap(v, ActivateStep(v, pos), 0);
    }
  }

  lemma MarkEffect(x: Item, shift: nat, flag: bool)
    requires shift < MAX_MARKS
    ensures ItemId(MarkItem(x, shift, flag)) == ItemId(x)
    ensures IsActive(MarkItem(x, shift, flag)) <==> if shift == 1 then flag else IsActive(x)
  {
    HighBitEffect(x, shift + MARK_SHIFT, flag);
  }

  lemma MarkGap(v: View, pos: nat, shift: nat, flag: bool)
    requires Shape(v)
    ensures Gap(MarkStep(v, pos, shift, flag)) == Gap(v) + Drift(v, Mark(pos, shift, flag))
  {
    if pos < v.total && shift < MAX_MARKS {
      MarkEffect(v.items[pos], shift, flag);
      EditActives(v, MarkStep(v, pos, shift, flag), pos);
    }
  }

  lemma AddPrefix(v: View, stored: Stored)
    requires Shape(v) && !IsFull(v) && stored.Stored?
    ensures AddStep(v, stored).Prefix() == v.Prefix() + [SetItemBit(stored.id, ACTIVE_BIT)]
  {
  }

  lemma AppendOne(p: seq<Item>, x: Item)
    ensures |Actives(p + [x])| == |Actives(p)| + Weight(x)
  {
    ActivesConcat(p, [x]);
    ActivesOne(x);
  }

  lemma AddGap(v: View, stored: Stored)
    requires Shape(v)
    ensures Drifts(v, AddStep(v, stored), 0)
  {
    if !IsFull(v) && stored.Stored? {
      HighBitEffect(stored.id, ACTIVE_BIT, true);
      AddPrefix(v, stored);
      AppendOne(v.Prefix(), SetItemBit(stored.id, ACTIVE_BIT));
      IncGap(v, AddStep(v, stored));
    } else {
      SameGap(v, AddStep(v, stored), 0);
    }
  }

  lemma ExchangePrefix(v: View, l: nat, r: nat)
    requires Shape(v) && l < v.total && r < v.total
    ensures ExchangeStep(v, l, r).Prefix() == Swapped(v.Prefix(), l, r)
  {
  }

  lemma ExchangeGap(v: View, l: nat, r: nat)
    requires Shape(v)
    ensures Gap(ExchangeStep(v, l, r)) == Gap(v)
  {
    if l < v.total && r < v.total {
      ExchangePrefix(v, l, r);
      SwappedActives(v.Prefix(), l, r);
    }
  }

  lemma MoveGap(v: View, from: nat, to: nat)
    requires Shape(v)
    ensures Gap(MoveStep(v, from, to)) == Gap(v)
  {
    if from < v.total && to < v.total {
      MovedPrefix(v.items, v.total, from, to);
      MovedActives(v.Prefix(), from, to);
    }
  }

  lemma {:induction false} ClearGap(v: View, i: nat)
    requires Shape(v)
    ensures Gap(ClearFrom(v, i)) == Gap(v)
    decreases |v.items| - i
  {
    if i < |v.items| && v.items[i] != NULL_ITEM {
      if IsActive(v.items[i]) {
        DeleteGap(v, i);
        ClearGap(DeleteStep(v, i), i + 1);
      } else {
        ClearGap(v, i + 1);
      }
    }
  }

  lemma EvenStep(v: View, op: ViewOp)
    requires Shape(v) && (op.Delete? || op.Exchange? || op.Move? || op.ClearAll?)
    ensures Gap(Step(v, op)) == Gap(v)
  {
    match op
    case Delete(pos) => DeleteGap(v, pos);
    case Exchange(l, r) => ExchangeGap(v, l, r);
    case Move(from, to) => MoveGap(v, from, to);
    case ClearAll => ClearGap(v, 0);
  }

  /** Every call changes the gap, in 16 bits, by its drift. */
  lemma StepGap(v: View, op: ViewOp)
    requires Shape(v)
    ensures Drifts(v, Step(v, op), Drift(v, op))
  {
    if op.Add? {
      AddGap(v, op.stored);
    } else if op.Activate? {
      ActivateGap(v, op.pos);
    } else {
      if op.Mark? {
        MarkGap(v, op.pos, op.shift, op.flag);
      } else {
        EvenStep(v, op);
      }
      SameGap(v, Step(v, op), Drift(v, op));
    }
  }

  /** The run changes the gap by the sum of its drifts. */
  ghost predicate RunDrifts(v: View, ops: seq<ViewOp>)
    requires Shape(v)
  {
    Drifts(v, ViewRun(v, ops), DriftRun(v, ops))
  }

  lemma {:induction false} RunUnfold(v: View, next: View, ops: seq<ViewOp>)
    requires Shape(v) && Shape(next) && ops != [] && next == Step(v, ops[0])
    ensures ViewRun(v, ops) == ViewRun(next, ops[1..])
    ensures DriftRun(v, ops) == Drift(v, ops[0]) + DriftRun(next, ops[1..])
  {
  }

  lemma {:induction false} RunDriftsFrom(v: View, next: View, rest: seq<ViewOp>, d: int)
    requires v.total <= |v.items| && Shape(next) && Drifts(v, next, d) && RunDrifts(next, rest)
    ensures Drifts(v, ViewRun(next, rest), d + DriftRun(next, rest))
  {
    DriftsOn(v, next, ViewRun(next, rest), d, DriftRun(next, rest));
  }

  lemma {:induction false} RunGap(v: View, ops: seq<ViewOp>)
    requires Shape(v)
    ensures RunDrifts(v, ops)
    decreases |ops|
  {
    if ops == [] {
      SameGap(v, v, 0);
    } else {
      var next := Step(v, ops[0]);
      StepGap(v, ops[0]);
      RunGap(next, ops[1..]);
      RunDriftsFrom(v, next, ops[1..], Drift(v, ops[0]));
      RunUnfold(v, next, ops);
    }
  }

  lemma DriftsOn(v: View, next: View, r: View, d: int, e: int)
    requires v.total <= |v.items| && next.total <= |next.items| && r.total <= |r.items|
    requires Drifts(v, next, d) && Drifts(next, r, e)
    ensures Drifts(v, r, d + e)
  {
    Same16Chain(Gap(r), Gap(next), Gap(v), d, e);
  }

  lemma ZeroIn16(a: int, g: int)
    requires -0x1_0000 < a < 0x1_0000 && Same16(a, g)
    ensures a == 0 <==> Same16(g, 0)
  {
    var n :| a == g + Wraps(n);
    if a == 0 {
      assert g == 0 + Wraps(-n);
    }
    if Same16(g, 0) {
      var k :| g == 0 + Wraps(k);
      assert a == Wraps(n + k);
    }
  }

  lemma GapInRange(v: View)
    requires Shape(v)
    ensures -0x1_0000 < Gap(v) < 0x1_0000 && (Counted(v) <==> Gap(v) == 0)
  {
  }

  lemma DriftsZero(v: View, r: View, d: int)
    requires v.total <= |v.items| && Shape(r) && Drifts(v, r, d)
    ensures Counted(r) <==> Same16(Gap(v) + d, 0)
  {
    GapInRange(r);
    ZeroIn16(Gap(r), Gap(v) + d);
  }

  /** After any run, from any state, the count is right exactly when the gap at the start and the marks of
      the run that hit the active flag cancel out in 16 bits. */
  lemma {:induction false} RunCountedIff(v: View, ops: seq<ViewOp>)
    requires Shape(v)
    ensures Counted(ViewRun(v, ops)) <==> Same16(Gap(v) + DriftRun(v, ops), 0)
  {
    var w, d := RunResult(v, ops);
    DriftsZero(v, w, d);
  }

  lemma {:induction false} RunResult(v: View, ops: seq<ViewOp>) returns (w: View, d: int)
    requires Shape(v)
    ensures w == ViewRun(v, ops) && d == DriftRun(v, ops) && Shape(w) && Drifts(v, w, d)
  {
    w, d := ViewRun(v, ops), DriftRun(v, ops);
    RunGap(v, ops);
  }

  lemma SafeIsNoDrift(v: View, op: ViewOp)
    requires Shape(v)
    ensures Safe(v, op) <==> Drift(v, op) == 0
    ensures -1 <= Drift(v, op) <= 1
  {
  }

  lemma SmallMultiple(d: int)
    requires -1 <= d <= 1
    ensures Same16(d, 0) <==> d == 0
  {
    if d == 0 {
      assert d == 0 + Wraps(0);
    }
  }

  /** A call keeps the count exactly when it does not change the active flag through mark 1. */
  lemma StepCountedIff(v: View, op: ViewOp)
    requires Shape(v) && Counted(v)
    ensures Counted(Step(v, op)) <==> Safe(v, op)
  {
    StepGap(v, op);
    DriftsZero(v, Step(v, op), Drift(v, op));
    SafeIsNoDrift(v, op);
    SmallMultiple(Drift(v, op));
  }

  /** Mark 1 deletes the only item of a new view behind the back of the count. */
  lemma MarkOneMiscounts(x: Item)
    requires IsActive(x)
    ensures var v := View([x], 1, 1, 1, 0, true, false);
            Shape(v) && Counted(v) && !Counted(Step(v, Mark(0, 1, false)))
  {
    var v := View([x], 1, 1, 1, 0, true, false);
    ActivesOne(x);
    assert v.Prefix() == [x];
    StepCountedIff(v, Mark(0, 1, false));
  }

  predicate SafeRun(v: View, ops: seq<ViewOp>)
    requires Shape(v)
    decreases |ops|
  {
    ops == [] || (Safe(v, ops[0]) && SafeRun(Step(v, ops[0]), ops[1..]))
  }

  lemma {:induction false} SafeRunNoDrift(v: View, ops: seq<ViewOp>)
    requires Shape(v) && SafeRun(v, ops)
    ensures DriftRun(v, ops) == 0
    decreases |ops|
  {
    if ops != [] {
      SafeIsNoDrift(v, ops[0]);
      SafeRunNoDrift(Step(v, ops[0]), ops[1..]);
    }
  }

  /** Over any run of safe calls the count stays right. */
  lemma {:induction false} RunCounted(v: View, ops: seq<ViewOp>)
    requires Shape(v) && Counted(v) && SafeRun(v, ops)
    ensures Counted(ViewRun(v, ops))
  {
    RunCountedIff(v, ops);
    SafeRunNoDrift(v, ops);
    SmallMultiple(0);
  }

  // ---------------------------------------------------------------- which calls make an empty item

  /** The calls that turn an item into the empty one: an element id or a deleted item with every other bit
      set is activated, or the last missing mark is set. */
  predicate MakesNull(v: View, op: ViewOp)
    requires Shape(v)
  {
    match op
    case Add(stored) => !IsFull(v) && stored.Stored? && (stored.id == 0x7FFF || stored.id == 0xFFFF)
    case Activate(pos) => pos < v.total && v.items[pos] == 0x7FFF
    case Mark(pos, shift, flag) =>
      pos < v.total && flag && ((shift == 0 && v.items[pos] == 0xBFFF) || (shift == 1 && v.items[pos] == 0x7FFF))
    case _ => false
  }

  /** The empty item is stored through the active flag from 0x7FFF, through the selection mark from 0xBFFF. */
  lemma NullBySetting(x: Item)
    ensures SetItemBit(x, 15) == NULL_ITEM <==> x == 0xFFFF || x == 0x7FFF
    ensures SetItemBit(x, 14) == NULL_ITEM <==> x == 0xFFFF || x == 0xBFFF
  {
    ItemWidth();
    assert Pow2(15) == 2 * Pow2(14);
    NullBySettingIff(x, 15);
    NullBySettingIff(x, 14);
  }

  lemma MarkNull(x: Item, shift: nat, flag: bool)
    requires shift < MAX_MARKS && x != NULL_ITEM
    ensures MarkItem(x, shift, flag) == NULL_ITEM <==>
            flag && ((shift == 0 && x == 0xBFFF) || (shift == 1 && x == 0x7FFF))
  {
    if shift == 2 {
      HighBitEffect(x, shift + MARK_SHIFT, flag);
    } else if flag {
      NullBySetting(x);
    } else {
      ClearedNotNull(x, shift + MARK_SHIFT);
    }
  }

  lemma EditNulls(v: View, r: View, pos: nat)
    requires pos < v.total == r.total && |r.items| == |v.items| >= v.total && NoNulls(v.Prefix())
    requires r.items == v.items[pos := r.items[pos]]
    ensures v.items[pos] != NULL_ITEM
    ensures NoNulls(r.Prefix()) <==> r.items[pos] != NULL_ITEM
  {
    PrefixUpdate(v, pos, r.items[pos]);
    assert v.Prefix()[pos] == v.items[pos] && r.Prefix()[pos] == r.items[pos];
  }

  lemma DeleteNulls(v: View, pos: nat)
    requires Shape(v) && NoNulls(v.Prefix())
    ensures NoNulls(DeleteStep(v, pos).Prefix())
  {
    if pos < v.total {
      ClearedNotNull(v.items[pos], ACTIVE_BIT);
      EditNulls(v, DeleteStep(v, pos), pos);
    }
  }

  lemma ActivateNulls(v: View, pos: nat)
    requires Shape(v) && NoNulls(v.Prefix())
    ensures NoNulls(ActivateStep(v, pos).Prefix()) <==> !MakesNull(v, Activate(pos))
  {
    if pos < v.total {
      NullBySetting(v.items[pos]);
      InactiveTop(v.items[pos]);
      EditNulls(v, ActivateStep(v, pos), pos);
    }
  }

  lemma InactiveTop(x: Item)
    ensures x == 0x7FFF ==> !IsActive(x)
  {
    if x == 0x7FFF {
      ItemWidth();
      BitHigh(x, 15, ACTIVE_BIT);
      ActiveIsBit(x);
    }
  }

  lemma MarkNulls(v: View, pos: nat, shift: nat, flag: bool)
    requires Shape(v) && NoNulls(v.Prefix())
    ensures NoNulls(MarkStep(v, pos, shift, flag).Prefix()) <==> !MakesNull(v, Mark(pos, shift, flag))
  {
    if pos < v.total && shift < MAX_MARKS {
      EditNulls(v, MarkStep(v, pos, shift, flag), pos);
      MarkNull(v.items[pos], shift, flag);
    }
  }

  lemma AppendNulls(p: seq<Item>, x: Item)
    requires NoNulls(p)
    ensures NoNulls(p + [x]) <==> x != NULL_ITEM
  {
    assert (p + [x])[|p|] == x;
  }

  lemma AddNulls(v: View, stored: Stored)
    requires Shape(v) && NoNulls(v.Prefix())
    ensures NoNulls(AddStep(v, stored).Prefix()) <==> !MakesNull(v, Add(stored))
  {
    if !IsFull(v) && stored.Stored? {
      AddPrefix(v, stored);
      NullBySetting(stored.id);
      AppendNulls(v.Prefix(), SetItemBit(stored.id, ACTIVE_BIT));
    }
  }

  lemma ReorderedNulls(s: seq<Item>, t: seq<Item>)
    requires multiset(s) == multiset(t) && NoNulls(s)
    ensures NoNulls(t)
  {
    forall i | 0 <= i < |t|
      ensures t[i] != NULL_ITEM
    {
      assert t[i] in multiset(s);
    }
  }

  lemma ExchangeNulls(v: View, l: nat, r: nat)
    requires Shape(v) && NoNulls(v.Prefix())
    ensures NoNulls(ExchangeStep(v, l, r).Prefix())
  {
    if l < v.total && r < v.total {
      ExchangePrefix(v, l, r);
      SwappedMultiset(v.Prefix(), l, r);
      ReorderedNulls(v.Prefix(), Swapped(v.Prefix(), l, r));
    }
  }

  lemma MoveNulls(v: View, from: nat, to: nat)
    requires Shape(v) && NoNulls(v.Prefix())
    ensures NoNulls(MoveStep(v, from, to).Prefix())
  {
    if from < v.total && to < v.total {
      MovedPrefix(v.items, v.total, from, to);
      MovedMultiset(v.Prefix(), from, to);
      ReorderedNulls(v.Prefix(), Moved(v.Prefix(), from, to));
    }
  }

  lemma {:induction false} ClearNulls(v: View, i: nat)
    requires Shape(v) && NoNulls(v.Prefix())
    ensures NoNulls(ClearFrom(v, i).Prefix())
    decreases |v.items| - i
  {
    if i < |v.items| && v.items[i] != NULL_ITEM {
      if IsActive(v.items[i]) {
        DeleteNulls(v, i);
        ClearNulls(DeleteStep(v, i), i + 1);
      } else {
        ClearNulls(v, i + 1);
      }
    }
  }

  /** On a view without empty items, exactly these calls make one. */
  lemma NullMadeIff(v: View, op: ViewOp)
    requires Shape(v) && NoNulls(v.Prefix())
    ensures NoNulls(Step(v, op).Prefix()) <==> !MakesNull(v, op)
  {
    match op
    case Add(stored) => AddNulls(v, stored);
    case Delete(pos) => DeleteNulls(v, pos);
    case Activate(pos) => ActivateNulls(v, pos);
    case Mark(pos, shift, flag) => MarkNulls(v, pos, shift, flag);
    case Exchange(l, r) => ExchangeNulls(v, l, r);
    case Move(from, to) => MoveNulls(v, from, to);
    case ClearAll => ClearNulls(v, 0);
  }

  // ---------------------------------------------------------------- clearing

  lemma NullBeyond(v: View, i: nat)
    requires Shape(v) && NoNulls(v.Prefix()) && i < |v.items| && v.items[i] == NULL_ITEM
    ensures v.total <= i
  {
    NullOutside(v, i);
  }

  lemma NullOutside(v: View, i: nat)
    requires Shape(v) && NoNulls(v.Prefix()) && i < |v.items|
    ensures i < v.total ==> v.items[i] != NULL_ITEM
  {
    if i < v.total {
      assert v.Prefix()[i] == v.items[i];
    }
  }

  ghost predicate NoneBefore(v: View, i: nat)
    requires v.total <= |v.items|
  {
    forall k: nat :: k < i && k < v.total ==> !IsActive(v.items[k])
  }

  ghost predicate SameBut(v: View, r: View, i: nat) {
    && r.total == v.total && |r.items| == |v.items|
    && forall k: nat :: k < |v.items| && k != i ==> r.items[k] == v.items[k]
  }

  /** A view whose clearing is under way and will not stop early. */
  ghost predicate Clearing(v: View, i: nat)
    requires v.total <= |v.items|
  {
    Gap(v) >= 0 && NoNulls(v.Prefix()) && NoneBefore(v, i)
  }

  lemma Deleted(v: View, i: nat)
    requires Shape(v) && Gap(v) >= 0 && i < v.total
    ensures !IsActive(DeleteStep(v, i).items[i])
  {
    if IsActive(v.items[i]) {
      TakeOut(v.Prefix(), i);
      HighBitEffect(v.items[i], ACTIVE_BIT, false);
    }
  }

  lemma DeleteOneMore(v: View, i: nat)
    requires Shape(v) && Clearing(v, i)
    ensures Clearing(DeleteStep(v, i), i + 1)
  {
    DeleteGap(v, i);
    DeleteNulls(v, i);
    if i < v.total {
      Deleted(v, i);
    }
    DeleteOneSpot(v, i);
    NoneBeforeNext(v, DeleteStep(v, i), i);
  }

  lemma DeleteOneSpot(v: View, i: nat)
    requires Shape(v)
    ensures SameBut(v, DeleteStep(v, i), i)
  {
  }

  lemma NoneBeforeNext(v: View, r: View, i: nat)
    requires v.total <= |v.items| && SameBut(v, r, i) && NoneBefore(v, i)
    requires i < v.total ==> !IsActive(r.items[i])
    ensures NoneBefore(r, i + 1)
  {
  }

  lemma ClearOne(v: View, i: nat) returns (next: View)
    requires Shape(v) && Clearing(v, i) && i < |v.items| && v.items[i] != NULL_ITEM
    ensures Shape(next) && next.total == v.total && |next.items| == |v.items|
    ensures Clearing(next, i + 1) && ClearFrom(v, i) == ClearFrom(next, i + 1)
  {
    next := v;
    if IsActive(v.items[i]) {
      DeleteOneMore(v, i);
      next := DeleteStep(v, i);
    }
  }

  lemma {:induction false} ClearAllOfThem(v: View, i: nat)
    requires Shape(v) && Clearing(v, i)
    ensures Clearing(ClearFrom(v, i), v.total)
    decreases |v.items| - i
  {
    if i >= |v.items| {
    } else if v.items[i] == NULL_ITEM {
      NullBeyond(v, i);
    } else {
      var next := ClearOne(v, i);
      ClearAllOfThem(next, i + 1);
    }
  }

  lemma {:induction false} NoneActive(s: seq<Item>)
    requires forall k :: 0 <= k < |s| ==> !IsActive(s[k])
    ensures Actives(s) == []
  {
    if s != [] {
      NoneActive(s[..|s| - 1]);
    }
  }

  /** An empty item stays where it is. */
  lemma {:induction false} ClearKeepsNull(v: View, i: nat, k: nat)
    requires Shape(v) && k < |v.items| && v.items[k] == NULL_ITEM
    ensures ClearFrom(v, i).items[k] == NULL_ITEM
    decreases |v.items| - i
  {
    if i < |v.items| && v.items[i] != NULL_ITEM {
      if IsActive(v.items[i]) {
        DeleteOneSpot(v, i);
        ClearKeepsNull(DeleteStep(v, i), i + 1, k);
      } else {
        ClearKeepsNull(v, i + 1, k);
      }
    }
  }

  lemma ClearedHasNoNulls(v: View)
    requires Shape(v) && NoneBefore(ClearFrom(v, 0), v.total)
    ensures NoNulls(v.Prefix())
  {
    forall k | 0 <= k < v.total
      ensures v.items[k] != NULL_ITEM
    {
      if v.items[k] == NULL_ITEM {
        ClearKeepsNull(v, 0, k);
        NullIsActive(ClearFrom(v, 0).items[k]);
      }
    }
  }

  /** Clearing leaves nothing active exactly when no empty item cuts it short and the count is not below the
      number of active items; the count that is left is then the gap. */
  lemma ClearEmptiesIff(v: View)
    requires Shape(v)
    ensures var r := Step(v, ClearAll);
            && (NoneBefore(r, v.total) <==> NoNulls(v.Prefix()) && Gap(v) >= 0)
            && (NoneBefore(r, v.total) ==> r.activeNum == Gap(v))
  {
    var r := ClearFrom(v, 0);
    ClearGap(v, 0);
    if NoneBefore(r, v.total) {
      NoneActive(r.Prefix());
      ClearedHasNoNulls(v);
    } else if NoNulls(v.Prefix()) && Gap(v) >= 0 {
      ClearAllOfThem(v, 0);
    }
  }

  // ---------------------------------------------------------------- conservation of ids

  /** The ids that a call adds. */
  function Added(v: View, op: ViewOp): (r: multiset<nat>)
    requires Shape(v)
  {
    if op.Add? && op.stored.Stored? && !IsFull(v) then multiset{ItemId(op.stored.id)} else multiset{}
  }

  function AddedIn(v: View, ops: seq<ViewOp>): (r: multiset<nat>)
    requires Shape(v)
    decreases |ops|
  {
    if ops == [] then multiset{} else Added(v, ops[0]) + AddedIn(Step(v, ops[0]), ops[1..])
  }

  lemma EditKeepsIds(v: View, pos: nat, x: Item)
    requires Shape(v) && pos < v.total && ItemId(x) == ItemId(v.items[pos])
    ensures Ids(v.items[pos := x][..v.total]) == Ids(v.Prefix())
  {
    PrefixUpdate(v, pos, x);
    IdsUpdate(v.Prefix(), pos, x);
  }

  lemma DeleteKeepsIds(v: View, pos: nat)
    requires Shape(v)
    ensures Ids(DeleteStep(v, pos).Prefix()) == Ids(v.Prefix())
  {
    if pos < v.total {
      HighBitEffect(v.items[pos], ACTIVE_BIT, false);
      EditKeepsIds(v, pos, ClearItemBit(v.items[pos], ACTIVE_BIT));
    }
  }

  lemma {:induction false} ClearKeepsIds(v: View, i: nat)
    requires Shape(v)
    ensures Ids(ClearFrom(v, i).Prefix()) == Ids(v.Prefix())
    decreases |v.items| - i
  {
    if i < |v.items| && v.items[i] != NULL_ITEM {
      if IsActive(v.items[i]) {
        DeleteKeepsIds(v, i);
        ClearKeepsIds(DeleteStep(v, i), i + 1);
      } else {
        ClearKeepsIds(v, i + 1);
      }
    }
  }

  lemma AddIds(v: View, stored: Stored)
    requires Shape(v)
    ensures multiset(Ids(AddStep(v, stored).Prefix())) == multiset(Ids(v.Prefix())) + Added(v, Add(stored))
  {
    if !IsFull(v) && stored.Stored? {
      AddPrefix(v, stored);
      HighBitEffect(stored.id, ACTIVE_BIT, true);
      assert Ids(v.Prefix() + [SetItemBit(stored.id, ACTIVE_BIT)]) == Ids(v.Prefix()) + [ItemId(stored.id)];
    }
  }

  lemma ActivateKeepsIds(v: View, pos: nat)
    requires Shape(v)
    ensures Ids(ActivateStep(v, pos).Prefix()) == Ids(v.Prefix())
  {
    if pos < v.total {
      HighBitEffect(v.items[pos], ACTIVE_BIT, true);
      EditKeepsIds(v, pos, SetItemBit(v.items[pos], ACTIVE_BIT));
    }
  }

  lemma MarkKeepsIds(v: View, pos: nat, shift: nat, flag: bool)
    requires Shape(v)
    ensures Ids(MarkStep(v, pos, shift, flag).Prefix()) == Ids(v.Prefix())
  {
    if pos < v.total && shift < MAX_MARKS {
      HighBitEffect(v.items[pos], shift + MARK_SHIFT, flag);
      EditKeepsIds(v, pos, MarkItem(v.items[pos], shift, flag));
    }
  }

  lemma ExchangeKeepsIds(v: View, l: nat, r: nat)
    requires Shape(v)
    ensures multiset(Ids(ExchangeStep(v, l, r).Prefix())) == multiset(Ids(v.Prefix()))
  {
    if l < v.total && r < v.total {
      ExchangePrefix(v, l, r);
      ReorderedIds(v.Prefix(), l, r);
      SwappedMultiset(Ids(v.Prefix()), l, r);
    }
  }

  lemma MoveKeepsIds(v: View, from: nat, to: nat)
    requires Shape(v)
    ensures multiset(Ids(MoveStep(v, from, to).Prefix())) == multiset(Ids(v.Prefix()))
  {
    if from < v.total && to < v.total {
      MovedPrefix(v.items, v.total, from, to);
      ReorderedIds(v.Prefix(), from, to);
      MovedMultiset(Ids(v.Prefix()), from, to);
    }
  }

  lemma StepIds(v: View, op: ViewOp)
    requires Shape(v)
    ensures multiset(Ids(Step(v, op).Prefix())) == multiset(Ids(v.Prefix())) + Added(v, op)
  {
    match op
    case Add(stored) => AddIds(v, stored);
    case Delete(pos) => DeleteKeepsIds(v, pos);
    case Activate(pos) => ActivateKeepsIds(v, pos);
    case Mark(pos, shift, flag) => MarkKeepsIds(v, pos, shift, flag);
    case Exchange(l, r) => ExchangeKeepsIds(v, l, r);
    case Move(from, to) => MoveKeepsIds(v, from, to);
    case ClearAll => ClearKeepsIds(v, 0);
  }

  /** No run of calls, safe or not, loses, duplicates or changes an element id: the view refers to what it
      referred to before, plus what was added. */
  lemma {:induction false} RunConservesIds(v: View, ops: seq<ViewOp>)
    requires Shape(v)
    ensures multiset(Ids(ViewRun(v, ops).Prefix())) == multiset(Ids(v.Prefix())) + AddedIn(v, ops)
    decreases |ops|
  {
    if ops != [] {
      StepIds(v, ops[0]);
      RunConservesIds(Step(v, ops[0]), ops[1..]);
    }
  }

  lemma ReservedById(s: seq<Item>)
    ensures NoReserved(s) <==> NO_ID !in multiset(Ids(s))
  {
    forall i | 0 <= i < |s|
      ensures Ids(s)[i] == ItemId(s[i])
    {
    }
    if NO_ID in multiset(Ids(s)) {
      var i :| 0 <= i < |Ids(s)| && Ids(s)[i] == NO_ID;
    }
    if !NoReserved(s) {
      var i :| 0 <= i < |s| && ItemId(s[i]) == NO_ID;
      assert Ids(s)[i] in Ids(s);
    }
  }

  /** The reserved id enters a view only by being added. */
  lemma {:induction false} RunReservedIff(v: View, ops: seq<ViewOp>)
    requires Shape(v)
    ensures NoReserved(ViewRun(v, ops).Prefix()) <==> NoReserved(v.Prefix()) && NO_ID !in AddedIn(v, ops)
  {
    RunConservesIds(v, ops);
    ReservedById(v.Prefix());
    ReservedById(ViewRun(v, ops).Prefix());
  }

  lemma NoReservedNoNulls(s: seq<Item>)
    requires NoReserved(s)
    ensures NoNulls(s)
  {
    forall i | 0 <= i < |s|
      ensures s[i] != NULL_ITEM
    {
      if s[i] == NULL_ITEM {
        NullHasNoId(s[i]);
      }
    }
  }
}
