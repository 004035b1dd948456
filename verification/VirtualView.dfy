/** The virtual view of the program database, edited in place: one array of 16-bit items and its counters. */
module VirtualView {
  import opened Words
  import opened ViewItems
  import opened ViewModel
  import BitMacros

  datatype Status = Success | Full | Fail

  /** `DB_UNKNOWN_ID`. */
  const UNKNOWN: nat := 0xFFFF

  // ---------------------------------------------------------------- order after a cleanup

  /** The deleted items of s, last one first. */
  function Dead(s: seq<Item>): (r: seq<Item>)
    ensures |r| + |Actives(s)| == |s|
  {
    if s == [] then [] else (if IsActive(s[|s| - 1]) then [] else [s[|s| - 1]]) + Dead(s[..|s| - 1])
  }

  /** The items before the first empty one. */
  function BeforeNull(s: seq<Item>): (n: nat)
    ensures n <= |s| && (n < |s| ==> s[n] == NULL_ITEM)
    ensures forall k :: 0 <= k < n ==> s[k] != NULL_ITEM
  {
    if s == [] || s[0] == NULL_ITEM then 0 else 1 + BeforeNull(s[1..])
  }

  /** The first n items with the deleted ones moved behind everything, last deleted first. */
  function Swept(s: seq<Item>, n: nat): (r: seq<Item>)
    requires n <= |s|
    ensures |r| == |s|
  {
    Actives(s[..n]) + s[n..] + Dead(s[..n])
  }

  lemma SweptOne(s: seq<Item>, n: nat)
    requires n < |s|
    ensures Actives(s[..n + 1]) == if IsActive(s[n]) then Actives(s[..n]) + [s[n]] else Actives(s[..n])
    ensures Dead(s[..n + 1]) == if IsActive(s[n]) then Dead(s[..n]) else [s[n]] + Dead(s[..n])
  {
    var t := s[..n + 1];
    assert t[..|t| - 1] == s[..n];
  }

  lemma {:induction false} PartsKeep(p: seq<Item>)
    ensures multiset(Actives(p)) + multiset(Dead(p)) == multiset(p)
  {
    if p != [] {
      var q, x := p[..|p| - 1], p[|p| - 1];
      PartsKeep(q);
      SweptLast(p);
      assert p == q + [x];
      OneMore(Actives(p), Dead(p), p, Actives(q), Dead(q), q, x, IsActive(x));
    }
  }

  lemma OneMore(a: seq<Item>, d: seq<Item>, p: seq<Item>, a': seq<Item>, d': seq<Item>, q: seq<Item>, x: Item, on: bool)
    requires multiset(a') + multiset(d') == multiset(q) && p == q + [x]
    requires a == (if on then a' + [x] else a') && d == (if on then d' else [x] + d')
    ensures multiset(a) + multiset(d) == multiset(p)
  {
  }

  lemma {:induction false} SweptLast(p: seq<Item>)
    requires p != []
    ensures var q, x := p[..|p| - 1], p[|p| - 1];
            && Actives(p) == (if IsActive(x) then Actives(q) + [x] else Actives(q))
            && Dead(p) == (if IsActive(x) then Dead(q) else [x] + Dead(q))
  {
  }

  /** A cleanup only reorders: the active items in their order, what was not looked at, the deleted ones. */
  lemma SweptKeeps(s: seq<Item>, n: nat)
    requires n <= |s|
    ensures multiset(Swept(s, n)) == multiset(s)
  {
    PartsKeep(s[..n]);
    SplitMultiset(s, n);
  }

  lemma SplitMultiset(s: seq<Item>, n: nat)
    requires n <= |s|
    ensures multiset(s) == multiset(s[..n]) + multiset(s[n..])
  {
    assert s == s[..n] + s[n..];
  }

  // ---------------------------------------------------------------- the assertion of the update

  /** What `db_update_view` asserts: the cleanup, which stops at the first empty item, counts `active_num`. */
  predicate AssertionHolds(v: View)
    requires v.total <= |v.items|
  {
    |Actives(v.Prefix()[..BeforeNull(v.Prefix())])| == v.activeNum
  }

  /** The active items that an empty item hides from the cleanup, itself included. */
  function Hidden(v: View): (n: nat)
    requires v.total <= |v.items|
  {
    |Actives(v.Prefix()[BeforeNull(v.Prefix())..])|
  }

  lemma HiddenSplit(s: seq<Item>)
    ensures |Actives(s)| == |Actives(s[..BeforeNull(s)])| + |Actives(s[BeforeNull(s)..])|
  {
    var n := BeforeNull(s);
    assert s == s[..n] + s[n..];
    ActivesConcat(s[..n], s[n..]);
  }

  lemma NoNullsIff(s: seq<Item>)
    ensures NoNulls(s) <==> BeforeNull(s) == |s|
  {
  }

  lemma HeadActive(s: seq<Item>)
    requires s != [] && IsActive(s[0])
    ensures |Actives(s)| > 0
  {
    ActivesConcat([s[0]], s[1..]);
    ActivesOne(s[0]);
    assert s == [s[0]] + s[1..];
  }

  /** Nothing is hidden exactly when there is no empty item. */
  lemma HiddenIff(v: View)
    requires v.total <= |v.items|
    ensures Hidden(v) == 0 <==> NoNulls(v.Prefix())
  {
    var s := v.Prefix();
    var n := BeforeNull(s);
    NoNullsIff(s);
    if n < |s| {
      NullIsActive(s[n]);
      HeadActive(s[n..]);
    }
  }

  /** The assertion holds exactly when the gap of the count is what an empty item hides. */
  lemma AssertionIff(v: View)
    requires Shape(v)
    ensures AssertionHolds(v) <==> Gap(v) + Hidden(v) == 0
    ensures -0x1_0000 < Gap(v) + Hidden(v) < 0x1_0000
  {
    HiddenSplit(v.Prefix());
  }

  /** After any run from any state, the assertion of the update holds exactly when the gap at the start,
      the marks of the run that hit the active flag and the hidden items cancel out in 16 bits. */
  lemma {:induction false} RunAssertionIff(v: View, ops: seq<ViewOp>)
    requires Shape(v)
    ensures var w := ViewRun(v, ops);
            AssertionHolds(w) <==> Same16(Gap(v) + DriftRun(v, ops) + Hidden(w), 0)
  {
    var w, d := RunResult(v, ops);
    AssertionDrifts(v, w, d);
  }

  lemma AssertionDrifts(v: View, w: View, d: int)
    requires v.total <= |v.items| && Shape(w) && Drifts(v, w, d)
    ensures AssertionHolds(w) <==> Same16(Gap(v) + d + Hidden(w), 0)
  {
    AssertionIff(w);
    ShiftedGap(Gap(w), Gap(v) + d, Hidden(w));
  }

  lemma ShiftedGap(a: int, b: int, h: int)
    requires Same16(a, b) && -0x1_0000 < a + h < 0x1_0000
    ensures a + h == 0 <==> Same16(b + h, 0)
  {
    Same16Shift(a, b, h);
    ZeroIn16(a + h, b + h);
  }

  lemma Same16Shift(a: int, b: int, h: int)
    requires Same16(a, b)
    ensures Same16(a + h, b + h)
  {
    var n :| a == b + Wraps(n);
    assert a + h == b + h + Wraps(n);
  }

  /** From a right count, and as long as the reserved id is not added: the assertion of the update holds
      after a run exactly when the marks of the run that hit the active flag cancel out. */
  lemma {:induction false} UpdateAssertionIff(v: View, ops: seq<ViewOp>)
    requires Shape(v) && Counted(v) && NoReserved(v.Prefix()) && NO_ID !in AddedIn(v, ops)
    ensures AssertionHolds(ViewRun(v, ops)) <==> Same16(DriftRun(v, ops), 0)
  {
    var w := ViewRun(v, ops);
    RunReservedIff(v, ops);
    NoReservedNoNulls(w.Prefix());
    HiddenIff(w);
    RunAssertionIff(v, ops);
  }

  lemma CountedAsserts(v: View)
    requires Shape(v) && NoNulls(v.Prefix())
    ensures BeforeNull(v.Prefix()) == v.total && (AssertionHolds(v) <==> Counted(v))
  {
    NoNullsIff(v.Prefix());
    HiddenIff(v);
    AssertionIff(v);
  }

  // ---------------------------------------------------------------- memory moves

  /** s after `memcpy` of n items from src down to dst, first to last. */
  function Copied(s: seq<Item>, dst: nat, src: nat, n: nat): (r: seq<Item>)
    requires dst <= src && src + n <= |s|
    ensures |r| == |s|
  {
    s[..dst] + s[src..src + n] + s[dst + n..]
  }

  method CopyDown(a: array<Item>, dst: nat, src: nat, n: nat)
    requires dst <= src && src + n <= a.Length
    modifies a
    ensures a[..] == Copied(old(a[..]), dst, src, n)
  {
    ghost var s := a[..];
    ghost var goal := Copied(s, dst, src, n);
    var k := 0;
    while k < n
      invariant k <= n
      invariant forall j :: 0 <= j < dst + k ==> a[j] == goal[j]
      invariant forall j :: dst + k <= j < a.Length ==> a[j] == s[j]
    {
      a[dst + k] := a[src + k];
      k := k + 1;
    }
  }

  /** The loop that shifts the items from lo up to hi by one place, last to first. */
  method ShiftUp(a: array<Item>, lo: nat, hi: nat)
    requires lo <= hi < a.Length
    modifies a
    ensures a[..] == old(a[..])[..lo + 1] + old(a[..])[lo..hi] + old(a[..])[hi + 1..]
  {
    ghost var s := a[..];
    ghost var goal := s[..lo + 1] + s[lo..hi] + s[hi + 1..];
    var i := hi;
    while i > lo
      invariant lo <= i <= hi
      invariant forall j :: 0 <= j <= i ==> a[j] == s[j]
      invariant forall j :: i < j < a.Length ==> a[j] == goal[j]
    {
      a[i] := a[i - 1];
      i := i - 1;
    }
  }

  lemma MovedDown(s: seq<Item>, from: nat, to: nat)
    requires from <= to < |s|
    ensures Copied(s, from, from + 1, to - from)[to := s[from]] == Moved(s, from, to)
  {
  }

  lemma MovedUp(s: seq<Item>, from: nat, to: nat)
    requires to <= from < |s|
    ensures (s[..to + 1] + s[to..from] + s[from + 1..])[to := s[from]] == Moved(s, from, to)
  {
  }

  /** The item at from ends up at to, the ones in between shift by one: upwards in a loop, downwards by `memcpy`. */
  method MoveInPlace(a: array<Item>, from: nat, to: nat)
    requires from < a.Length && to < a.Length
    modifies a
    ensures a[..] == Moved(old(a[..]), from, to)
  {
    ghost var s := a[..];
    var temp := a[from];
    if from > to {
      ShiftUp(a, to, from);
      MovedUp(s, from, to);
    } else if from < to {
      CopyDown(a, from, from + 1, to - from);
      MovedDown(s, from, to);
    } else {
      MovedUp(s, from, to);
      assert s == s[..to + 1] + s[to..from] + s[from + 1..];
    }
    ghost var before := a[..];
    a[to] := temp;
    assert a[..] == before[to := temp];
  }

  /** The item at k goes behind the others before end, as in a move to the last of these places. */
  method ShiftOut(a: array<Item>, k: nat, end: nat)
    requires k < end <= a.Length
    modifies a
    ensures a[..] == Moved(old(a[..]), k, end - 1)
  {
    ghost var s := a[..];
    var x := a[k];
    CopyDown(a, k, k + 1, end - k - 1);
    ghost var before := a[..];
    a[end - 1] := x;
    assert a[..] == before[end - 1 := x];
    MovedDown(s, k, end - 1);
  }

  /** m is s with i items processed, k of them active: kept, still to come, deleted. */
  ghost predicate Sweeping(m: seq<Item>, s: seq<Item>, i: nat, k: nat) {
    && i <= |s| == |m| && k == |Actives(s[..i])|
    && m[..k] == Actives(s[..i])
    && m[k..|s| - i + k] == s[i..]
    && m[|s| - i + k..] == Dead(s[..i])
  }

  lemma SweepHead(m: seq<Item>, s: seq<Item>, i: nat, k: nat)
    requires Sweeping(m, s, i, k) && i < |s|
    ensures k < |m| && m[k] == s[i]
  {
    assert m[k..|s| - i + k][0] == s[i..][0];
  }

  lemma SweepActive(m: seq<Item>, s: seq<Item>, i: nat, k: nat)
    requires Sweeping(m, s, i, k) && i < |s| && IsActive(s[i])
    ensures Sweeping(m, s, i + 1, k + 1)
  {
    SweepHead(m, s, i, k);
    SweptOne(s, i);
    var end := |s| - i + k;
    assert m[..k + 1] == m[..k] + [m[k]];
    assert m[k + 1..end] == m[k..end][1..] == s[i..][1..] == s[i + 1..];
  }

  lemma MovedDownSlices(s: seq<Item>, from: nat, to: nat)
    requires from <= to < |s|
    ensures Moved(s, from, to) == s[..from] + s[from + 1..to + 1] + [s[from]] + s[to + 1..]
  {
  }

  lemma SweepDead(m: seq<Item>, r: seq<Item>, s: seq<Item>, i: nat, k: nat, end: nat)
    requires Sweeping(m, s, i, k) && i < |s| && !IsActive(s[i])
    requires k < end == |s| - i + k && r == Moved(m, k, end - 1)
    ensures Sweeping(r, s, i + 1, k)
  {
    SweepHead(m, s, i, k);
    SweptOne(s, i);
    MovedDownParts(m, k, end);
    assert m[k..end][1..] == s[i..][1..] == s[i + 1..];
  }

  lemma MovedDownParts(m: seq<Item>, k: nat, end: nat)
    requires k < end <= |m|
    ensures var r := Moved(m, k, end - 1);
            r[..k] == m[..k] && r[k..end - 1] == m[k..end][1..] && r[end - 1..] == [m[k]] + m[end..]
  {
    MovedDownSlices(m, k, end - 1);
  }

  lemma SweepDone(m: seq<Item>, s: seq<Item>, i: nat, k: nat)
    requires Sweeping(m, s, i, k)
    ensures m == Swept(s, i)
  {
    assert m == m[..k] + m[k..|s| - i + k] + m[|s| - i + k..];
  }

  /** One round of the loop: the item at index stays, or goes behind the items still to come. */
  method SweepOne(a: array<Item>, total: nat, ghost s: seq<Item>, i: nat, active: nat, dead: nat)
    returns (active': nat, dead': nat)
    requires i < total == |s| <= a.Length && active + dead == i && Sweeping(a[..total], s, i, active)
    modifies a
    ensures active' + dead' == i + 1 && Sweeping(a[..total], s, i + 1, active') && a[total..] == old(a[total..])
  {
    ghost var m := a[..total];
    SweepHead(m, s, i, active);
    assert a[i - dead] == m[active];
    if IsActive(a[i - dead]) {
      SweepActive(m, s, i, active);
      active', dead' := active + 1, dead;
    } else {
      SweepOut(a, total, s, i, i - dead);
      active', dead' := active, dead + 1;
    }
  }

  /** The deleted item at k goes behind the items still to come. */
  method SweepOut(a: array<Item>, total: nat, ghost s: seq<Item>, i: nat, k: nat)
    requires i < total == |s| <= a.Length && Sweeping(a[..total], s, i, k) && !IsActive(s[i])
    modifies a
    ensures Sweeping(a[..total], s, i + 1, k) && a[total..] == old(a[total..])
  {
    ghost var m := a[..total];
    SweepHead(m, s, i, k);
    SweepCount(s, i);
    ghost var end := total - i + k;
    ShiftWithin(a, total, k, total - i + k);
    SweepDead(m, a[..total], s, i, k, end);
  }

  lemma SweepCount(s: seq<Item>, i: nat)
    requires i <= |s|
    ensures |Actives(s[..i])| <= i
  {
  }

  method ShiftWithin(a: array<Item>, total: nat, k: nat, end: nat)
    requires k < end <= total <= a.Length
    modifies a
    ensures a[..total] == Moved(old(a[..total]), k, end - 1) && a[total..] == old(a[total..])
  {
    ghost var all := a[..];
    ShiftOut(a, k, end);
    MovedPrefix(all, total, k, end - 1);
    assert Moved(all, k, end - 1)[total..] == all[total..];
    assert a[..total] == a[..][..total] && a[total..] == a[..][total..];
  }

  /** The loop of `cleanup_virtual_view` on the first total items. */
  method Sweep(a: array<Item>, total: nat) returns (active: nat)
    requires total <= a.Length
    modifies a
    ensures a[total..] == old(a[total..])
    ensures var s := old(a[..total]);
            a[..total] == Swept(s, BeforeNull(s)) && active == |Actives(s[..BeforeNull(s)])|
  {
    ghost var s, tail := a[..total], a[total..];
    var dead, i := 0, 0;
    active := 0;
    while i < total
      invariant i <= BeforeNull(s)
      invariant active + dead == i
      invariant Sweeping(a[..total], s, i, active) && a[total..] == tail
    {
      SweepHead(a[..total], s, i, active);
      assert a[i - dead] == s[i];
      if a[i - dead] == NULL_ITEM {
        break;
      }
      assert i < BeforeNull(s);
      active, dead := SweepOne(a, total, s, i, active, dead);
      i := i + 1;
    }
    assert i == BeforeNull(s);
    SweepDone(a[..total], s, i, active);
  }

  /** The loop of `db_create_virtual_view`: the items before the first empty one that pass, in order, and
      empty items after them. */
  method Select(capacity: nat, source: seq<Item>, pass: Item -> bool) returns (a: array<Item>, found: nat, seen: nat)
    requires |source| <= capacity
    ensures fresh(a) && a.Length == capacity && found <= seen == BeforeNull(source)
    ensures a[..found] == Passing(source[..seen], pass)
    ensures forall k :: found <= k < capacity ==> a[k] == NULL_ITEM
  {
    a := new Item[capacity](_ => NULL_ITEM);
    found, seen := 0, 0;
    while seen < |source| && source[seen] != NULL_ITEM
      invariant found <= seen <= BeforeNull(source)
      invariant a[..found] == Passing(source[..seen], pass)
      invariant forall k :: found <= k < capacity ==> a[k] == NULL_ITEM
    {
      PassingOne(source, seen, pass);
      if pass(source[seen]) {
        a[found] := source[seen];
        found := found + 1;
      }
      seen := seen + 1;
    }
  }

  lemma PassingOne(s: seq<Item>, n: nat, pass: Item -> bool)
    requires n < |s|
    ensures Passing(s[..n + 1], pass) == if pass(s[n]) then Passing(s[..n], pass) + [s[n]] else Passing(s[..n], pass)
  {
    assert s[..n + 1][..n] == s[..n];
  }

  lemma ClearEnd(v: View, i: nat)
    requires Shape(v) && (i >= |v.items| || v.items[i] == NULL_ITEM)
    ensures ClearFrom(v, i) == v.(needUp := true)
  {
  }

  lemma TakeAndDrop(s: seq<Item>, n: nat)
    requires n <= |s|
    ensures s == s[..n] + s[n..]
  {
  }

  class VirtualView {
    /** `p_mem`, one place per element of the table. */
    var mem: array<Item>
    var total: nat
    var created: nat
    var activeNum: nat
    var passNum: nat
    var plusOnly: bool
    var needUp: bool

    ghost function State(): (v: View)
      reads this, mem
    {
      View(mem[..], total, created, activeNum, passNum, plusOnly, needUp)
    }

    ghost predicate Valid()
      reads this, mem
    {
      Shape(State())
    }

    /** `db_create_virtual_view`: the items of the real view that pass the filter, in order.  The list ends
        at its first empty item; a deleted item in it would fail an assertion of the code. */
    constructor (capacity: nat, source: seq<Item>, pass: Item -> bool)
      requires |source| <= capacity < 0x1_0000
      requires forall k :: 0 <= k < BeforeNull(source) ==> IsActive(source[k])
      ensures Valid() && fresh(mem) && mem.Length == capacity
      ensures CreatedFrom(State(), source, pass)
    {
      var a, found, seen := Select(capacity, source, pass);
      mem, total, created, activeNum, passNum := a, found, found, found, seen - found;
      plusOnly, needUp := true, false;
      new;
      PassingSound(source[..BeforeNull(source)], pass);
      ActivesOfActive(Passing(source[..BeforeNull(source)], pass));
    }

    /** `check_parameter`. */
    method CheckParameter(pos: nat, shift: nat, checkPlus: bool) returns (ok: bool)
      modifies this
      ensures mem == old(mem)
      ensures State() == if checkPlus then Checked(old(State()), pos) else old(State())
      ensures ok <==> pos < total && shift < MAX_MARKS
    {
      if checkPlus && plusOnly && pos < created {
        plusOnly := false;
      }
      ok := pos < total && shift < MAX_MARKS;
    }

    /** `db_add_view_item`; stored is what the element store answers, and is not asked when the view is full. */
    method AddItem(stored: Stored) returns (status: Status, pos: nat)
      requires Valid()
      modifies this, mem
      ensures Valid() && mem == old(mem) && State() == Step(old(State()), Add(stored))
      ensures status == if IsFull(old(State())) || stored.StoreFull? then Full
                        else if stored.Stored? then Success else Fail
      ensures pos == if status == Success then old(total) else UNKNOWN
    {
      pos := UNKNOWN;
      if total + passNum >= mem.Length {
        status := Full;
        return;
      }
      match stored
      case StoreFull => status := Full;
      case StoreFailed => status := Fail;
      case Stored(id) =>
        mem[total] := id;
        mem[total] := SetItemBit(mem[total], ACTIVE_BIT);
        pos := total;
        total := total + 1;
        activeNum := Inc16(activeNum);
        needUp := true;
        status := Success;
    }

    /** `db_del_view_item`. */
    method DeleteItem(pos: nat)
      requires Valid()
      modifies this, mem
      ensures Valid() && mem == old(mem) && State() == Step(old(State()), Delete(pos))
    {
      var ok := CheckParameter(pos, 0, true);
      if ok && activeNum > 0 && IsActive(mem[pos]) {
        needUp := true;
        mem[pos] := ClearItemBit(mem[pos], ACTIVE_BIT);
        activeNum := activeNum - 1;
      }
    }

    /** `db_clear_view_item`. */
    method ClearItems()
      requires Valid()
      modifies this, mem
      ensures Valid() && mem == old(mem) && State() == Step(old(State()), ClearAll)
    {
      var i := 0;
      while i < mem.Length && mem[i] != NULL_ITEM
        invariant Valid() && mem == old(mem) && i <= mem.Length
        invariant ClearFrom(State(), i) == ClearFrom(old(State()), 0)
      {
        ClearItem(i);
        i := i + 1;
      }
      ClearEnd(State(), i);
      needUp := true;
    }

    /** One round of the loop. */
    method ClearItem(i: nat)
      requires Valid() && i < mem.Length && mem[i] != NULL_ITEM
      modifies this, mem
      ensures Valid() && mem == old(mem)
      ensures ClearFrom(State(), i + 1) == ClearFrom(old(State()), i)
    {
      if IsActive(mem[i]) {
        DeleteItem(i);
      }
    }

    /** `db_active_view_item`. */
    method ActivateItem(pos: nat)
      requires Valid()
      modifies this, mem
      ensures Valid() && mem == old(mem) && State() == Step(old(State()), Activate(pos))
    {
      var ok := CheckParameter(pos, 0, true);
      if ok && !IsActive(mem[pos]) {
        mem[pos] := SetItemBit(mem[pos], ACTIVE_BIT);
        needUp := true;
        activeNum := Inc16(activeNum);
      }
    }

    /** `db_set_mask_view_item`. */
    method SetMark(pos: nat, shift: nat, flag: bool)
      requires Valid()
      modifies this, mem
      ensures Valid() && mem == old(mem) && State() == Step(old(State()), Mark(pos, shift, flag))
    {
      var ok := CheckParameter(pos, shift, true);
      if ok {
        if flag {
          mem[pos] := SetItemBit(mem[pos], shift + MARK_SHIFT);
        } else {
          mem[pos] := ClearItemBit(mem[pos], shift + MARK_SHIFT);
        }
        needUp := true;
      }
    }

    /** `db_get_mask_view_item`. */
    method GetMark(pos: nat, shift: nat) returns (on: bool)
      requires Valid()
      ensures on <==> pos < total && shift < MAX_MARKS && Bit(mem[pos], shift + MARK_SHIFT)
    {
      on := false;
      if pos < total && shift < MAX_MARKS {
        BitMacros.GetBitDigit(mem[pos], shift + MARK_SHIFT);
        on := BitMacros.GetBit(mem[pos], shift + MARK_SHIFT) != 0;
      }
    }

    /** `db_exchange_view_item`. */
    method ExchangeItems(l: nat, r: nat)
      requires Valid()
      modifies this, mem
      ensures Valid() && mem == old(mem) && State() == Step(old(State()), Exchange(l, r))
    {
      var ok := CheckParameter(l, 0, true);
      if !ok {
        return;
      }
      ok := CheckParameter(r, 0, true);
      if !ok {
        return;
      }
      if l != r {
        var temp := mem[l];
        mem[l] := mem[r];
        mem[r] := temp;
        needUp := true;
      }
    }

    /** `db_move_view_item`. */
    method MoveItem(from: nat, to: nat)
      requires Valid()
      modifies this, mem
      ensures Valid() && mem == old(mem) && State() == Step(old(State()), Move(from, to))
    {
      var ok := CheckParameter(from, 0, true);
      if !ok {
        return;
      }
      ok := CheckParameter(to, 0, true);
      if !ok {
        return;
      }
      needUp := true;
      MoveInPlace(mem, from, to);
    }

    /** `cleanup_virtual_view`: the deleted items are moved to the end, and the active ones counted. */
    method Cleanup() returns (active: nat)
      requires Valid()
      modifies mem
      ensures Valid() && mem == old(mem)
      ensures var s := old(State().Prefix());
              State() == old(State()).(items := Swept(s, BeforeNull(s)) + old(mem[total..]))
              && active == |Actives(s[..BeforeNull(s)])|
    {
      active := Sweep(mem, total);
      TakeAndDrop(mem[..], total);
      assert mem[..total] == mem[..][..total] && mem[total..] == mem[..][total..];
    }

    /** The end of `db_update_view`: the first n items are all there is, and nothing is left to write. */
    method Settle(n: nat)
      requires Valid() && n <= total
      modifies this
      ensures Valid() && mem == old(mem)
      ensures total == created == n && plusOnly && !needUp
      ensures activeNum == old(activeNum) && passNum == old(passNum)
    {
      needUp := false;
      plusOnly := true;
      created := n;
      total := n;
    }

    /** `db_get_element_id_by_pos`. */
    method ElementIdAt(pos: nat) returns (id: nat)
      requires Valid()
      ensures id == if pos != 0xFFFF && pos < total then mem[pos] % 0x4000 else 0xFFFF
    {
      id := if pos == UNKNOWN || pos >= total then UNKNOWN else ItemId(mem[pos]);
      if pos < total {
        IdIsRemainder(mem[pos]);
      }
    }
  }

  // ---------------------------------------------------------------- creation

  function Passing(s: seq<Item>, pass: Item -> bool): (r: seq<Item>)
    ensures |r| <= |s|
  {
    if s == [] then [] else Passing(s[..|s| - 1], pass) + (if pass(s[|s| - 1]) then [s[|s| - 1]] else [])
  }

  /** A view just created from the list source with the filter pass. */
  ghost predicate CreatedFrom(v: View, source: seq<Item>, pass: Item -> bool) {
    var n := BeforeNull(source);
    && v.total + v.passNum == n && v.total <= |v.items|
    && v.Prefix() == Passing(source[..n], pass) && NoNulls(v.Prefix()) && Counted(v)
    && v.created == v.total && v.plusOnly && !v.needUp
    && forall k: nat :: v.total <= k < |v.items| ==> v.items[k] == NULL_ITEM
  }

  lemma {:induction false} PassingSound(s: seq<Item>, pass: Item -> bool)
    requires NoNulls(s) && forall k :: 0 <= k < |s| ==> IsActive(s[k])
    ensures NoNulls(Passing(s, pass)) && forall k :: 0 <= k < |Passing(s, pass)| ==> IsActive(Passing(s, pass)[k])
  {
    if s != [] {
      PassingSound(s[..|s| - 1], pass);
    }
  }

  lemma {:induction false} ActivesOfActive(s: seq<Item>)
    requires forall k :: 0 <= k < |s| ==> IsActive(s[k])
    ensures Actives(s) == s
  {
    if s != [] {
      ActivesOfActive(s[..|s| - 1]);
    }
  }
}
