/** What `db_update_view` makes of the real view when a virtual view is written back to it.

    The real view is the list of all items of a table; the virtual view holds some of them, edited and
    reordered, plus the ones added since.  The update appends the added items, removes the deleted ones, and
    writes the remaining ones, in the order of the virtual view, into the places they occupy in the list. */
module SyncModel {
  import opened ViewItems
  import opened ViewModel
  import opened VirtualView
  import Sequences

  // ---------------------------------------------------------------- the steps

  /** `db_find_item_index`: the first active item with the id, or the length. */
  function Find(b: seq<Item>, id: nat): (k: nat)
    ensures k <= |b| && (k < |b| ==> IsActive(b[k]) && ItemId(b[k]) == id)
    ensures forall j :: 0 <= j < k ==> !(IsActive(b[j]) && ItemId(b[j]) == id)
  {
    if b == [] || (IsActive(b[0]) && ItemId(b[0]) == id) then 0 else 1 + Find(b[1..], id)
  }

  /** The place of a removal: the first item with the id, active or not, or the length. */
  function First(b: seq<Item>, id: nat): (k: nat)
    ensures k <= |b| && (k < |b| ==> ItemId(b[k]) == id)
    ensures forall j :: 0 <= j < k ==> ItemId(b[j]) != id
  {
    if b == [] || ItemId(b[0]) == id then 0 else 1 + First(b[1..], id)
  }

  function Remove(b: seq<Item>, id: nat): (r: seq<Item>) {
    var k := First(b, id);
    if k < |b| then b[..k] + b[k + 1..] else b
  }

  function RemoveAll(b: seq<Item>, ids: seq<nat>): (r: seq<Item>) {
    if ids == [] then b else Remove(RemoveAll(b, ids[..|ids| - 1]), ids[|ids| - 1])
  }

  function Slots(b: seq<Item>, m: seq<Item>): (s: seq<nat>)
    ensures |s| == |m|
  {
    seq(|m|, i requires 0 <= i < |m| => Find(b, ItemId(m[i])))
  }

  /** Every kept item is found in the list; otherwise the update accesses the index 0xFFFF. */
  ghost predicate FoundIn(c: seq<Item>, kept: seq<Item>) {
    forall i :: 0 <= i < |kept| ==> Find(c, ItemId(kept[i])) < |c|
  }

  ghost predicate Ascending(s: seq<nat>) {
    forall i, j :: 0 <= i < j < |s| ==> s[i] <= s[j]
  }

  /** The list c after vals have been written, first to last, at the places slots that hold active items. */
  function WriteAll(c: seq<Item>, slots: seq<nat>, vals: seq<Item>): (r: seq<Item>)
    requires |slots| == |vals|
    ensures |r| == |c|
  {
    if slots == [] then c
    else
      var n := |slots| - 1;
      var t := WriteAll(c, slots[..n], vals[..n]);
      if slots[n] < |t| && IsActive(t[slots[n]]) then t[slots[n] := vals[n]] else t
  }

  /** r is c with the kept items written, in their order, at the sorted places where they were found. */
  ghost predicate WrittenTo(c: seq<Item>, kept: seq<Item>, r: seq<Item>) {
    exists slots: seq<nat> :: |slots| == |kept| && multiset(slots) == multiset(Slots(c, kept)) && Ascending(slots)
                              && r == WriteAll(c, slots, kept)
  }

  /** The items that the update keeps: the active ones before the first empty one. */
  function Kept(m: seq<Item>): (r: seq<Item>) {
    Actives(m[..BeforeNull(m)])
  }

  /** The items that it deletes, last one first: none if there is an empty item, because then the deletions
      stop in front of it. */
  function Gone(m: seq<Item>): (r: seq<Item>) {
    if BeforeNull(m) == |m| then Dead(m) else []
  }

  /** The real view b after the additions and removals that the virtual view m asks for. */
  function Prepared(m: seq<Item>, created: nat, b: seq<Item>): (r: seq<Item>)
    requires created <= |m|
  {
    RemoveAll(b + m[created..], Ids(Gone(m)))
  }

  /** r is the real view that the update leaves. */
  ghost predicate Rewritten(m: seq<Item>, created: nat, b: seq<Item>, r: seq<Item>)
    requires created <= |m|
  {
    WrittenTo(Prepared(m, created, b), Kept(m), r)
  }

  /** Where a removal happened. */
  function RemovedAt(b: seq<Item>, id: nat): (k: nat) {
    if First(b, id) < |b| then First(b, id) else UNKNOWN
  }

  function Min(a: nat, b: nat): (m: nat) {
    if b < a then b else a
  }

  /** The least of start and of the places of the removals. */
  function LeastRemoved(start: nat, b: seq<Item>, ids: seq<nat>): (k: nat) {
    if ids == [] then start
    else
      var n := |ids| - 1;
      Min(LeastRemoved(start, b, ids[..n]), RemovedAt(RemoveAll(b, ids[..n]), ids[n]))
  }

  function Least(start: nat, s: seq<nat>): (k: nat) {
    if s == [] then start else Min(Least(start, s[..|s| - 1]), s[|s| - 1])
  }

  /** `min_index`: the first place that the update may change. */
  function ChangedFrom(m: seq<Item>, created: nat, b: seq<Item>): (k: nat)
    requires created <= |m|
  {
    Least(LeastRemoved(created, b + m[created..], Ids(Gone(m))), Slots(Prepared(m, created, b), Kept(m)))
  }

  /** What the update leaves in the view behind the kept items: empty places, or what an empty item hid. */
  function Remainder(m: seq<Item>): (r: seq<Item>) {
    var n := BeforeNull(m);
    if n == |m| then seq(|Dead(m)|, _ => NULL_ITEM) else m[n..] + Dead(m[..n])
  }

  /** The state of the view after the update: the kept items are all there is, and nothing is left to write. */
  ghost predicate Settled(v: View, w: View)
    requires v.total <= |v.items|
  {
    var m := v.Prefix();
    var n := |Kept(m)|;
    w == v.(items := Kept(m) + Remainder(m) + v.items[v.total..], total := n, created := n, activeNum := n,
            plusOnly := true, needUp := false)
  }

  lemma KeptLength(m: seq<Item>)
    ensures |Kept(m)| + |Remainder(m)| == |m|
  {
    assert m[..|m|] == m;
  }

  lemma SettledPrefix(v: View, w: View)
    requires v.total <= |v.items| && Settled(v, w)
    ensures w.total <= |w.items| == |v.items| && w.Prefix() == Kept(v.Prefix())
  {
    KeptLength(v.Prefix());
  }

  /** How the update ends: nothing to do, or one of three faults (an addition behind the end of the list's
      memory, the failed assertion, an access at the index 0xFFFF of an item not found), or done, with the
      elements taken out of the store and the place from which on the list is written to flash. */
  datatype Outcome = Unneeded | NoRoom | Miscounted | NotFound | Done(deleted: seq<nat>, from: nat)

  predicate Room(v: View, count: nat, capacity: nat)
    requires v.created <= v.total
  {
    count + (v.total - v.created) <= capacity
  }

  ghost function UpdateOutcome(v: View, b: seq<Item>, capacity: nat): (o: Outcome)
    requires v.created <= v.total <= |v.items|
  {
    var m := v.Prefix();
    if !v.needUp then Unneeded
    else if !Room(v, |b|, capacity) then NoRoom
    else if !AssertionHolds(v) then Miscounted
    else if !FoundIn(Prepared(m, v.created, b), Kept(m)) then NotFound
    else Done(Ids(Gone(m)), ChangedFrom(m, v.created, b))
  }

  // ---------------------------------------------------------------- views without empty items

  /** The real view b after the additions and removals, if the view m holds no empty item. */
  function Merged(m: seq<Item>, created: nat, b: seq<Item>): (r: seq<Item>)
    requires created <= |m|
  {
    RemoveAll(b + m[created..], Ids(Dead(m)))
  }

  ghost predicate AllFound(m: seq<Item>, created: nat, b: seq<Item>)
    requires created <= |m|
  {
    FoundIn(Merged(m, created, b), Actives(m))
  }

  ghost predicate Updated(m: seq<Item>, created: nat, b: seq<Item>, r: seq<Item>)
    requires created <= |m|
  {
    WrittenTo(Merged(m, created, b), Actives(m), r)
  }

  lemma NoNullsParts(m: seq<Item>)
    requires NoNulls(m)
    ensures Kept(m) == Actives(m) && Gone(m) == Dead(m)
  {
    NoNullsIff(m);
    assert m[..|m|] == m;
  }

  lemma NoNullsUpdate(m: seq<Item>, created: nat, b: seq<Item>, r: seq<Item>)
    requires created <= |m| && NoNulls(m)
    ensures Prepared(m, created, b) == Merged(m, created, b)
    ensures Rewritten(m, created, b, r) <==> Updated(m, created, b, r)
  {
    NoNullsParts(m);
  }

  // ---------------------------------------------------------------- what it is for

  ghost predicate DistinctIds(s: seq<Item>) {
    forall i, j :: 0 <= i < j < |s| ==> ItemId(s[i]) != ItemId(s[j])
  }

  /** A well-formed list: only active items, each element once. */
  ghost predicate Clean(s: seq<Item>) {
    DistinctIds(s) && forall i :: 0 <= i < |s| ==> IsActive(s[i])
  }

  ghost function IdSet(s: seq<Item>): (r: set<nat>) {
    set i | 0 <= i < |s| :: ItemId(s[i])
  }

  /** The items whose id is in ids, or not in ids, in order. */
  ghost function Part(s: seq<Item>, ids: set<nat>, inside: bool): (r: seq<Item>) {
    if s == [] then []
    else Part(s[..|s| - 1], ids, inside) + (if (ItemId(s[|s| - 1]) in ids) == inside then [s[|s| - 1]] else [])
  }

  /** The written list r agrees with the virtual view m and with the old list b: it is well formed, the
      items of the virtual view are in it in the order and with the marks of the view, the deleted ones are
      gone, and the items that the view does not hold are what and in the order they were. */
  ghost predicate Agrees(m: seq<Item>, b: seq<Item>, r: seq<Item>) {
    && Clean(r)
    && Part(r, IdSet(m), true) == Actives(m)
    && Part(r, IdSet(m), false) == Part(b, IdSet(m), false)
  }

  /** The places before created hold items of the list or deleted ones. */
  ghost predicate Anchored(m: seq<Item>, created: nat, b: seq<Item>)
    requires created <= |m|
  {
    AnchoredBefore(m, |m|, created, b)
  }

  /** The same of the first n places. */
  ghost predicate AnchoredBefore(m: seq<Item>, n: nat, created: nat, b: seq<Item>)
    requires created <= |m|
  {
    forall k :: 0 <= k < created && k < n && IsActive(m[k]) ==> ItemId(m[k]) in IdSet(b)
  }

  /** What the caller can check before the update: the places from created on hold additions only, and the
      earlier places hold items of the list or deleted ones. */
  ghost predicate InStep(m: seq<Item>, created: nat, b: seq<Item>)
    requires created <= |m|
  {
    (forall k :: created <= k < |m| ==> ItemId(m[k]) !in IdSet(b)) && Anchored(m, created, b)
  }

  // ---------------------------------------------------------------- parts of a list

  lemma {:induction false} PartConcat(a: seq<Item>, b: seq<Item>, ids: set<nat>, inside: bool)
    ensures Part(a + b, ids, inside) == Part(a, ids, inside) + Part(b, ids, inside)
    decreases |b|
  {
    if b == [] {
      assert a + b == a;
    } else {
      var n := |b| - 1;
      assert (a + b)[..|a + b| - 1] == a + b[..n];
      PartConcat(a, b[..n], ids, inside);
    }
  }

  lemma {:induction false} PartNone(s: seq<Item>, ids: set<nat>, inside: bool)
    requires forall i :: 0 <= i < |s| ==> (ItemId(s[i]) in ids) != inside
    ensures Part(s, ids, inside) == []
  {
    if s != [] {
      PartNone(s[..|s| - 1], ids, inside);
    }
  }

  lemma {:induction false} PartAll(s: seq<Item>, ids: set<nat>, inside: bool)
    requires forall i :: 0 <= i < |s| ==> (ItemId(s[i]) in ids) == inside
    ensures Part(s, ids, inside) == s
  {
    if s != [] {
      PartAll(s[..|s| - 1], ids, inside);
      assert s == s[..|s| - 1] + [s[|s| - 1]];
    }
  }

  lemma PartOne(x: Item, ids: set<nat>, inside: bool)
    ensures Part([x], ids, inside) == if (ItemId(x) in ids) == inside then [x] else []
  {
    assert [x][..0] == [];
  }

  // ---------------------------------------------------------------- removals

  lemma WithoutAt(b: seq<Item>, k: nat, i: nat)
    requires k < |b| && i < |b| - 1
    ensures (b[..k] + b[k + 1..])[i] == b[if i < k then i else i + 1]
  {
  }

  lemma WithoutDistinct(b: seq<Item>, k: nat)
    requires k < |b| && DistinctIds(b)
    ensures DistinctIds(b[..k] + b[k + 1..])
  {
    var r := b[..k] + b[k + 1..];
    forall i, j | 0 <= i < j < |r|
      ensures ItemId(r[i]) != ItemId(r[j])
    {
      WithoutAt(b, k, i);
      WithoutAt(b, k, j);
    }
  }

  lemma WithoutIds(b: seq<Item>, k: nat)
    requires k < |b| && DistinctIds(b)
    ensures IdSet(b[..k] + b[k + 1..]) == IdSet(b) - {ItemId(b[k])}
  {
    var r := b[..k] + b[k + 1..];
    forall i | 0 <= i < |r|
      ensures ItemId(r[i]) in IdSet(b) - {ItemId(b[k])}
    {
      WithoutAt(b, k, i);
    }
    forall j | 0 <= j < |b| && j != k
      ensures ItemId(b[j]) in IdSet(r)
    {
      var i := if j < k then j else j - 1;
      WithoutAt(b, k, i);
      assert ItemId(r[i]) in IdSet(r);
    }
  }

  /** In a list of distinct ids a removal removes the id, wherever it is, and nothing else. */
  lemma RemoveDistinct(b: seq<Item>, id: nat)
    requires DistinctIds(b)
    ensures DistinctIds(Remove(b, id)) && IdSet(Remove(b, id)) == IdSet(b) - {id}
  {
    var k := First(b, id);
    if k < |b| {
      WithoutDistinct(b, k);
      WithoutIds(b, k);
    }
  }

  lemma RemoveKeepsPart(b: seq<Item>, id: nat, ids: set<nat>)
    requires id in ids
    ensures Part(Remove(b, id), ids, false) == Part(b, ids, false)
  {
    var k := First(b, id);
    if k < |b| {
      var l, r := b[..k], b[k + 1..];
      assert b == l + [b[k]] + r;
      PartConcat(l, [b[k]], ids, false);
      PartConcat(l + [b[k]], r, ids, false);
      PartConcat(l, r, ids, false);
      PartOne(b[k], ids, false);
    }
  }

  lemma {:induction false} RemoveAllDistinct(b: seq<Item>, ids: seq<nat>)
    requires DistinctIds(b)
    ensures DistinctIds(RemoveAll(b, ids)) && IdSet(RemoveAll(b, ids)) == IdSet(b) - (set x | x in ids)
    decreases |ids|
  {
    if ids != [] {
      var init, x := ids[..|ids| - 1], ids[|ids| - 1];
      RemoveAllDistinct(b, init);
      RemoveDistinct(RemoveAll(b, init), x);
      assert ids == init + [x];
    }
  }

  lemma RemoveFrom(b: seq<Item>, id: nat, x: Item)
    requires x in Remove(b, id)
    ensures x in b
  {
  }

  lemma {:induction false} RemoveAllFrom(b: seq<Item>, ids: seq<nat>, x: Item)
    requires x in RemoveAll(b, ids)
    ensures x in b
    decreases |ids|
  {
    if ids != [] {
      RemoveFrom(RemoveAll(b, ids[..|ids| - 1]), ids[|ids| - 1], x);
      RemoveAllFrom(b, ids[..|ids| - 1], x);
    }
  }

  lemma {:induction false} RemoveAllKeepsPart(b: seq<Item>, ids: seq<nat>, all: set<nat>)
    requires forall i :: 0 <= i < |ids| ==> ids[i] in all
    ensures Part(RemoveAll(b, ids), all, false) == Part(b, all, false)
    decreases |ids|
  {
    if ids != [] {
      RemoveAllKeepsPart(b, ids[..|ids| - 1], all);
      RemoveKeepsPart(RemoveAll(b, ids[..|ids| - 1]), ids[|ids| - 1], all);
    }
  }

  // ---------------------------------------------------------------- placing

  /** r is b with vals written at the places slots. */
  ghost predicate Placed(r: seq<Item>, b: seq<Item>, slots: seq<nat>, vals: seq<Item>) {
    && |r| == |b| && |slots| == |vals|
    && (forall i :: 0 <= i < |slots| ==> slots[i] < |b| && r[slots[i]] == vals[i])
    && (forall k: nat :: k < |b| && k !in slots ==> r[k] == b[k])
  }

  ghost predicate Rising(s: seq<nat>) {
    forall i, j :: 0 <= i < j < |s| ==> s[i] < s[j]
  }

  /** The places slots are those of the items of ids. */
  ghost predicate Marks(b: seq<Item>, slots: seq<nat>, ids: set<nat>) {
    forall k: nat :: k < |b| ==> (k in slots <==> ItemId(b[k]) in ids)
  }

  lemma LastIsTop(slots: seq<nat>, n: nat)
    requires Rising(slots) && n in slots && forall i :: 0 <= i < |slots| ==> slots[i] <= n
    ensures slots[|slots| - 1] == n
    ensures forall i :: 0 <= i < |slots| - 1 ==> slots[i] < n
  {
    var i :| 0 <= i < |slots| && slots[i] == n;
    BelowLast(slots, i);
  }

  lemma BelowLast(slots: seq<nat>, i: nat)
    requires Rising(slots) && i < |slots|
    ensures slots[i] <= slots[|slots| - 1]
  {
  }

  lemma LastSlot(b: seq<Item>, slots: seq<nat>, ids: set<nat>)
    requires b != [] && Rising(slots) && Marks(b, slots, ids) && ItemId(b[|b| - 1]) in ids
    requires forall i :: 0 <= i < |slots| ==> slots[i] < |b|
    ensures slots != [] && slots[|slots| - 1] == |b| - 1
    ensures Marks(b[..|b| - 1], slots[..|slots| - 1], ids)
    ensures forall i :: 0 <= i < |slots| - 1 ==> slots[i] < |b| - 1
  {
    var n: nat := |b| - 1;
    assert n in slots;
    LastIsTop(slots, n);
    forall k: nat | k < n
      ensures k in slots[..|slots| - 1] <==> ItemId(b[k]) in ids
    {
      Sequences.LastOrEarlier(slots, k);
    }
  }

  lemma PlacedSomewhere(r: seq<Item>, b: seq<Item>, slots: seq<nat>, vals: seq<Item>)
    requires Placed(r, b, slots, vals)
    ensures vals != [] ==> b != []
  {
    if vals != [] {
      assert slots[0] < |b|;
    }
  }

  lemma PlacedInit(r: seq<Item>, b: seq<Item>, slots: seq<nat>, vals: seq<Item>)
    requires Placed(r, b, slots, vals) && slots != [] && b != [] && slots[|slots| - 1] == |b| - 1
    requires forall i :: 0 <= i < |slots| - 1 ==> slots[i] < |b| - 1
    ensures Placed(r[..|b| - 1], b[..|b| - 1], slots[..|slots| - 1], vals[..|vals| - 1])
    ensures r[|b| - 1] == vals[|vals| - 1]
  {
    var n, l := |b| - 1, |slots| - 1;
    forall k: nat | k < n && k !in slots[..l]
      ensures r[k] == b[k]
    {
      assert slots == slots[..l] + [n];
    }
  }

  lemma PlacedSkip(r: seq<Item>, b: seq<Item>, slots: seq<nat>, vals: seq<Item>, ids: set<nat>)
    requires Placed(r, b, slots, vals) && b != [] && Marks(b, slots, ids) && ItemId(b[|b| - 1]) !in ids
    ensures Placed(r[..|b| - 1], b[..|b| - 1], slots, vals) && Marks(b[..|b| - 1], slots, ids)
    ensures r[|b| - 1] == b[|b| - 1]
  {
    var n := |b| - 1;
    assert n !in slots;
    forall i | 0 <= i < |slots|
      ensures slots[i] < n
    {
      assert slots[i] in slots;
    }
  }

  ghost predicate AllIn(s: seq<Item>, ids: set<nat>) {
    forall i :: 0 <= i < |s| ==> ItemId(s[i]) in ids
  }

  lemma PartLast(s: seq<Item>, n: nat, ids: set<nat>, inside: bool)
    requires |s| == n + 1
    ensures Part(s, ids, inside) ==
            if (ItemId(s[n]) in ids) == inside then Part(s[..n], ids, inside) + [s[n]] else Part(s[..n], ids, inside)
  {
  }

  /** Writing vals at the ascending places of the items of ids puts them, in order, where those were. */
  lemma {:induction false} PlacedParts(r: seq<Item>, b: seq<Item>, slots: seq<nat>, vals: seq<Item>, ids: set<nat>)
    requires Placed(r, b, slots, vals) && Rising(slots) && Marks(b, slots, ids) && AllIn(vals, ids)
    ensures Part(r, ids, true) == vals && Part(r, ids, false) == Part(b, ids, false)
    decreases |b|
  {
    if b == [] {
      PlacedSomewhere(r, b, slots, vals);
    } else {
      var n := |b| - 1;
      PartLast(b, n, ids, false);
      PartLast(r, n, ids, true);
      PartLast(r, n, ids, false);
      if ItemId(b[n]) in ids {
        PlacedLast(r, b, slots, vals, ids);
        PlacedParts(r[..n], b[..n], slots[..|slots| - 1], vals[..|vals| - 1], ids);
      } else {
        PlacedSkip(r, b, slots, vals, ids);
        PlacedParts(r[..n], b[..n], slots, vals, ids);
      }
    }
  }

  lemma PlacedLast(r: seq<Item>, b: seq<Item>, slots: seq<nat>, vals: seq<Item>, ids: set<nat>)
    requires Placed(r, b, slots, vals) && Rising(slots) && Marks(b, slots, ids) && AllIn(vals, ids)
    requires b != [] && ItemId(b[|b| - 1]) in ids
    ensures slots != [] && Rising(slots[..|slots| - 1]) && Marks(b[..|b| - 1], slots[..|slots| - 1], ids)
    ensures Placed(r[..|b| - 1], b[..|b| - 1], slots[..|slots| - 1], vals[..|vals| - 1])
    ensures AllIn(vals[..|vals| - 1], ids) && ItemId(r[|b| - 1]) in ids
    ensures vals == vals[..|vals| - 1] + [r[|b| - 1]]
  {
    LastSlot(b, slots, ids);
    PlacedInit(r, b, slots, vals);
  }

  // ---------------------------------------------------------------- what the slots are

  lemma {:induction false} FindUnique(b: seq<Item>, k: nat)
    requires Clean(b) && k < |b|
    ensures Find(b, ItemId(b[k])) == k
  {
    var j := Find(b, ItemId(b[k]));
    assert IsActive(b[k]);
  }

  lemma FindIn(b: seq<Item>, id: nat)
    requires Clean(b)
    ensures Find(b, id) < |b| <==> id in IdSet(b)
  {
    if id in IdSet(b) {
      var k: nat :| k < |b| && ItemId(b[k]) == id;
      FindUnique(b, k);
    }
  }

  /** Sorting the places of distinct kept items gives rising places, exactly those of their ids. */
  lemma SlotsRise(b: seq<Item>, m: seq<Item>, slots: seq<nat>)
    requires Clean(b) && DistinctIds(m) && IdSet(m) <= IdSet(b)
    requires multiset(slots) == multiset(Slots(b, m)) && Ascending(slots)
    ensures Rising(slots) && Marks(b, slots, IdSet(m))
  {
    var raw := Slots(b, m);
    forall i, j | 0 <= i < j < |raw|
      ensures raw[i] != raw[j]
    {
      FindIn(b, ItemId(m[i]));
      FindIn(b, ItemId(m[j]));
    }
    DistinctMultiset(raw, slots);
    forall k: nat | k < |b|
      ensures k in slots <==> ItemId(b[k]) in IdSet(m)
    {
      SlotOf(b, m, k);
      assert k in multiset(slots) <==> k in multiset(raw);
    }
  }

  lemma SlotOf(b: seq<Item>, m: seq<Item>, k: nat)
    requires Clean(b) && IdSet(m) <= IdSet(b) && k < |b|
    ensures k in Slots(b, m) <==> ItemId(b[k]) in IdSet(m)
  {
    FindUnique(b, k);
    if k in Slots(b, m) {
      var i :| 0 <= i < |m| && Slots(b, m)[i] == k;
      assert ItemId(m[i]) in IdSet(m);
    }
    if ItemId(b[k]) in IdSet(m) {
      var i :| 0 <= i < |m| && ItemId(m[i]) == ItemId(b[k]);
      assert Slots(b, m)[i] == k;
    }
  }

  lemma {:induction false} NoRepeats(s: seq<nat>)
    requires forall i, j :: 0 <= i < j < |s| ==> s[i] != s[j]
    ensures forall x :: multiset(s)[x] <= 1
  {
    if s != [] {
      var n := |s| - 1;
      NoRepeats(s[..n]);
      assert s == s[..n] + [s[n]];
    }
  }

  lemma OnceOnly(s: seq<nat>, i: nat, j: nat)
    requires i < j < |s| && multiset(s)[s[i]] <= 1
    ensures s[i] != s[j]
  {
    assert s == s[..i] + [s[i]] + s[i + 1..j] + [s[j]] + s[j + 1..];
  }

  /** An ascending rearrangement of distinct numbers rises. */
  lemma DistinctMultiset(raw: seq<nat>, slots: seq<nat>)
    requires multiset(raw) == multiset(slots) && Ascending(slots)
    requires forall i, j :: 0 <= i < j < |raw| ==> raw[i] != raw[j]
    ensures Rising(slots)
  {
    NoRepeats(raw);
    forall i, j | 0 <= i < j < |slots|
      ensures slots[i] < slots[j]
    {
      OnceOnly(slots, i, j);
    }
  }

  // ---------------------------------------------------------------- writing at different places

  /** The slots are different places of active items of c, in rising order. */
  ghost predicate Writable(slots: seq<nat>, c: seq<Item>) {
    Rising(slots) && forall i :: 0 <= i < |slots| ==> slots[i] < |c| && IsActive(c[slots[i]])
  }

  lemma WritableInit(slots: seq<nat>, c: seq<Item>)
    requires Writable(slots, c) && slots != []
    ensures Writable(slots[..|slots| - 1], c)
    ensures slots[|slots| - 1] !in slots[..|slots| - 1]
  {
  }

  /** Writing at different places of active items puts every value where it belongs. */
  lemma {:induction false} WriteAllPlaced(c: seq<Item>, slots: seq<nat>, vals: seq<Item>)
    requires Writable(slots, c) && |slots| == |vals|
    ensures Placed(WriteAll(c, slots, vals), c, slots, vals)
    decreases |slots|
  {
    if slots != [] {
      var n := |slots| - 1;
      WritableInit(slots, c);
      WriteAllPlaced(c, slots[..n], vals[..n]);
      PlacedOneMore(WriteAll(c, slots[..n], vals[..n]), c, slots, vals);
    }
  }

  lemma PlacedOneMore(t: seq<Item>, c: seq<Item>, slots: seq<nat>, vals: seq<Item>)
    requires slots != [] && |slots| == |vals| && Writable(slots, c)
    requires Placed(t, c, slots[..|slots| - 1], vals[..|vals| - 1])
    ensures var n := |slots| - 1; IsActive(t[slots[n]]) && Placed(t[slots[n] := vals[n]], c, slots, vals)
  {
    var n := |slots| - 1;
    var s, r := slots[..n], t[slots[n] := vals[n]];
    WritableInit(slots, c);
    forall i | 0 <= i < |slots|
      ensures r[slots[i]] == vals[i]
    {
      if i < n {
        assert slots[i] == s[i] && s[i] in s && vals[..n][i] == vals[i];
      }
    }
    forall k: nat | k < |c| && k !in slots
      ensures r[k] == c[k]
    {
      Sequences.LastOrEarlier(slots, k);
    }
  }

  lemma SlotsWritable(c: seq<Item>, kept: seq<Item>, slots: seq<nat>)
    requires DistinctIds(kept) && FoundIn(c, kept)
    requires multiset(slots) == multiset(Slots(c, kept)) && Ascending(slots)
    ensures Writable(slots, c)
  {
    var raw := Slots(c, kept);
    forall i, j | 0 <= i < j < |raw|
      ensures raw[i] != raw[j]
    {
      assert ItemId(kept[i]) != ItemId(kept[j]);
    }
    DistinctMultiset(raw, slots);
    forall j | 0 <= j < |slots|
      ensures slots[j] < |c| && IsActive(c[slots[j]])
    {
      assert slots[j] in multiset(raw);
      var i :| 0 <= i < |raw| && raw[i] == slots[j];
    }
  }

  ghost predicate PlacedAtSlots(c: seq<Item>, kept: seq<Item>, slots: seq<nat>, r: seq<Item>) {
    multiset(slots) == multiset(Slots(c, kept)) && Ascending(slots) && Placed(r, c, slots, kept)
  }

  /** For items of distinct ids the places are different. */
  lemma WrittenIsPlaced(c: seq<Item>, kept: seq<Item>, r: seq<Item>) returns (slots: seq<nat>)
    requires DistinctIds(kept) && FoundIn(c, kept) && WrittenTo(c, kept, r)
    ensures PlacedAtSlots(c, kept, slots, r)
  {
    slots :| |slots| == |kept| && multiset(slots) == multiset(Slots(c, kept)) && Ascending(slots)
             && r == WriteAll(c, slots, kept);
    SlotsWritable(c, kept, slots);
    WriteAllPlaced(c, slots, kept);
  }

  // ---------------------------------------------------------------- kept and deleted items

  /** live and dead split the elements of m. */
  ghost predicate Sound(m: seq<Item>, live: seq<Item>, dead: seq<Item>) {
    && Clean(live) && DistinctIds(dead)
    && IdSet(live) !! IdSet(dead) && IdSet(m) == IdSet(live) + IdSet(dead)
  }

  lemma {:induction false} ActivesSound(m: seq<Item>)
    requires DistinctIds(m)
    ensures Sound(m, Actives(m), Dead(m))
  {
    if m != [] {
      var n := |m| - 1;
      var init, x := m[..n], m[n];
      assert m == init + [x];
      ActivesSound(init);
      DistinctLast(init, x);
      SoundStep(init, Actives(init), Dead(init), x);
      SplitLast(init, x);
    }
  }

  lemma SplitLast(s: seq<Item>, x: Item)
    ensures Actives(s + [x]) == if IsActive(x) then Actives(s) + [x] else Actives(s)
    ensures Dead(s + [x]) == if IsActive(x) then Dead(s) else [x] + Dead(s)
  {
    assert (s + [x])[..|s|] == s;
  }

  lemma DistinctLast(s: seq<Item>, x: Item)
    requires DistinctIds(s + [x])
    ensures ItemId(x) !in IdSet(s)
  {
    var t := s + [x];
    forall i | 0 <= i < |s|
      ensures ItemId(s[i]) != ItemId(x)
    {
      assert ItemId(t[i]) != ItemId(t[|s|]);
    }
  }

  lemma SoundStep(m: seq<Item>, live: seq<Item>, dead: seq<Item>, x: Item)
    requires Sound(m, live, dead) && ItemId(x) !in IdSet(m)
    ensures IsActive(x) ==> Sound(m + [x], live + [x], dead)
    ensures Sound(m + [x], live, [x] + dead)
  {
    IdsAppend(m, x);
    IdsAppend(live, x);
    IdsPrepend(x, dead);
  }

  lemma IdsAppend(s: seq<Item>, x: Item)
    ensures IdSet(s + [x]) == IdSet(s) + {ItemId(x)}
    ensures ItemId(x) !in IdSet(s) && DistinctIds(s) ==> DistinctIds(s + [x])
    ensures ItemId(x) !in IdSet(s) && Clean(s) && IsActive(x) ==> Clean(s + [x])
  {
    var t := s + [x];
    assert t[|s|] == x;
    assert forall i :: 0 <= i < |s| ==> t[i] == s[i];
  }

  lemma IdsPrepend(x: Item, s: seq<Item>)
    ensures IdSet([x] + s) == IdSet(s) + {ItemId(x)}
    ensures ItemId(x) !in IdSet(s) && DistinctIds(s) ==> DistinctIds([x] + s)
  {
    var t := [x] + s;
    assert t[0] == x;
    assert forall i :: 0 <= i < |s| ==> t[i + 1] == s[i];
    forall id | id in IdSet(s)
      ensures id in IdSet(t)
    {
      var i :| 0 <= i < |s| && ItemId(s[i]) == id;
      assert ItemId(t[i + 1]) == id;
    }
  }

  // ---------------------------------------------------------------- the update is right

  lemma IdsOfConcat(a: seq<Item>, b: seq<Item>)
    ensures IdSet(a + b) == IdSet(a) + IdSet(b)
  {
    forall i | 0 <= i < |b|
      ensures ItemId(b[i]) in IdSet(a + b)
    {
      assert (a + b)[|a| + i] == b[i];
    }
    forall i | 0 <= i < |a|
      ensures ItemId(a[i]) in IdSet(a + b)
    {
      assert (a + b)[i] == a[i];
    }
  }

  lemma IdsOfSeq(s: seq<Item>)
    ensures (set x | x in Ids(s)) == IdSet(s)
  {
    forall i | 0 <= i < |s|
      ensures ItemId(s[i]) in Ids(s)
    {
      assert Ids(s)[i] == ItemId(s[i]);
    }
  }

  /** The additions continue the list without repeating an id. */
  lemma AppendDistinct(m: seq<Item>, created: nat, b: seq<Item>)
    requires created <= |m| && DistinctIds(b) && DistinctIds(m)
    requires forall k :: created <= k < |m| ==> ItemId(m[k]) !in IdSet(b)
    ensures DistinctIds(b + m[created..])
  {
    var all := b + m[created..];
    forall i, j | 0 <= i < j < |all|
      ensures ItemId(all[i]) != ItemId(all[j])
    {
      if i < |b| <= j {
        assert ItemId(b[i]) in IdSet(b) && ItemId(m[created + j - |b|]) !in IdSet(b);
      }
    }
  }

  lemma MergedIdSet(m: seq<Item>, created: nat, b: seq<Item>)
    requires created <= |m| && DistinctIds(b) && DistinctIds(m) && InStep(m, created, b)
    ensures var c := Merged(m, created, b);
            DistinctIds(c) && IdSet(c) == IdSet(b) + IdSet(m[created..]) - IdSet(Dead(m))
  {
    AppendDistinct(m, created, b);
    RemoveAllDistinct(b + m[created..], Ids(Dead(m)));
    IdsOfSeq(Dead(m));
    IdsOfConcat(b, m[created..]);
  }

  lemma UndeletedActive(m: seq<Item>, x: Item)
    requires x in m && ItemId(x) !in IdSet(Dead(m))
    ensures IsActive(x)
  {
    var k: nat :| k < |m| && m[k] == x;
    SplitAt(m, k);
  }

  ghost predicate AllActive(s: seq<Item>) {
    forall x :: x in s ==> IsActive(x)
  }

  lemma MergedFrom(m: seq<Item>, created: nat, b: seq<Item>, x: Item)
    requires created <= |m| && x in Merged(m, created, b)
    ensures x in b || x in m
  {
    RemoveAllFrom(b + m[created..], Ids(Dead(m)), x);
  }

  lemma MergedActive(m: seq<Item>, created: nat, b: seq<Item>, x: Item)
    requires created <= |m| && x in Merged(m, created, b) && ItemId(x) !in IdSet(Dead(m))
    requires AllActive(b)
    ensures IsActive(x)
  {
    MergedFrom(m, created, b, x);
    if x !in b {
      UndeletedActive(m, x);
    }
  }

  lemma MergedIds(m: seq<Item>, created: nat, b: seq<Item>)
    requires created <= |m| && Clean(b) && DistinctIds(m) && InStep(m, created, b)
    ensures var c := Merged(m, created, b);
            Clean(c) && IdSet(c) == IdSet(b) + IdSet(m[created..]) - IdSet(Dead(m))
  {
    var c := Merged(m, created, b);
    MergedIdSet(m, created, b);
    forall i: nat | i < |c|
      ensures IsActive(c[i])
    {
      assert ItemId(c[i]) in IdSet(c);
      MergedActive(m, created, b, c[i]);
    }
  }

  /** Every item of m is among the kept ones or among the deleted ones. */
  lemma {:induction false} SplitAt(m: seq<Item>, k: nat)
    requires k < |m|
    ensures if IsActive(m[k]) then ItemId(m[k]) in IdSet(Actives(m)) else ItemId(m[k]) in IdSet(Dead(m))
  {
    var n := |m| - 1;
    var init, x := m[..n], m[n];
    assert m == init + [x];
    SplitLast(init, x);
    IdsAppend(Actives(init), x);
    IdsPrepend(x, Dead(init));
    if k < n {
      SplitAt(init, k);
    }
  }

  lemma KeptAreThere(m: seq<Item>, created: nat, b: seq<Item>)
    requires created <= |m| && DistinctIds(m) && InStep(m, created, b)
    ensures IdSet(Actives(m)) <= IdSet(b) + IdSet(m[created..])
    ensures IdSet(Actives(m)) !! IdSet(Dead(m))
  {
    ActivesSound(m);
    forall id | id in IdSet(Actives(m))
      ensures id in IdSet(b) + IdSet(m[created..])
    {
      var k := ActiveAt(m, id);
      if created <= k {
        assert m[created..][k - created] == m[k];
      }
    }
  }

  /** An id of a kept item is the id of an active item of the view. */
  lemma {:induction false} ActiveAt(m: seq<Item>, id: nat) returns (k: nat)
    requires id in IdSet(Actives(m))
    ensures k < |m| && IsActive(m[k]) && ItemId(m[k]) == id
  {
    var n := |m| - 1;
    if IsActive(m[n]) && ItemId(m[n]) == id {
      k := n;
    } else {
      assert m == m[..n] + [m[n]];
      SplitLast(m[..n], m[n]);
      if IsActive(m[n]) {
        IdsAppend(Actives(m[..n]), m[n]);
      }
      k := ActiveAt(m[..n], id);
    }
  }

  // ---------------------------------------------------------------- when every kept item is found

  lemma RemoveKeepsOther(b: seq<Item>, id: nat, x: Item)
    requires x in b && ItemId(x) != id
    ensures x in Remove(b, id)
  {
    var p: nat :| p < |b| && b[p] == x;
    if First(b, id) < |b| {
      var p' := RemoveKeepsAt(b, id, p);
    }
  }

  lemma {:induction false} RemoveAllKeepsOther(b: seq<Item>, ids: seq<nat>, x: Item)
    requires x in b && ItemId(x) !in ids
    ensures x in RemoveAll(b, ids)
    decreases |ids|
  {
    if ids != [] {
      var n := |ids| - 1;
      RemoveAllKeepsOther(b, ids[..n], x);
      RemoveKeepsOther(RemoveAll(b, ids[..n]), ids[n], x);
    }
  }

  lemma FindMember(c: seq<Item>, x: Item)
    requires x in c && IsActive(x)
    ensures Find(c, ItemId(x)) < |c|
  {
    var p: nat :| p < |c| && c[p] == x;
  }

  lemma AnchoredIn(m: seq<Item>, created: nat, b: seq<Item>, k: nat) returns (x: Item)
    requires created <= |m| && k < |m| && IsActive(m[k]) && Clean(b)
    requires k < created ==> ItemId(m[k]) in IdSet(b)
    ensures x in b + m[created..] && IsActive(x) && ItemId(x) == ItemId(m[k])
  {
    if k < created {
      var p: nat :| p < |b| && ItemId(b[p]) == ItemId(m[k]);
      x := b[p];
      assert (b + m[created..])[p] == x;
    } else {
      x := m[k];
      assert (b + m[created..])[|b| + k - created] == x;
    }
  }

  lemma AnchoredFound(m: seq<Item>, created: nat, b: seq<Item>, id: nat)
    requires created <= |m| && Clean(b) && DistinctIds(m) && Anchored(m, created, b)
    requires id in IdSet(Actives(m))
    ensures Find(Merged(m, created, b), id) < |Merged(m, created, b)|
  {
    var k := ActiveAt(m, id);
    var x := AnchoredIn(m, created, b, k);
    KeptId(m, k);
    RemoveAllKeepsOther(b + m[created..], Ids(Dead(m)), x);
    FindMember(Merged(m, created, b), x);
  }

  /** The update finds all kept items, and so never accesses 0xFFFF, exactly when every kept item before
      the additions is in the list. */
  lemma AllFoundIff(m: seq<Item>, created: nat, b: seq<Item>)
    requires created <= |m| && Clean(b) && DistinctIds(m)
    ensures AllFound(m, created, b) <==> Anchored(m, created, b)
  {
    if Anchored(m, created, b) {
      forall i | 0 <= i < |Actives(m)|
        ensures Find(Merged(m, created, b), ItemId(Actives(m)[i])) < |Merged(m, created, b)|
      {
        assert ItemId(Actives(m)[i]) in IdSet(Actives(m));
        AnchoredFound(m, created, b, ItemId(Actives(m)[i]));
      }
    } else {
      var k :| 0 <= k < created && IsActive(m[k]) && ItemId(m[k]) !in IdSet(b);
      StrangerNotFound(m, created, b, k);
    }
  }

  lemma PlacedClean(r: seq<Item>, c: seq<Item>, slots: seq<nat>, vals: seq<Item>)
    requires Placed(r, c, slots, vals) && Rising(slots) && Clean(c) && Clean(vals)
    requires Marks(c, slots, IdSet(vals))
    ensures Clean(r)
  {
    forall k: nat | k < |r|
      ensures IsActive(r[k])
    {
      PlacedAt(r, c, slots, vals, k);
    }
    forall i: nat, j: nat | i < j < |r|
      ensures ItemId(r[i]) != ItemId(r[j])
    {
      PlacedDiffer(r, c, slots, vals, i, j);
    }
  }

  lemma PlacedDiffer(r: seq<Item>, c: seq<Item>, slots: seq<nat>, vals: seq<Item>, i: nat, j: nat)
    requires Placed(r, c, slots, vals) && Clean(c) && Clean(vals)
    requires Marks(c, slots, IdSet(vals)) && i < j < |r|
    ensures ItemId(r[i]) != ItemId(r[j])
  {
    PlacedAt(r, c, slots, vals, i);
    PlacedAt(r, c, slots, vals, j);
    if i in slots && j in slots {
      var p :| 0 <= p < |slots| && slots[p] == i && r[i] == vals[p];
      var q :| 0 <= q < |slots| && slots[q] == j && r[j] == vals[q];
      DistinctAt(vals, p, q);
    } else if i in slots {
      assert ItemId(r[i]) in IdSet(vals) && ItemId(c[j]) !in IdSet(vals);
    } else if j in slots {
      assert ItemId(r[j]) in IdSet(vals) && ItemId(c[i]) !in IdSet(vals);
    } else {
      DistinctAt(c, i, j);
    }
  }

  lemma DistinctAt(s: seq<Item>, p: nat, q: nat)
    requires DistinctIds(s) && p < |s| && q < |s| && p != q
    ensures ItemId(s[p]) != ItemId(s[q])
  {
  }

  /** What stands at place k after the writing. */
  lemma PlacedAt(r: seq<Item>, c: seq<Item>, slots: seq<nat>, vals: seq<Item>, k: nat)
    requires Placed(r, c, slots, vals) && k < |r|
    ensures k in slots ==>
              exists i :: 0 <= i < |slots| && slots[i] == k && r[k] == vals[i] && ItemId(r[k]) in IdSet(vals)
    ensures k !in slots ==> r[k] == c[k]
  {
    if k in slots {
      var i :| 0 <= i < |slots| && slots[i] == k;
      assert r[slots[i]] == vals[i];
    }
  }

  lemma UpdateAgrees(m: seq<Item>, created: nat, b: seq<Item>, r: seq<Item>)
    requires created <= |m| && Clean(b) && DistinctIds(m) && InStep(m, created, b)
    requires Updated(m, created, b, r)
    ensures Agrees(m, b, r)
  {
    var c, kept, ids := Merged(m, created, b), Actives(m), IdSet(m);
    ActivesSound(m);
    AllFoundIff(m, created, b);
    var slots := WrittenIsPlaced(c, kept, r);
    MergedIds(m, created, b);
    KeptAreThere(m, created, b);
    SlotsRise(c, kept, slots);
    PlacedClean(r, c, slots, kept);
    forall k: nat | k < |c|
      ensures k in slots <==> ItemId(c[k]) in ids
    {
      assert ItemId(c[k]) in IdSet(c);
    }
    PlacedParts(r, c, slots, kept, ids);
    OthersKept(m, created, b);
  }

  /** Additions and removals do not touch the items that the view does not hold. */
  lemma OthersKept(m: seq<Item>, created: nat, b: seq<Item>)
    requires created <= |m| && DistinctIds(m)
    ensures Part(Merged(m, created, b), IdSet(m), false) == Part(b, IdSet(m), false)
  {
    var added := m[created..];
    ActivesSound(m);
    forall i | 0 <= i < |Dead(m)|
      ensures Ids(Dead(m))[i] in IdSet(m)
    {
      assert ItemId(Dead(m)[i]) in IdSet(Dead(m));
    }
    RemoveAllKeepsPart(b + added, Ids(Dead(m)), IdSet(m));
    PartConcat(b, added, IdSet(m), false);
    forall i | 0 <= i < |added|
      ensures ItemId(added[i]) in IdSet(m)
    {
      assert added[i] == m[created + i];
    }
    PartNone(added, IdSet(m), false);
  }

  // ---------------------------------------------------------------- and only then

  ghost predicate Twice(s: seq<Item>, id: nat) {
    exists p: nat, q: nat :: p < q < |s| && ItemId(s[p]) == id && ItemId(s[q]) == id
  }

  lemma RemoveKeepsAt(b: seq<Item>, id: nat, p: nat) returns (p': nat)
    requires p < |b| && p != First(b, id)
    ensures p' < |Remove(b, id)| && Remove(b, id)[p'] == b[p]
    ensures p' == if p < First(b, id) then p else p - 1
  {
    p' := if p < First(b, id) then p else p - 1;
  }

  lemma {:induction false} RemoveAllKeepsTwice(b: seq<Item>, ids: seq<nat>, id: nat)
    requires Twice(b, id) && id !in ids
    ensures Twice(RemoveAll(b, ids), id)
    decreases |ids|
  {
    if ids != [] {
      var init, x := ids[..|ids| - 1], ids[|ids| - 1];
      assert ids == init + [x];
      RemoveAllKeepsTwice(b, init, id);
      var c := RemoveAll(b, init);
      var p: nat, q: nat :| p < q < |c| && ItemId(c[p]) == id && ItemId(c[q]) == id;
      var p' := RemoveKeepsAt(c, x, p);
      var q' := RemoveKeepsAt(c, x, q);
    }
  }

  lemma RemoveIds(b: seq<Item>, id: nat)
    ensures IdSet(Remove(b, id)) <= IdSet(b)
  {
    var k, r := First(b, id), Remove(b, id);
    forall i: nat | i < |r|
      ensures ItemId(r[i]) in IdSet(b)
    {
      if k < |b| {
        WithoutAt(b, k, i);
      }
    }
  }

  lemma {:induction false} RemoveAllIds(b: seq<Item>, ids: seq<nat>)
    ensures IdSet(RemoveAll(b, ids)) <= IdSet(b)
    decreases |ids|
  {
    if ids != [] {
      RemoveAllIds(b, ids[..|ids| - 1]);
      RemoveIds(RemoveAll(b, ids[..|ids| - 1]), ids[|ids| - 1]);
    }
  }

  /** A slot is the place where its own item was found. */
  lemma SlotIsFound(c: seq<Item>, kept: seq<Item>, slots: seq<nat>, k: nat)
    requires multiset(slots) == multiset(Slots(c, kept)) && k in slots && k < |c|
    ensures IsActive(c[k]) && Find(c, ItemId(c[k])) == k && ItemId(c[k]) in IdSet(kept)
  {
    assert k in multiset(Slots(c, kept));
    var i :| 0 <= i < |kept| && Slots(c, kept)[i] == k;
  }

  lemma KeptId(m: seq<Item>, k: nat)
    requires DistinctIds(m) && k < |m| && IsActive(m[k])
    ensures ItemId(m[k]) in IdSet(Actives(m)) && ItemId(m[k]) !in Ids(Dead(m))
  {
    ActivesSound(m);
    IdsOfSeq(Dead(m));
    SplitAt(m, k);
  }

  /** Of two copies only the first found one can be written over. */
  lemma SpareCopy(c: seq<Item>, kept: seq<Item>, slots: seq<nat>, x: nat) returns (other: nat)
    requires Twice(c, x) && multiset(slots) == multiset(Slots(c, kept))
    ensures other < |c| && ItemId(c[other]) == x && other !in slots
  {
    var p: nat, q: nat :| p < q < |c| && ItemId(c[p]) == x && ItemId(c[q]) == x;
    other := if p == Find(c, x) then q else p;
    if other in slots {
      SlotIsFound(c, kept, slots, other);
    }
  }

  lemma WrittenCopy(r: seq<Item>, c: seq<Item>, slots: seq<nat>, kept: seq<Item>, x: nat) returns (k: nat)
    requires Placed(r, c, slots, kept) && x in IdSet(kept)
    ensures k < |r| && k in slots && ItemId(r[k]) == x
  {
    var i: nat :| i < |kept| && ItemId(kept[i]) == x;
    assert r[slots[i]] == kept[i];
    k := slots[i];
  }

  lemma TwoCopies(r: seq<Item>, i: nat, j: nat)
    requires i < |r| && j < |r| && i != j && ItemId(r[i]) == ItemId(r[j])
    ensures !DistinctIds(r)
  {
    if i < j {
      assert ItemId(r[i]) == ItemId(r[j]);
    }
  }

  lemma ActiveDuplicateSpoils(m: seq<Item>, created: nat, b: seq<Item>, r: seq<Item>, k: nat)
    requires created <= k < |m| && IsActive(m[k]) && ItemId(m[k]) in IdSet(b)
    requires DistinctIds(m) && AllFound(m, created, b) && Updated(m, created, b, r)
    ensures !Agrees(m, b, r)
  {
    var c, kept, x := Merged(m, created, b), Actives(m), ItemId(m[k]);
    ActivesSound(m);
    var slots := WrittenIsPlaced(c, kept, r);
    KeptId(m, k);
    TwiceInList(m, created, b, k);
    RemoveAllKeepsTwice(b + m[created..], Ids(Dead(m)), x);
    var other := SpareCopy(c, kept, slots, x);
    var written := WrittenCopy(r, c, slots, kept, x);
    TwoCopies(r, other, written);
  }

  /** One removal takes one of two copies. */
  lemma {:induction false} RemoveAllLeavesOne(b: seq<Item>, ids: seq<nat>, id: nat)
    requires Twice(b, id) && forall i, j :: 0 <= i < j < |ids| ==> ids[i] != ids[j]
    ensures id in IdSet(RemoveAll(b, ids))
    decreases |ids|
  {
    if ids == [] {
    } else {
      var init, x := ids[..|ids| - 1], ids[|ids| - 1];
      var c := RemoveAll(b, init);
      if x == id {
        RemoveAllKeepsTwice(b, init, id);
        var p: nat, q: nat :| p < q < |c| && ItemId(c[p]) == id && ItemId(c[q]) == id;
        var q' := RemoveKeepsAt(c, x, q);
      } else {
        RemoveAllLeavesOne(b, init, id);
        var q: nat :| q < |c| && ItemId(c[q]) == id;
        var q' := RemoveKeepsAt(c, x, q);
      }
    }
  }

  lemma {:induction false} PartHas(s: seq<Item>, ids: set<nat>, k: nat)
    requires k < |s| && ItemId(s[k]) in ids
    ensures s[k] in Part(s, ids, true)
  {
    var n := |s| - 1;
    if k < n {
      PartHas(s[..n], ids, k);
    }
  }

  lemma DeadDuplicateSpoils(m: seq<Item>, created: nat, b: seq<Item>, r: seq<Item>, k: nat)
    requires created <= k < |m| && !IsActive(m[k]) && ItemId(m[k]) in IdSet(b)
    requires DistinctIds(m) && AllFound(m, created, b) && Updated(m, created, b, r)
    ensures !Agrees(m, b, r)
  {
    var c, kept, x := Merged(m, created, b), Actives(m), ItemId(m[k]);
    ActivesSound(m);
    var slots := WrittenIsPlaced(c, kept, r);
    SplitAt(m, k);
    var p := DeadCopy(m, created, b, k);
    Unwritten(r, c, slots, kept, p);
    assert x in IdSet(m);
    OutsiderSpoils(m, b, r, p);
  }

  /** Of a deleted item that the list had too, one copy outlives the removals. */
  lemma DeadCopy(m: seq<Item>, created: nat, b: seq<Item>, k: nat) returns (p: nat)
    requires created <= k < |m| && DistinctIds(m) && ItemId(m[k]) in IdSet(b)
    ensures p < |Merged(m, created, b)| && ItemId(Merged(m, created, b)[p]) == ItemId(m[k])
  {
    TwiceInList(m, created, b, k);
    DeadDistinct(m);
    RemoveAllLeavesOne(b + m[created..], Ids(Dead(m)), ItemId(m[k]));
    p :| p < |Merged(m, created, b)| && ItemId(Merged(m, created, b)[p]) == ItemId(m[k]);
  }

  lemma DeadDistinct(m: seq<Item>)
    requires DistinctIds(m)
    ensures forall i, j :: 0 <= i < j < |Ids(Dead(m))| ==> Ids(Dead(m))[i] != Ids(Dead(m))[j]
  {
    ActivesSound(m);
  }

  /** A place whose id is not kept is not written. */
  lemma Unwritten(r: seq<Item>, c: seq<Item>, slots: seq<nat>, kept: seq<Item>, p: nat)
    requires Placed(r, c, slots, kept) && multiset(slots) == multiset(Slots(c, kept))
    requires p < |c| && ItemId(c[p]) !in IdSet(kept)
    ensures r[p] == c[p]
  {
    if p in slots {
      SlotIsFound(c, kept, slots, p);
      assert false;
    }
  }

  lemma MemberId(s: seq<Item>, x: Item)
    ensures x in s ==> ItemId(x) in IdSet(s)
  {
  }

  /** No list agrees with m that holds an id of m whose item is not kept. */
  lemma OutsiderSpoils(m: seq<Item>, b: seq<Item>, r: seq<Item>, p: nat)
    requires p < |r| && ItemId(r[p]) in IdSet(m) && ItemId(r[p]) !in IdSet(Actives(m))
    ensures !Agrees(m, b, r)
  {
    PartHas(r, IdSet(m), p);
    MemberId(Actives(m), r[p]);
  }

  lemma TwiceInList(m: seq<Item>, created: nat, b: seq<Item>, k: nat)
    requires created <= k < |m| && ItemId(m[k]) in IdSet(b)
    ensures Twice(b + m[created..], ItemId(m[k]))
  {
    var all := b + m[created..];
    var p: nat :| p < |b| && ItemId(b[p]) == ItemId(m[k]);
    var q := |b| + k - created;
    assert all[p] == b[p] && all[q] == m[k];
  }

  lemma StrangerNotFound(m: seq<Item>, created: nat, b: seq<Item>, k: nat)
    requires k < created <= |m| && IsActive(m[k]) && ItemId(m[k]) !in IdSet(b)
    requires DistinctIds(m)
    ensures !AllFound(m, created, b)
  {
    var c, kept := Merged(m, created, b), Actives(m);
    KeptId(m, k);
    var i: nat :| i < |kept| && ItemId(kept[i]) == ItemId(m[k]);
    RemoveAllIds(b + m[created..], Ids(Dead(m)));
    IdsOfConcat(b, m[created..]);
    NotAmongLater(m, created, k);
    FoundHasId(c, ItemId(kept[i]));
  }

  lemma NotAmongLater(m: seq<Item>, created: nat, k: nat)
    requires k < created <= |m| && DistinctIds(m)
    ensures ItemId(m[k]) !in IdSet(m[created..])
  {
    forall j | 0 <= j < |m| - created
      ensures ItemId(m[created..][j]) != ItemId(m[k])
    {
      assert m[created..][j] == m[created + j];
    }
  }

  lemma FoundHasId(c: seq<Item>, id: nat)
    ensures Find(c, id) < |c| ==> id in IdSet(c)
  {
    if Find(c, id) < |c| {
      assert ItemId(c[Find(c, id)]) in IdSet(c);
    }
  }

  /** The update finds every kept item and leaves a list that agrees with the view and with the old list
      exactly when the view was in step with the list. */
  lemma UpdateRightIff(m: seq<Item>, created: nat, b: seq<Item>, r: seq<Item>)
    requires created <= |m| && Clean(b) && DistinctIds(m)
    requires AllFound(m, created, b) ==> Updated(m, created, b, r)
    ensures AllFound(m, created, b) && Agrees(m, b, r) <==> InStep(m, created, b)
  {
    if InStep(m, created, b) {
      AllFoundIff(m, created, b);
      UpdateAgrees(m, created, b, r);
    } else if AllFound(m, created, b) {
      AllFoundIff(m, created, b);
      var k :| created <= k < |m| && ItemId(m[k]) in IdSet(b);
      if IsActive(m[k]) {
        ActiveDuplicateSpoils(m, created, b, r, k);
      } else {
        DeadDuplicateSpoils(m, created, b, r, k);
      }
    }
  }

  lemma NothingRemoved(m: seq<Item>, created: nat, b: seq<Item>)
    requires created <= |m| && BeforeNull(m) < |m|
    ensures Prepared(m, created, b) == b + m[created..]
  {
    assert Ids(Gone(m)) == [];
  }

  lemma CutFound(m: seq<Item>, n: nat, created: nat, b: seq<Item>, id: nat)
    requires created <= |m| && n <= |m| && Clean(b) && AnchoredBefore(m, n, created, b)
    requires id in IdSet(Actives(m[..n]))
    ensures Find(b + m[created..], id) < |b + m[created..]|
  {
    var k := ActiveAt(m[..n], id);
    assert m[..n][k] == m[k];
    var x := AnchoredIn(m, created, b, k);
    FindMember(b + m[created..], x);
  }

  lemma CutLost(m: seq<Item>, n: nat, created: nat, b: seq<Item>, k: nat)
    requires k < created <= |m| && k < n <= |m| && IsActive(m[k]) && ItemId(m[k]) !in IdSet(b) && DistinctIds(m)
    ensures !FoundIn(b + m[created..], Actives(m[..n]))
  {
    var c, kept := b + m[created..], Actives(m[..n]);
    SplitAt(m[..n], k);
    var i: nat :| i < |kept| && ItemId(kept[i]) == ItemId(m[k]);
    IdsOfConcat(b, m[created..]);
    NotAmongLater(m, created, k);
    FoundHasId(c, ItemId(kept[i]));
  }

  /** The update finds all the items it keeps exactly when those of them before the additions are in the
      list, also where an empty item cuts the view short. */
  lemma FindsIff(m: seq<Item>, created: nat, b: seq<Item>)
    requires created <= |m| && Clean(b) && DistinctIds(m)
    ensures FoundIn(Prepared(m, created, b), Kept(m)) <==> AnchoredBefore(m, BeforeNull(m), created, b)
  {
    var n := BeforeNull(m);
    if n == |m| {
      NoNullsIff(m);
      NoNullsParts(m);
      AllFoundIff(m, created, b);
    } else {
      NothingRemoved(m, created, b);
      if AnchoredBefore(m, n, created, b) {
        forall i | 0 <= i < |Kept(m)|
          ensures Find(b + m[created..], ItemId(Kept(m)[i])) < |b + m[created..]|
        {
          assert ItemId(Kept(m)[i]) in IdSet(Kept(m));
          CutFound(m, n, created, b, ItemId(Kept(m)[i]));
        }
      } else {
        var k: nat :| k < created && k < n && IsActive(m[k]) && ItemId(m[k]) !in IdSet(b);
        CutLost(m, n, created, b, k);
      }
    }
  }

  /** The update is carried out exactly when the view has changed, the additions have room, the assertion
      holds and every item to keep that is not an addition is in the list; without empty items, when the
      count is right and every kept item before the additions is in the list. */
  lemma UpdateDoneIff(v: View, b: seq<Item>, capacity: nat)
    requires Shape(v) && v.created <= v.total && DistinctIds(v.Prefix()) && Clean(b)
    ensures UpdateOutcome(v, b, capacity).Done? <==>
            && v.needUp && Room(v, |b|, capacity) && AssertionHolds(v)
            && AnchoredBefore(v.Prefix(), BeforeNull(v.Prefix()), v.created, b)
    ensures NoNulls(v.Prefix()) ==>
              (UpdateOutcome(v, b, capacity).Done? <==>
               v.needUp && Room(v, |b|, capacity) && Counted(v) && Anchored(v.Prefix(), v.created, b))
  {
    FindsIff(v.Prefix(), v.created, b);
    if NoNulls(v.Prefix()) {
      CountedAsserts(v);
    }
  }

  // ---------------------------------------------------------------- where the changes begin

  lemma {:induction false} LeastBelow(start: nat, s: seq<nat>)
    ensures Least(start, s) <= start && forall i :: 0 <= i < |s| ==> Least(start, s) <= s[i]
    ensures Least(start, s) == start || Least(start, s) in s
  {
    if s != [] {
      LeastBelow(start, s[..|s| - 1]);
    }
  }

  /** After sorting, the least number is the first. */
  lemma LeastSorted(start: nat, raw: seq<nat>, slots: seq<nat>)
    requires multiset(raw) == multiset(slots) && Ascending(slots)
    ensures Least(start, raw) == if slots == [] then start else Min(start, slots[0])
  {
    LeastBelow(start, raw);
    if slots == [] {
      assert |multiset(raw)| == 0;
    } else {
      assert slots[0] in multiset(raw);
      var i :| 0 <= i < |raw| && raw[i] == slots[0];
      if Least(start, raw) != start {
        assert Least(start, raw) in multiset(slots);
        var j :| 0 <= j < |slots| && slots[j] == Least(start, raw);
      }
    }
  }

  lemma RemoveBelow(b: seq<Item>, id: nat, k: nat)
    requires k < |b| && k < RemovedAt(b, id)
    ensures k < |Remove(b, id)| && Remove(b, id)[k] == b[k]
  {
  }

  lemma {:induction false} RemoveAllBelow(start: nat, b: seq<Item>, ids: seq<nat>, k: nat)
    requires k < |b| && k < LeastRemoved(start, b, ids)
    ensures k < |RemoveAll(b, ids)| && RemoveAll(b, ids)[k] == b[k]
    decreases |ids|
  {
    if ids != [] {
      var n := |ids| - 1;
      RemoveAllBelow(start, b, ids[..n], k);
      RemoveBelow(RemoveAll(b, ids[..n]), ids[n], k);
    }
  }

  lemma {:induction false} WriteAllElsewhere(c: seq<Item>, slots: seq<nat>, vals: seq<Item>, k: nat)
    requires |slots| == |vals| && k < |c| && k !in slots
    ensures WriteAll(c, slots, vals)[k] == c[k]
    decreases |slots|
  {
    if slots != [] {
      var n := |slots| - 1;
      assert k !in slots[..n] && slots[n] in slots;
      WriteAllElsewhere(c, slots[..n], vals[..n], k);
    }
  }

  /** Below the place that the update reports, the list is what it was, whatever the view holds: the packets
      below need not be written again. */
  lemma BelowUnchanged(m: seq<Item>, created: nat, b: seq<Item>, r: seq<Item>, k: nat)
    requires created <= |m| && Rewritten(m, created, b, r)
    requires k < |b| && k < ChangedFrom(m, created, b)
    ensures k < |r| && r[k] == b[k]
  {
    var c, kept, all := Prepared(m, created, b), Kept(m), b + m[created..];
    var slots: seq<nat> :| |slots| == |kept| && multiset(slots) == multiset(Slots(c, kept)) && Ascending(slots)
                           && r == WriteAll(c, slots, kept);
    LeastBelow(LeastRemoved(created, all, Ids(Gone(m))), Slots(c, kept));
    RemoveAllBelow(created, all, Ids(Gone(m)), k);
    SlotsAbove(LeastRemoved(created, all, Ids(Gone(m))), Slots(c, kept), slots, k);
    WriteAllElsewhere(c, slots, kept, k);
  }

  lemma SlotsAbove(start: nat, raw: seq<nat>, slots: seq<nat>, k: nat)
    requires multiset(raw) == multiset(slots) && k < Least(start, raw)
    ensures k !in slots
  {
    LeastBelow(start, raw);
    forall j | 0 <= j < |slots|
      ensures slots[j] > k
    {
      assert slots[j] in multiset(raw);
      var i :| 0 <= i < |raw| && raw[i] == slots[j];
    }
  }

  lemma {:induction false} LeastRemovedStart(start: nat, b: seq<Item>, ids: seq<nat>)
    ensures LeastRemoved(start, b, ids) <= start
    decreases |ids|
  {
    if ids != [] {
      LeastRemovedStart(start, b, ids[..|ids| - 1]);
    }
  }

  lemma ChangedFromStart(m: seq<Item>, created: nat, b: seq<Item>)
    requires created <= |m|
    ensures ChangedFrom(m, created, b) <= created
  {
    LeastRemovedStart(created, b + m[created..], Ids(Gone(m)));
    LeastBelow(LeastRemoved(created, b + m[created..], Ids(Gone(m))), Slots(Prepared(m, created, b), Kept(m)));
  }

  /** A removal reports the place of the item it removes. */
  lemma RemovedAtExact(b: seq<Item>, id: nat)
    requires |b| < 0x1_0000
    ensures if id in IdSet(b) then
              RemovedAt(b, id) < |b| && ItemId(b[RemovedAt(b, id)]) == id
              && forall k: nat :: k < RemovedAt(b, id) ==> ItemId(b[k]) != id
            else RemovedAt(b, id) == 0xFFFF
  {
    FirstHasId(b, id);
    if id in IdSet(b) {
      var k: nat :| k < |b| && ItemId(b[k]) == id;
    }
  }

  lemma FirstHasId(b: seq<Item>, id: nat)
    ensures First(b, id) < |b| ==> id in IdSet(b)
  {
    if First(b, id) < |b| {
      assert ItemId(b[First(b, id)]) in IdSet(b);
    }
  }

  lemma {:induction false} RemoveAllShrinks(b: seq<Item>, ids: seq<nat>)
    ensures |RemoveAll(b, ids)| <= |b|
    decreases |ids|
  {
    if ids != [] {
      RemoveAllShrinks(b, ids[..|ids| - 1]);
    }
  }

  /** The least place of the removals is the place, in the list before them, of an item they remove. */
  lemma {:induction false} LeastRemovedReal(start: nat, b: seq<Item>, ids: seq<nat>)
    requires start <= UNKNOWN
    ensures var k := LeastRemoved(start, b, ids); k == start || (k < |b| && ItemId(b[k]) in ids)
    decreases |ids|
  {
    if ids != [] {
      var n := |ids| - 1;
      var c := RemoveAll(b, ids[..n]);
      LeastRemovedReal(start, b, ids[..n]);
      LeastRemovedStart(start, b, ids[..n]);
      if RemovedAt(c, ids[n]) < LeastRemoved(start, b, ids[..n]) {
        RemoveAllShrinks(b, ids[..n]);
        RemoveAllBelow(start, b, ids[..n], First(c, ids[n]));
      }
    }
  }

  /** An item of the view below the reported place would have been removed or written there. */
  lemma NothingBelow(m: seq<Item>, created: nat, b: seq<Item>, k: nat)
    requires created <= |m| && Clean(b) && DistinctIds(m) && NoNulls(m) && InStep(m, created, b)
    requires k < |b| && k < ChangedFrom(m, created, b)
    ensures ItemId(b[k]) !in IdSet(m)
  {
    var all, c, x := b + m[created..], Merged(m, created, b), ItemId(b[k]);
    NoNullsParts(m);
    MergedIds(m, created, b);
    ActivesSound(m);
    LeastBelow(LeastRemoved(created, all, Ids(Gone(m))), Slots(c, Kept(m)));
    RemoveAllBelow(created, all, Ids(Gone(m)), k);
    assert c[k] == b[k] && ItemId(c[k]) in IdSet(c);
    if x in IdSet(Actives(m)) {
      SlotHere(c, Actives(m), k);
    }
  }

  lemma SlotHere(c: seq<Item>, kept: seq<Item>, k: nat)
    requires Clean(c) && k < |c| && ItemId(c[k]) in IdSet(kept)
    ensures k in Slots(c, kept)
  {
    var i: nat :| i < |kept| && ItemId(kept[i]) == ItemId(c[k]);
    FindUnique(c, k);
    assert Slots(c, kept)[i] == k;
  }

  lemma DeadIdsIn(m: seq<Item>)
    requires DistinctIds(m)
    ensures forall id :: id in Ids(Dead(m)) ==> id in IdSet(m)
  {
    ActivesSound(m);
    IdsOfSeq(Dead(m));
  }

  /** If a kept item was found at the reported place, the list had it there before. */
  lemma SlotInList(m: seq<Item>, created: nat, b: seq<Item>, start: nat, k: nat)
    requires created <= |m| && DistinctIds(m) && AllFound(m, created, b)
    requires k in Slots(Merged(m, created, b), Actives(m)) && k < |b|
    requires k < LeastRemoved(start, b + m[created..], Ids(Dead(m)))
    ensures ItemId(b[k]) in IdSet(m)
  {
    var c, kept, all := Merged(m, created, b), Actives(m), b + m[created..];
    var i: nat :| i < |kept| && Slots(c, kept)[i] == k;
    ActivesSound(m);
    RemoveAllBelow(start, all, Ids(Dead(m)), k);
    assert ItemId(kept[i]) in IdSet(kept);
    assert c[k] == all[k] == b[k] && ItemId(c[k]) == ItemId(kept[i]);
  }

  /** For a view in step with its list, the update reports the least place of the list that holds an item of
      the view, or the creation number if that is less. */
  lemma ChangedFromExact(m: seq<Item>, created: nat, b: seq<Item>)
    requires created <= |m| && created <= |b| < 0x1_0000
    requires Clean(b) && DistinctIds(m) && NoNulls(m) && InStep(m, created, b)
    ensures var from := ChangedFrom(m, created, b);
            && from <= created
            && (forall k: nat :: k < from ==> ItemId(b[k]) !in IdSet(m))
            && (from < created ==> ItemId(b[from]) in IdSet(m))
  {
    var from, all := ChangedFrom(m, created, b), b + m[created..];
    ChangedFromStart(m, created, b);
    forall k: nat | k < from
      ensures ItemId(b[k]) !in IdSet(m)
    {
      NothingBelow(m, created, b, k);
    }
    NoNullsParts(m);
    LeastBelow(LeastRemoved(created, all, Ids(Gone(m))), Slots(Merged(m, created, b), Actives(m)));
    if from < created {
      DeadIdsIn(m);
      if from == LeastRemoved(created, all, Ids(Gone(m))) {
        LeastRemovedReal(created, all, Ids(Gone(m)));
        assert all[from] == b[from];
      } else {
        AllFoundIff(m, created, b);
        SlotInList(m, created, b, created, from);
      }
    }
  }

  // ---------------------------------------------------------------- repeated writes

  /** The last i with slots[i] == k, or -1. */
  function LastAt(slots: seq<nat>, k: nat): (i: int)
    ensures -1 <= i < |slots|
    ensures i >= 0 ==> slots[i] == k
    ensures forall j :: i < j < |slots| ==> slots[j] != k
  {
    if slots == [] then -1
    else if slots[|slots| - 1] == k then |slots| - 1
    else LastAt(slots[..|slots| - 1], k)
  }

  /** One more write. */
  lemma {:induction false} WriteAllLast(c: seq<Item>, slots: seq<nat>, vals: seq<Item>, k: nat)
    requires |slots| == |vals| && slots != [] && k < |c|
    ensures var n := |slots| - 1;
            var t := WriteAll(c, slots[..n], vals[..n]);
            WriteAll(c, slots, vals)[k] == if slots[n] == k && IsActive(t[k]) then vals[n] else t[k]
  {
  }

  /** What stands at place k after the writes: the last value written there if the place held an active item,
      and what stood there otherwise. */
  lemma {:induction false} WriteAllAt(c: seq<Item>, slots: seq<nat>, vals: seq<Item>, k: nat)
    requires |slots| == |vals| && k < |c| && forall i :: 0 <= i < |vals| ==> IsActive(vals[i])
    ensures var i := LastAt(slots, k);
            WriteAll(c, slots, vals)[k] == if IsActive(c[k]) && i >= 0 then vals[i] else c[k]
    decreases |slots|
  {
    if slots != [] {
      var n := |slots| - 1;
      WriteAllAt(c, slots[..n], vals[..n], k);
      WriteAllLast(c, slots, vals, k);
    }
  }
}
