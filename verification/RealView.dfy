/** The real view in memory, and the update that writes a virtual view back to it. */
module RealView {
  import opened ViewItems
  import opened ViewModel
  import opened VirtualView
  import opened SyncModel
  import opened FlashPackets
  import ShellSort

  lemma FindStep(b: seq<Item>, id: nat, k: nat)
    requires k < |b| && k <= Find(b, id)
    ensures IsActive(b[k]) && ItemId(b[k]) == id ==> Find(b, id) == k
    ensures !(IsActive(b[k]) && ItemId(b[k]) == id) ==> k + 1 <= Find(b, id)
  {
  }

  lemma FirstStep(b: seq<Item>, id: nat, k: nat)
    requires k < |b| && k <= First(b, id)
    ensures if ItemId(b[k]) == id then First(b, id) == k else k + 1 <= First(b, id)
  {
  }

  lemma CopiedRemoves(t: seq<Item>, k: nat, n: nat)
    requires k < n <= |t|
    ensures Copied(t, k, k + 1, n - k - 1)[..n - 1] == t[..n][..k] + t[..n][k + 1..]
  {
  }

  /** The memory t, of which n places are in use, after the item at k has been dropped. */
  lemma RemovedFrom(t: seq<Item>, r: seq<Item>, n: nat, k: nat, id: nat)
    requires k < n <= |t| && r == Copied(t, k, k + 1, n - k - 1)[n - 1 := NULL_ITEM] && First(t[..n], id) == k
    ensures r[..n - 1] == Remove(t[..n], id)
    ensures r == r[..n - 1] + [NULL_ITEM] + t[n..]
  {
    CopiedRemoves(t, k, n);
    var c := Copied(t, k, k + 1, n - k - 1);
    assert r[..n - 1] == c[..n - 1];
    assert r[n..] == c[n..] == t[n..];
  }

  class RealView {
    /** `p_mem_backup` and `item_count`. */
    var mem: array<Item>
    var count: nat

    ghost predicate Valid()
      reads this
    {
      count <= mem.Length < 0x1_0000
    }

    ghost function Contents(): (s: seq<Item>)
      reads this, mem
      requires Valid()
    {
      mem[..count]
    }

    constructor (capacity: nat)
      requires capacity < 0x1_0000
      ensures Valid() && fresh(mem) && mem.Length == capacity && Contents() == []
    {
      mem := new Item[capacity](_ => NULL_ITEM);
      count := 0;
    }

    /** `db_add_remove_item` when adding.  The code does not look whether there is room; not ok stands for
        its write behind the end of the memory. */
    method Append(x: Item) returns (ok: bool)
      requires Valid()
      modifies this, mem
      ensures Valid() && mem == old(mem) && ok == (old(count) < mem.Length)
      ensures Contents() == if ok then old(Contents()) + [x] else old(Contents())
      ensures mem[..] == if ok then old(mem[..])[old(count) := x] else old(mem[..])
    {
      ok := count < mem.Length;
      if ok {
        mem[count] := x;
        count := count + 1;
      }
    }

    /** `db_find_item_index`. */
    method FindIndex(id: nat) returns (k: nat)
      requires Valid()
      ensures k == if Find(Contents(), id) < count then Find(Contents(), id) else UNKNOWN
    {
      k := 0;
      while k < count
        invariant k <= count && k <= Find(Contents(), id)
      {
        FindStep(Contents(), id, k);
        if IsActive(mem[k]) && ItemId(mem[k]) == id {
          return;
        }
        k := k + 1;
      }
      k := UNKNOWN;
    }

    /** The search of `db_add_remove_item`: the first item with the id, active or not. */
    method FirstIndex(id: nat) returns (k: nat)
      requires Valid()
      ensures k == First(Contents(), id)
    {
      k := 0;
      while k < count
        invariant k <= count && k <= First(Contents(), id)
      {
        FirstStep(Contents(), id, k);
        if ItemId(mem[k]) == id {
          return;
        }
        k := k + 1;
      }
    }

    /** `db_add_remove_item` when removing: the items behind the removed one move down by one. */
    method RemoveItem(id: nat) returns (k: nat)
      requires Valid()
      modifies this, mem
      ensures Valid() && mem == old(mem) && Contents() == Remove(old(Contents()), id)
      ensures k == RemovedAt(old(Contents()), id)
      ensures mem[..] == if k < old(count) then Contents() + [NULL_ITEM] + old(mem[count..]) else old(mem[..])
    {
      k := FirstIndex(id);
      if k == count {
        k := UNKNOWN;
        return;
      }
      ghost var t, n := mem[..], count;
      DropItem(k);
      RemovedFrom(t, mem[..], n, k, id);
      assert mem[..count] == mem[..][..count] && t[..n] == old(Contents()) && t[n..] == old(mem[count..]);
    }

    /** The items behind place k move down by one, and the last place becomes empty. */
    method DropItem(k: nat)
      requires Valid() && k < count
      modifies this, mem
      ensures Valid() && mem == old(mem) && count == old(count) - 1
      ensures mem[..] == Copied(old(mem[..]), k, k + 1, old(count) - k - 1)[old(count) - 1 := NULL_ITEM]
    {
      CopyDown(mem, k, k + 1, count - k - 1);
      ghost var t := mem[..];
      mem[count - 1] := NULL_ITEM;
      assert mem[..] == t[count - 1 := NULL_ITEM];
      count := count - 1;
    }

    /** `db_set_item_index`.  The code uses the index unchecked; not ok stands for its access outside the
        memory. */
    method SetAt(x: Item, k: nat) returns (ok: bool)
      requires Valid()
      modifies mem
      ensures ok == (k < mem.Length)
      ensures mem[..] == if ok && IsActive(old(mem[..])[k]) then old(mem[..])[k := x] else old(mem[..])
    {
      ok := k < mem.Length;
      if ok && IsActive(mem[k]) {
        mem[k] := x;
      }
    }
  }

  /** `db_sync_new_item_to_dmup_buf`: the items from created on are appended, while there is room. */
  method AppendNew(m: array<Item>, created: nat, total: nat, rv: RealView) returns (ok: bool)
    requires created <= total <= m.Length && rv.Valid() && m != rv.mem
    modifies rv, rv.mem
    ensures rv.Valid() && rv.mem == old(rv.mem)
    ensures ok <==> old(rv.count) + (total - created) <= rv.mem.Length
    ensures ok ==> rv.Contents() == old(rv.Contents()) + m[created..total]
  {
    var i := created;
    ok := true;
    while i < total && ok
      invariant created <= i <= total && rv.Valid() && rv.mem == old(rv.mem)
      invariant ok ==> rv.Contents() == old(rv.Contents()) + m[created..i]
      invariant !ok ==> old(rv.count) + (total - created) > rv.mem.Length
      decreases total - i, ok
    {
      ok := rv.Append(m[i]);
      if ok {
        i := i + 1;
        assert m[created..i] == m[created..i - 1] + [m[i - 1]];
      }
    }
  }

  /** What `db_find_item_index` returns. */
  function Index(b: seq<Item>, id: nat): (k: nat) {
    if Find(b, id) < |b| then Find(b, id) else UNKNOWN
  }

  function Indices(b: seq<Item>, kept: seq<Item>): (s: seq<nat>)
    ensures |s| == |kept|
  {
    seq(|kept|, i requires 0 <= i < |kept| => Index(b, ItemId(kept[i])))
  }

  ghost predicate AllOn(s: seq<Item>) {
    forall i :: 0 <= i < |s| ==> IsActive(s[i])
  }

  /** The indices of the kept items, in the order of the view. */
  method FindSlots(kept: array<Item>, n: nat, rv: RealView) returns (buf: array<nat>)
    requires n <= kept.Length && rv.Valid() && kept != rv.mem && AllOn(kept[..n])
    ensures fresh(buf) && buf[..] == Indices(rv.Contents(), kept[..n])
  {
    buf := new nat[n];
    var i := 0;
    while i < n
      invariant i <= n
      invariant forall j :: 0 <= j < i ==> buf[j] == Index(rv.Contents(), ItemId(kept[..n][j]))
    {
      assert kept[..n][i] == kept[i];
      if IsActive(kept[i]) {
        buf[i] := rv.FindIndex(ItemId(kept[i]));
      }
      i := i + 1;
    }
  }

  lemma WriteAllSnoc(c: seq<Item>, slots: seq<nat>, vals: seq<Item>, i: nat)
    requires |slots| == |vals| && i < |slots|
    ensures var t := WriteAll(c, slots[..i], vals[..i]);
            WriteAll(c, slots[..i + 1], vals[..i + 1]) ==
            if slots[i] < |t| && IsActive(t[slots[i]]) then t[slots[i] := vals[i]] else t
  {
    assert slots[..i + 1][..i] == slots[..i] && vals[..i + 1][..i] == vals[..i];
  }

  /** One write of the loop, on the part of the memory that is in use. */
  method WriteSlot(x: Item, k: nat, rv: RealView) returns (ok: bool)
    requires rv.Valid()
    modifies rv.mem
    ensures rv.Valid() && ok == (k < rv.mem.Length)
    ensures rv.Contents() == if k < rv.count && IsActive(old(rv.Contents())[k]) then old(rv.Contents())[k := x]
                             else old(rv.Contents())
  {
    ghost var before := rv.mem[..];
    ok := rv.SetAt(x, k);
    assert rv.Contents() == rv.mem[..][..rv.count];
    assert before[..rv.count] == old(rv.Contents());
  }

  /** The kept items are written at the sorted indices, up to the first one outside the memory. */
  method WriteSlots(kept: array<Item>, n: nat, slots: array<nat>, rv: RealView) returns (ok: bool)
    requires n == slots.Length <= kept.Length && rv.Valid() && kept != rv.mem && AllOn(kept[..n])
    modifies rv.mem
    ensures rv.Valid()
    ensures ok <==> forall i :: 0 <= i < n ==> slots[i] < rv.mem.Length
    ensures ok ==> rv.Contents() == WriteAll(old(rv.Contents()), slots[..], kept[..n])
  {
    ghost var c, s, vals := rv.Contents(), slots[..], kept[..n];
    var i := 0;
    ok := true;
    while i < n && ok
      invariant i <= n && s == slots[..] && vals == kept[..n]
      invariant ok ==> forall j :: 0 <= j < i ==> slots[j] < rv.mem.Length
      invariant !ok ==> exists j :: 0 <= j < n && slots[j] >= rv.mem.Length
      invariant ok ==> rv.Contents() == WriteAll(c, s[..i], vals[..i])
      decreases n - i, ok
    {
      WriteAllSnoc(c, s, vals, i);
      assert vals[i] == kept[i] && s[i] == slots[i];
      if IsActive(kept[i]) {
        ok := WriteSlot(kept[i], slots[i], rv);
      }
      if ok {
        i := i + 1;
      }
    }
    assert s[..n] == s && vals[..n] == vals;
  }

  lemma RemoveAllSnoc(b: seq<Item>, ids: seq<nat>, id: nat)
    ensures RemoveAll(b, ids + [id]) == Remove(RemoveAll(b, ids), id)
  {
    assert (ids + [id])[..|ids|] == ids;
  }

  lemma LeastRemovedSnoc(start: nat, b: seq<Item>, ids: seq<nat>, id: nat)
    ensures LeastRemoved(start, b, ids + [id]) == Min(LeastRemoved(start, b, ids), RemovedAt(RemoveAll(b, ids), id))
  {
    assert (ids + [id])[..|ids|] == ids;
  }

  // ---------------------------------------------------------------- the deletions

  /** The deleted items of s, in order. */
  function Idle(s: seq<Item>): (r: seq<Item>) {
    if s == [] then [] else Idle(s[..|s| - 1]) + (if IsActive(s[|s| - 1]) then [] else [s[|s| - 1]])
  }

  /** s with the deleted ones of its first n items emptied. */
  function Blanked(s: seq<Item>, n: nat): (r: seq<Item>)
    ensures |r| == |s|
  {
    seq(|s|, k requires 0 <= k < |s| => if k < n && !IsActive(s[k]) then NULL_ITEM else s[k])
  }

  /** The deletions have reached place i: t is what is left of the view s, c of the list b, and from is the
      least place that has changed. */
  ghost predicate Removing(t: seq<Item>, s: seq<Item>, i: nat, deleted: seq<nat>, c: seq<Item>, b: seq<Item>,
                           start: nat, from: nat) {
    && i <= |s| && t == Blanked(s, i) && deleted == Ids(Idle(s[..i]))
    && c == RemoveAll(b, deleted) && from == LeastRemoved(start, b, deleted)
  }

  lemma IdsSnoc(s: seq<Item>, x: Item)
    ensures Ids(s + [x]) == Ids(s) + [ItemId(x)]
  {
  }

  lemma IdleNext(s: seq<Item>, i: nat)
    requires i < |s|
    ensures Ids(Idle(s[..i + 1])) == if IsActive(s[i]) then Ids(Idle(s[..i])) else Ids(Idle(s[..i])) + [ItemId(s[i])]
  {
    assert s[..i + 1][..i] == s[..i];
    IdsSnoc(Idle(s[..i]), s[i]);
  }

  lemma BlankedNext(s: seq<Item>, i: nat)
    requires i < |s|
    ensures Blanked(s, i)[i] == s[i]
    ensures Blanked(s, i + 1) == if IsActive(s[i]) then Blanked(s, i) else Blanked(s, i)[i := NULL_ITEM]
  {
  }

  lemma RemovingKeep(t: seq<Item>, s: seq<Item>, i: nat, deleted: seq<nat>, c: seq<Item>, b: seq<Item>,
                     start: nat, from: nat)
    requires Removing(t, s, i, deleted, c, b, start, from) && i < |s| && IsActive(s[i])
    ensures Removing(t, s, i + 1, deleted, c, b, start, from)
  {
    IdleNext(s, i);
    BlankedNext(s, i);
  }

  lemma RemovingDrop(t: seq<Item>, s: seq<Item>, i: nat, deleted: seq<nat>, c: seq<Item>, b: seq<Item>,
                     start: nat, from: nat)
    requires Removing(t, s, i, deleted, c, b, start, from) && i < |s| && !IsActive(s[i])
    ensures var id := ItemId(s[i]);
            Removing(t[i := NULL_ITEM], s, i + 1, deleted + [id], Remove(c, id), b, start, Min(from, RemovedAt(c, id)))
  {
    IdleNext(s, i);
    BlankedNext(s, i);
    RemoveAllSnoc(b, deleted, ItemId(s[i]));
    LeastRemovedSnoc(start, b, deleted, ItemId(s[i]));
  }

  /** One deletion: the item at i leaves the view and, by its id, the real view. */
  method DropAt(a: array<Item>, i: nat, rv: RealView) returns (id: nat, k: nat)
    requires rv.Valid() && a != rv.mem && i < a.Length
    modifies a, rv, rv.mem
    ensures rv.Valid() && rv.mem == old(rv.mem) && id == ItemId(old(a[i]))
    ensures a[..] == old(a[..])[i := NULL_ITEM] && rv.Contents() == Remove(old(rv.Contents()), id)
    ensures k == RemovedAt(old(rv.Contents()), id)
  {
    id := ItemId(a[i]);
    k := rv.RemoveItem(id);
    a[i] := NULL_ITEM;
  }

  /** One round of the loop of the deletions. */
  method RemoveNext(a: array<Item>, i: nat, rv: RealView, deleted: seq<nat>, from: nat,
                    ghost s: seq<Item>, ghost b: seq<Item>, ghost start: nat)
    returns (deleted': seq<nat>, from': nat)
    requires rv.Valid() && a != rv.mem && i < a.Length
    requires Removing(a[..], s, i, deleted, rv.Contents(), b, start, from)
    modifies a, rv, rv.mem
    ensures rv.Valid() && rv.mem == old(rv.mem)
    ensures Removing(a[..], s, i + 1, deleted', rv.Contents(), b, start, from')
  {
    BlankedNext(s, i);
    deleted', from' := deleted, from;
    if IsActive(a[i]) {
      RemovingKeep(a[..], s, i, deleted, rv.Contents(), b, start, from);
    } else {
      RemovingDrop(a[..], s, i, deleted, rv.Contents(), b, start, from);
      var id, k := DropAt(a, i, rv);
      if k < from {
        from' := k;
      }
      deleted' := deleted + [id];
    }
  }

  /** The deletions of an update: the deleted items before the first empty one leave the view and the real
      view, and their elements the store; from follows the least place of the list that changes. */
  method RemoveDead(a: array<Item>, total: nat, rv: RealView, start: nat) returns (deleted: seq<nat>, from: nat)
    requires rv.Valid() && a != rv.mem && total <= a.Length
    modifies a, rv, rv.mem
    ensures rv.Valid() && rv.mem == old(rv.mem)
    ensures var n := BeforeNull(old(a[..total]));
            && a[..] == Blanked(old(a[..]), n)
            && deleted == Ids(Idle(old(a[..n])))
            && rv.Contents() == RemoveAll(old(rv.Contents()), deleted)
            && from == LeastRemoved(start, old(rv.Contents()), deleted)
  {
    ghost var s, b := a[..], rv.Contents();
    ghost var n := BeforeNull(s[..total]);
    deleted, from := [], start;
    var i := 0;
    assert a[..total] == s[..total] && Blanked(s, 0) == s;
    while i < total && a[i] != NULL_ITEM
      invariant i <= n && rv.Valid() && rv.mem == old(rv.mem) && a.Length == |s|
      invariant Removing(a[..], s, i, deleted, rv.Contents(), b, start, from)
    {
      BlankedNext(s, i);
      assert s[i] == s[..total][i] != NULL_ITEM;
      deleted, from := RemoveNext(a, i, rv, deleted, from, s, b, start);
      i := i + 1;
    }
    if i < total {
      BlankedNext(s, i);
      assert s[..total][i] == NULL_ITEM;
    }
    assert i == n && s[..n] == old(a[..n]);
  }

  // ---------------------------------------------------------------- what the cleanup leaves to the deletions

  lemma {:induction false} IdleNone(s: seq<Item>)
    requires AllOn(s)
    ensures Idle(s) == []
  {
    if s != [] {
      IdleNone(s[..|s| - 1]);
    }
  }

  lemma {:induction false} IdleAll(a: seq<Item>, d: seq<Item>)
    requires AllOn(a) && forall i :: 0 <= i < |d| ==> !IsActive(d[i])
    ensures Idle(a + d) == d
    decreases |d|
  {
    if d == [] {
      assert a + d == a;
      IdleNone(a);
    } else {
      var n := |d| - 1;
      assert (a + d)[..|a + d| - 1] == a + d[..n];
      IdleAll(a, d[..n]);
    }
  }

  lemma {:induction false} SplitActive(m: seq<Item>)
    ensures AllOn(Actives(m))
    ensures forall k :: 0 <= k < |Dead(m)| ==> !IsActive(Dead(m)[k])
  {
    if m != [] {
      SplitActive(m[..|m| - 1]);
    }
  }

  lemma {:induction false} ActivesNoNulls(s: seq<Item>)
    requires NoNulls(s)
    ensures NoNulls(Actives(s))
  {
    if s != [] {
      ActivesNoNulls(s[..|s| - 1]);
    }
  }

  /** A swept view that an empty item cuts short: nothing to delete before that item. */
  lemma {:induction false} SweptCut(a: seq<Item>, rest: seq<Item>)
    requires AllOn(a) && NoNulls(a) && rest != [] && rest[0] == NULL_ITEM
    ensures var s := a + rest; Idle(s[..BeforeNull(s)]) == [] && s[..|a|] == a
  {
    var s := a + rest;
    assert s[|a|] == NULL_ITEM;
    assert forall k :: 0 <= k < |a| ==> s[k] == a[k];
    assert BeforeNull(s) == |a| && s[..|a|] == a;
    IdleNone(a);
  }

  /** A swept view without empty items: the deleted items are behind the others. */
  lemma {:induction false} SweptWhole(a: seq<Item>, d: seq<Item>)
    requires AllOn(a) && NoNulls(a + d) && forall i :: 0 <= i < |d| ==> !IsActive(d[i])
    ensures var s := a + d; Idle(s[..BeforeNull(s)]) == d && s[..|a|] == a
  {
    var s := a + d;
    NoNullsIff(s);
    assert s[..|s|] == s;
    IdleAll(a, d);
  }

  /** The deletions that follow a cleanup are those of the deleted items, unless there is an empty item. */
  lemma {:induction false} SweptGone(m: seq<Item>, s: seq<Item>)
    requires s == Swept(m, BeforeNull(m))
    ensures Idle(s[..BeforeNull(s)]) == Gone(m) && |Kept(m)| <= |s| && s[..|Kept(m)|] == Kept(m)
  {
    if BeforeNull(m) == |m| {
      SweptLong(m, s);
    } else {
      SweptShort(m, s, BeforeNull(m));
    }
  }

  lemma {:induction false} SweptSplit(m: seq<Item>)
    ensures Swept(m, |m|) == Actives(m) + Dead(m)
  {
    assert m[..|m|] == m && m[|m|..] == [];
  }

  lemma {:induction false} SweptLong(m: seq<Item>, s: seq<Item>)
    requires BeforeNull(m) == |m| && s == Swept(m, |m|)
    ensures Idle(s[..BeforeNull(s)]) == Gone(m) && |Kept(m)| <= |s| && s[..|Kept(m)|] == Kept(m)
  {
    NoNullsIff(m);
    NoNullsParts(m);
    SweptKeeps(m, |m|);
    ReorderedNulls(m, s);
    SweptSplit(m);
    SplitActive(m);
    SweptWhole(Actives(m), Dead(m));
  }

  lemma {:induction false} SweptShort(m: seq<Item>, s: seq<Item>, n: nat)
    requires n == BeforeNull(m) < |m| && s == Swept(m, n)
    ensures Idle(s[..BeforeNull(s)]) == [] && |Kept(m)| <= |s| && s[..|Kept(m)|] == Kept(m)
  {
    var front, rest := Actives(m[..n]), m[n..] + Dead(m[..n]);
    SplitActive(m[..n]);
    ActivesNoNulls(m[..n]);
    assert s == front + rest;
    SweptCut(front, rest);
  }

  lemma {:induction false} KeptOn(m: seq<Item>)
    ensures AllOn(Kept(m)) && |Kept(m)| <= |m|
  {
    SplitActive(m[..BeforeNull(m)]);
  }

  /** If the cleanup keeps everything, there is nothing to delete. */
  lemma {:induction false} AllKept(m: seq<Item>)
    requires |Kept(m)| == |m|
    ensures Gone(m) == []
  {
    var n := BeforeNull(m);
    assert |Actives(m[..n])| <= n;
    assert m[..n] == m;
    assert |Dead(m)| + |Actives(m)| == |m|;
  }

  lemma BlankedFront(s: seq<Item>, t: seq<Item>, i: nat)
    requires |s| <= |t| && t[..|s|] == s && i <= |s|
    ensures Blanked(t, i) == Blanked(s, i) + t[|s|..]
  {
  }

  lemma {:induction false} NothingLeft(m: seq<Item>)
    requires |Kept(m)| == |m|
    ensures Remainder(m) == []
  {
    KeptLength(m);
  }

  /** After the deletions the places of the deleted items are empty; an empty item in the view stops them. */
  lemma {:induction false} BlankedSwept(m: seq<Item>, s: seq<Item>)
    requires s == Swept(m, BeforeNull(m))
    ensures Blanked(s, BeforeNull(s)) == Kept(m) + Remainder(m)
  {
    var n := BeforeNull(m);
    if n == |m| {
      SweptAllOn(m, s);
    } else {
      SplitActive(m[..n]);
      ActivesNoNulls(m[..n]);
      NullFirst(Kept(m), Remainder(m));
      assert s == Kept(m) + Remainder(m);
    }
  }

  lemma {:induction false} NullFirst(a: seq<Item>, rest: seq<Item>)
    requires AllOn(a) && NoNulls(a) && rest != [] && rest[0] == NULL_ITEM
    ensures Blanked(a + rest, BeforeNull(a + rest)) == a + rest
  {
    var s := a + rest;
    assert s[|a|] == NULL_ITEM;
    assert forall k :: 0 <= k < |a| ==> s[k] == a[k];
    assert BeforeNull(s) == |a|;
  }

  lemma {:induction false} SweptAllOn(m: seq<Item>, s: seq<Item>)
    requires BeforeNull(m) == |m| && s == Swept(m, |m|)
    ensures Blanked(s, BeforeNull(s)) == Kept(m) + Remainder(m)
  {
    NoNullsIff(m);
    NoNullsParts(m);
    SweptKeeps(m, |m|);
    ReorderedNulls(m, s);
    NoNullsIff(s);
    SweptSplit(m);
    SplitActive(m);
    BlankedParts(Actives(m), Dead(m));
  }

  lemma BlankedParts(a: seq<Item>, d: seq<Item>)
    requires AllOn(a) && forall i :: 0 <= i < |d| ==> !IsActive(d[i])
    ensures Blanked(a + d, |a + d|) == a + seq(|d|, _ => NULL_ITEM)
  {
    var s := a + d;
    forall k | 0 <= k < |s|
      ensures Blanked(s, |s|)[k] == if k < |a| then a[k] else NULL_ITEM
    {
    }
  }

  lemma {:induction false} NothingDeleted(m: seq<Item>, s: seq<Item>, t: seq<Item>)
    requires |Kept(m)| == |m| && s == Swept(m, BeforeNull(m)) && |s| <= |t| && t[..|s|] == s
    ensures t == Kept(m) + Remainder(m) + t[|s|..] && Ids(Gone(m)) == []
  {
    SweptGone(m, s);
    AllKept(m);
    NothingLeft(m);
    assert t == s + t[|s|..];
  }

  lemma {:induction false} AfterDeletions(m: seq<Item>, s: seq<Item>, t: seq<Item>, i: nat)
    requires s == Swept(m, BeforeNull(m)) && |s| <= |t| && t[..|s|] == s && i == BeforeNull(s)
    ensures Blanked(t, i) == Kept(m) + Remainder(m) + t[|s|..] && Idle(t[..i]) == Gone(m)
  {
    SweptGone(m, s);
    BlankedSwept(m, s);
    BlankedFront(s, t, i);
    assert t[..i] == s[..i];
  }

  /** The deletions, if there are any; from is the least place of the list that changes. */
  method Delete(vv: VirtualView, n: nat, rv: RealView, ghost m: seq<Item>) returns (deleted: seq<nat>, from: nat)
    requires vv.Valid() && rv.Valid() && vv.mem != rv.mem && n == |Kept(m)| && |m| == vv.total
    requires vv.mem[..vv.total] == Swept(m, BeforeNull(m))
    modifies vv.mem, rv, rv.mem
    ensures vv.Valid() && rv.Valid() && vv.mem == old(vv.mem) && rv.mem == old(rv.mem)
    ensures vv.mem[..] == Kept(m) + Remainder(m) + old(vv.mem[vv.total..]) && deleted == Ids(Gone(m))
    ensures rv.Contents() == RemoveAll(old(rv.Contents()), deleted)
    ensures from == LeastRemoved(vv.created, old(rv.Contents()), deleted)
  {
    ghost var s, t := vv.mem[..vv.total], vv.mem[..];
    assert t[..vv.total] == s && t[vv.total..] == vv.mem[vv.total..];
    deleted, from := [], vv.created;
    if n == vv.total {
      NothingDeleted(m, s, t);
    } else {
      AfterDeletions(m, s, t, BeforeNull(s));
      deleted, from := RemoveDead(vv.mem, vv.total, rv, vv.created);
    }
  }

  // ---------------------------------------------------------------- the writing

  lemma FoundIndices(c: seq<Item>, kept: seq<Item>)
    requires FoundIn(c, kept)
    ensures Indices(c, kept) == Slots(c, kept)
  {
  }

  /** The sorted indices are inside the list if every kept item was found, and otherwise contain 0xFFFF. */
  lemma SortedIndices(c: seq<Item>, kept: seq<Item>, slots: seq<nat>)
    requires multiset(slots) == multiset(Indices(c, kept))
    ensures FoundIn(c, kept) ==> forall j :: 0 <= j < |slots| ==> slots[j] < |c|
    ensures !FoundIn(c, kept) ==> exists j :: 0 <= j < |slots| && slots[j] == UNKNOWN
  {
    if FoundIn(c, kept) {
      forall j | 0 <= j < |slots|
        ensures slots[j] < |c|
      {
        assert slots[j] in multiset(Indices(c, kept));
        var i :| 0 <= i < |kept| && Indices(c, kept)[i] == slots[j];
      }
    } else {
      var i: nat :| i < |kept| && Find(c, ItemId(kept[i])) >= |c|;
      assert Indices(c, kept)[i] == UNKNOWN;
      assert UNKNOWN in multiset(slots);
    }
  }

  lemma SortedSlots(c: seq<Item>, kept: seq<Item>, slots: seq<nat>, r: seq<Item>, from: nat)
    requires FoundIn(c, kept) && |slots| == |kept| && Ascending(slots) && r == WriteAll(c, slots, kept)
    requires multiset(slots) == multiset(Indices(c, kept))
    ensures WrittenTo(c, kept, r)
    ensures Least(from, Slots(c, kept)) == if slots == [] then from else Min(from, slots[0])
  {
    FoundIndices(c, kept);
    LeastSorted(from, Slots(c, kept), slots);
  }

  /** The kept items go to the sorted indices: the last part of the update. */
  method WriteBack(kept: array<Item>, n: nat, rv: RealView, from: nat) returns (ok: bool, from': nat)
    requires n <= kept.Length && rv.Valid() && kept != rv.mem && AllOn(kept[..n])
    modifies rv.mem
    ensures rv.Valid() && (ok <==> FoundIn(old(rv.Contents()), kept[..n]))
    ensures ok ==> WrittenTo(old(rv.Contents()), kept[..n], rv.Contents())
    ensures ok ==> from' == Least(from, Slots(old(rv.Contents()), kept[..n]))
  {
    ghost var c, k := rv.Contents(), kept[..n];
    var buf := FindSlots(kept, n, rv);
    ShellSort.Sort(buf);
    ghost var slots := buf[..];
    SortedIndices(c, k, slots);
    from' := if n > 0 && buf[0] < from then buf[0] else from;
    ok := WriteSlots(kept, n, buf, rv);
    if ok {
      SortedSlots(c, k, slots, rv.Contents(), from);
    }
  }

  // ---------------------------------------------------------------- the update

  lemma FrontOf(a: seq<Item>, b: seq<Item>, c: seq<Item>)
    ensures (a + b + c)[..|a|] == a
  {
  }

  /** The update of a changed view, in memory. */
  method WriteView(vv: VirtualView, rv: RealView) returns (out: Outcome)
    requires vv.Valid() && vv.needUp && vv.created <= vv.total && rv.Valid() && vv.mem != rv.mem
    modifies vv, vv.mem, rv, rv.mem
    ensures vv.Valid() && rv.Valid() && vv.mem == old(vv.mem) && rv.mem == old(rv.mem)
    ensures out == UpdateOutcome(old(vv.State()), old(rv.Contents()), rv.mem.Length)
    ensures out.Done? ==> Settled(old(vv.State()), vv.State())
    ensures out.Done? ==> Rewritten(old(vv.State().Prefix()), old(vv.created), old(rv.Contents()), rv.Contents())
  {
    ghost var v, b := vv.State(), rv.Contents();
    ghost var m := v.Prefix();
    var ok := AppendNew(vv.mem, vv.created, vv.total, rv);
    if !ok {
      return NoRoom;
    }
    assert vv.mem[vv.created..vv.total] == m[v.created..];
    var n := vv.Cleanup();
    if n != vv.activeNum {
      return Miscounted;
    }
    assert vv.mem[..vv.total] == vv.State().items[..v.total];
    var deleted, from := Delete(vv, n, rv, m);
    KeptOn(m);
    FrontOf(Kept(m), Remainder(m), v.items[v.total..]);
    assert vv.mem[..n] == vv.mem[..][..n];
    ok, from := WriteBack(vv.mem, n, rv, from);
    if !ok {
      return NotFound;
    }
    vv.Settle(n);
    out := Done(deleted, from);
  }

  /** `db_update_view` while the real view is held in memory, with the flash packets written at its end. */
  method UpdateView(vv: VirtualView, rv: RealView, fl: Flash) returns (out: Outcome)
    requires vv.Valid() && vv.created <= vv.total && rv.Valid() && vv.mem != rv.mem
    modifies vv, vv.mem, rv, rv.mem, fl
    ensures vv.Valid() && rv.Valid() && vv.mem == old(vv.mem) && rv.mem == old(rv.mem)
    ensures out == UpdateOutcome(old(vv.State()), old(rv.Contents()), rv.mem.Length)
    ensures out.Unneeded? ==> vv.State() == old(vv.State()) && rv.Contents() == old(rv.Contents())
    ensures out.Done? ==> Settled(old(vv.State()), vv.State())
    ensures out.Done? ==> Rewritten(old(vv.State().Prefix()), old(vv.created), old(rv.Contents()), rv.Contents())
    ensures fl.State() == if out.Done? then After(old(fl.State()), rv.Contents(), out.from) else old(fl.State())
  {
    if vv.needUp {
      out := WriteView(vv, rv);
      if out.Done? {
        fl.Dump(rv.mem, rv.count, out.from);
      }
    } else {
      out := Unneeded;
    }
  }
}
