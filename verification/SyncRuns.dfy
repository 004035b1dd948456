/** From the creation of a virtual view, over any run of edits, to the update of the real view. */
module SyncRuns {
  import opened ViewItems
  import opened ViewModel
  import opened VirtualView
  import opened SyncModel
  import opened FlashPackets
  import ViewLaws

  /** The view is in step with the list b: old items at its first places, additions behind, all different. */
  ghost predicate InStepView(v: View, b: seq<Item>) {
    && v.created <= v.total <= |v.items| && DistinctIds(v.Prefix())
    && (forall k: nat :: k < v.created ==> ItemId(v.items[k]) in IdSet(b))
    && (forall k: nat :: v.created <= k < v.total ==> ItemId(v.items[k]) !in IdSet(b))
  }

  /** Which calls respect the boundary between old items and additions. */
  ghost predicate Orderly(v: View, op: ViewOp, b: seq<Item>)
    requires Shape(v)
  {
    match op
    case Add(stored) =>
      IsFull(v) || !stored.Stored? || (ItemId(stored.id) !in IdSet(b) && ItemId(stored.id) !in IdSet(v.Prefix()))
    case Exchange(l, r) => v.total <= l || v.total <= r || (l < v.created <==> r < v.created)
    case Move(from, to) => v.total <= from || v.total <= to || (from < v.created <==> to < v.created)
    case _ => true
  }

  // ---------------------------------------------------------------- distinct ids under each edit

  lemma {:induction false} DistinctIsNoRepeats(s: seq<Item>)
    ensures DistinctIds(s) ==> forall x :: multiset(Ids(s))[x] <= 1
  {
    if DistinctIds(s) {
      forall i, j | 0 <= i < j < |Ids(s)|
        ensures Ids(s)[i] != Ids(s)[j]
      {
        assert ItemId(s[i]) != ItemId(s[j]);
      }
      NoRepeats(Ids(s));
    }
  }

  /** Whether ids are distinct depends on their multiset only. */
  lemma DistinctByIds(s: seq<Item>, t: seq<Item>)
    requires DistinctIds(s) && multiset(Ids(s)) == multiset(Ids(t))
    ensures DistinctIds(t)
  {
    DistinctIsNoRepeats(s);
    forall i, j | 0 <= i < j < |t|
      ensures ItemId(t[i]) != ItemId(t[j])
    {
      OnceOnly(Ids(t), i, j);
    }
  }

  lemma StepDistinct(v: View, op: ViewOp)
    requires Shape(v) && DistinctIds(v.Prefix()) && Added(v, op) == multiset{}
    ensures DistinctIds(Step(v, op).Prefix())
  {
    StepIds(v, op);
    assert multiset(Ids(v.Prefix())) + multiset{} == multiset(Ids(v.Prefix()));
    DistinctByIds(v.Prefix(), Step(v, op).Prefix());
  }

  // ---------------------------------------------------------------- the boundary under each edit

  /** An edit of items in place keeps the boundary when it keeps their ids. */
  lemma InPlace(v: View, r: View, b: seq<Item>)
    requires InStepView(v, b) && r.created == v.created && r.total == v.total <= |r.items| && DistinctIds(r.Prefix())
    requires forall k: nat :: k < v.total ==> ItemId(r.items[k]) == ItemId(v.items[k])
    ensures InStepView(r, b)
  {
  }

  /** A rearrangement keeps the boundary when every item stays on its side. */
  lemma Rearranged(v: View, r: View, b: seq<Item>, from: nat -> nat)
    requires InStepView(v, b) && r.created == v.created && r.total == v.total <= |r.items| && DistinctIds(r.Prefix())
    requires forall k: nat :: k < v.total ==>
               from(k) < v.total && r.items[k] == v.items[from(k)] && (from(k) < v.created <==> k < v.created)
    ensures InStepView(r, b)
  {
  }

  lemma Misplaced(r: View, b: seq<Item>, k: nat)
    requires k < r.total <= |r.items| && (k < r.created <==> ItemId(r.items[k]) !in IdSet(b))
    ensures !InStepView(r, b)
  {
  }

  lemma DeleteInStep(v: View, pos: nat, b: seq<Item>)
    requires Shape(v) && InStepView(v, b)
    ensures InStepView(DeleteStep(v, pos), b)
  {
    StepDistinct(v, Delete(pos));
    if pos < v.total {
      HighBitEffect(v.items[pos], ACTIVE_BIT, false);
      InPlace(v, DeleteStep(v, pos), b);
    }
  }

  lemma ActivateInStep(v: View, pos: nat, b: seq<Item>)
    requires Shape(v) && InStepView(v, b)
    ensures InStepView(ActivateStep(v, pos), b)
  {
    StepDistinct(v, Activate(pos));
    if pos < v.total {
      HighBitEffect(v.items[pos], ACTIVE_BIT, true);
      InPlace(v, ActivateStep(v, pos), b);
    }
  }

  lemma MarkInStep(v: View, pos: nat, shift: nat, flag: bool, b: seq<Item>)
    requires Shape(v) && InStepView(v, b)
    ensures InStepView(MarkStep(v, pos, shift, flag), b)
  {
    StepDistinct(v, Mark(pos, shift, flag));
    if pos < v.total && shift < MAX_MARKS {
      MarkEffect(v.items[pos], shift, flag);
      InPlace(v, MarkStep(v, pos, shift, flag), b);
    }
  }

  lemma ExchangeInStep(v: View, l: nat, r: nat, b: seq<Item>)
    requires Shape(v) && InStepView(v, b)
    ensures InStepView(ExchangeStep(v, l, r), b) <==> Orderly(v, Exchange(l, r), b)
  {
    var t := ExchangeStep(v, l, r);
    StepDistinct(v, Exchange(l, r));
    if l < v.total && r < v.total {
      if l < v.created <==> r < v.created {
        Rearranged(v, t, b, k => if k == l then r else if k == r then l else k);
      } else {
        Misplaced(t, b, l);
      }
    }
  }

  lemma MoveInStep(v: View, from: nat, to: nat, b: seq<Item>)
    requires Shape(v) && InStepView(v, b)
    ensures InStepView(MoveStep(v, from, to), b) <==> Orderly(v, Move(from, to), b)
  {
    var t := MoveStep(v, from, to);
    StepDistinct(v, Move(from, to));
    if from < v.total && to < v.total {
      MovedAt(v.items, from, to, to);
      if from < v.created <==> to < v.created {
        forall k: nat | k < v.total
          ensures t.items[k] == v.items[MoveSource(from, to, k)]
        {
          MovedAt(v.items, from, to, k);
        }
        Rearranged(v, t, b, k => MoveSource(from, to, k));
      } else {
        Misplaced(t, b, to);
      }
    }
  }

  /** Where the item at place k comes from. */
  function MoveSource(from: nat, to: nat, k: nat): (j: nat) {
    if k == to then from else if from <= k < to then k + 1 else if to < k <= from then k - 1 else k
  }

  lemma AddInStep(v: View, stored: Stored, b: seq<Item>)
    requires Shape(v) && InStepView(v, b)
    ensures InStepView(AddStep(v, stored), b) <==> Orderly(v, Add(stored), b)
  {
    if !IsFull(v) && stored.Stored? {
      var x, t := SetItemBit(stored.id, ACTIVE_BIT), AddStep(v, stored);
      HighBitEffect(stored.id, ACTIVE_BIT, true);
      AddPrefix(v, stored);
      IdsAppend(v.Prefix(), x);
      if ItemId(x) in IdSet(v.Prefix()) {
        var k: nat :| k < v.total && ItemId(v.Prefix()[k]) == ItemId(x);
        TwoCopies(t.Prefix(), k, v.total);
      }
      if ItemId(x) in IdSet(b) {
        Misplaced(t, b, v.total);
      }
    }
  }

  lemma {:induction false} ClearKeepsEachId(v: View, i: nat, k: nat)
    requires Shape(v) && k < v.total
    ensures ItemId(ClearFrom(v, i).items[k]) == ItemId(v.items[k])
    decreases |v.items| - i
  {
    if i < |v.items| && v.items[i] != NULL_ITEM {
      if IsActive(v.items[i]) {
        DeleteKeepsEachId(v, i, k);
        ClearKeepsEachId(DeleteStep(v, i), i + 1, k);
      } else {
        ClearKeepsEachId(v, i + 1, k);
      }
    }
  }

  lemma DeleteKeepsEachId(v: View, i: nat, k: nat)
    requires Shape(v) && k < v.total
    ensures ItemId(DeleteStep(v, i).items[k]) == ItemId(v.items[k])
  {
    if i < v.total {
      HighBitEffect(v.items[i], ACTIVE_BIT, false);
    }
  }

  /** What no call changes: the number of created items, of filtered-out items, and the capacity. */
  ghost predicate SameFrame(v: View, r: View) {
    r.created == v.created && r.passNum == v.passNum && |r.items| == |v.items|
  }

  lemma {:induction false} ClearKeepsFrame(v: View, i: nat)
    requires Shape(v)
    ensures SameFrame(v, ClearFrom(v, i))
    decreases |v.items| - i
  {
    if i < |v.items| && v.items[i] != NULL_ITEM {
      if IsActive(v.items[i]) {
        ClearKeepsFrame(DeleteStep(v, i), i + 1);
      } else {
        ClearKeepsFrame(v, i + 1);
      }
    }
  }

  lemma ClearInStep(v: View, b: seq<Item>)
    requires Shape(v) && InStepView(v, b)
    ensures InStepView(ClearFrom(v, 0), b)
  {
    var t := ClearFrom(v, 0);
    StepDistinct(v, ClearAll);
    ClearKeepsFrame(v, 0);
    forall k: nat | k < v.total
      ensures ItemId(t.items[k]) == ItemId(v.items[k])
    {
      ClearKeepsEachId(v, 0, k);
    }
    InPlace(v, t, b);
  }

  /** Exactly the orderly calls keep the view in step with the list. */
  lemma StepInStepIff(v: View, op: ViewOp, b: seq<Item>)
    requires Shape(v) && InStepView(v, b)
    ensures InStepView(Step(v, op), b) <==> Orderly(v, op, b)
  {
    match op
    case Add(stored) => AddInStep(v, stored, b);
    case Delete(pos) => DeleteInStep(v, pos, b);
    case Activate(pos) => ActivateInStep(v, pos, b);
    case Mark(pos, shift, flag) => MarkInStep(v, pos, shift, flag, b);
    case Exchange(l, r) => ExchangeInStep(v, l, r, b);
    case Move(from, to) => MoveInStep(v, from, to, b);
    case ClearAll => ClearInStep(v, b);
  }

  // ---------------------------------------------------------------- what every state of a session keeps

  /** A virtual view, the real view it belongs to, and the copy of that in flash. */
  datatype Store = Store(view: View, list: seq<Item>, flash: Image)

  /** A view without pending changes shows its items as the list has them. */
  ghost predicate Synced(v: View, b: seq<Item>) {
    v.created == v.total <= |v.items| && Agrees(v.Prefix(), b, b)
  }

  ghost predicate Good(s: Store, capacity: nat) {
    var v, b := s.view, s.list;
    && Shape(v) && |v.items| == capacity
    && Clean(b) && NoReserved(b)
    && Counted(v) && NoReserved(v.Prefix())
    && InStepView(v, b) && |b| == v.created + v.passNum
    && (!v.needUp ==> Synced(v, b))
    && Flashed(s.flash, b) && Tidy(s.flash)
  }

  /** The edits that a caller may make at any time. */
  ghost predicate Proper(v: View, op: ViewOp, b: seq<Item>)
    requires Shape(v)
  {
    && Safe(v, op) && Orderly(v, op, b)
    && (op.Add? && op.stored.Stored? && !IsFull(v) ==> ItemId(op.stored.id) != NO_ID)
  }

  lemma StepKeepsFrame(v: View, op: ViewOp)
    requires Shape(v)
    ensures SameFrame(v, Step(v, op))
  {
    if op.ClearAll? {
      ClearKeepsFrame(v, 0);
    }
  }

  /** A call that leaves nothing to write has not changed the items. */
  lemma UnneededStep(v: View, op: ViewOp)
    requires Shape(v) && !Step(v, op).needUp
    ensures !v.needUp && Step(v, op).Prefix() == v.Prefix()
  {
    if op.ClearAll? {
      ViewLaws.ClearNeeds(v, 0);
      assert false;
    }
  }

  lemma StepReserved(v: View, op: ViewOp, b: seq<Item>)
    requires Shape(v) && NoReserved(v.Prefix()) && Proper(v, op, b)
    ensures NoReserved(Step(v, op).Prefix())
  {
    StepIds(v, op);
    ReservedById(v.Prefix());
    ReservedById(Step(v, op).Prefix());
  }

  lemma EditGood(s: Store, op: ViewOp, capacity: nat)
    requires Good(s, capacity) && Proper(s.view, op, s.list)
    ensures Good(s.(view := Step(s.view, op)), capacity)
  {
    StepKeepsFrame(s.view, op);
    StepCountedIff(s.view, op);
    StepInStepIff(s.view, op, s.list);
    StepReserved(s.view, op, s.list);
    if !Step(s.view, op).needUp {
      UnneededStep(s.view, op);
      SameTotal(s.view, Step(s.view, op));
    }
  }

  lemma SameTotal(v: View, r: View)
    requires v.total <= |v.items| && r.total <= |r.items| && r.Prefix() == v.Prefix()
    ensures r.total == v.total
  {
    assert |r.Prefix()| == r.total && |v.Prefix()| == v.total;
  }

  lemma InStepOfView(v: View, b: seq<Item>)
    requires InStepView(v, b)
    ensures InStep(v.Prefix(), v.created, b)
  {
  }

  // ---------------------------------------------------------------- creation

  lemma {:induction false} PassingDistinct(b: seq<Item>, pass: Item -> bool)
    requires DistinctIds(b)
    ensures DistinctIds(Passing(b, pass)) && IdSet(Passing(b, pass)) <= IdSet(b)
  {
    if b != [] {
      var n := |b| - 1;
      assert b == b[..n] + [b[n]];
      PassingDistinct(b[..n], pass);
      DistinctLast(b[..n], b[n]);
      IdsAppend(b[..n], b[n]);
      IdsAppend(Passing(b[..n], pass), b[n]);
    }
  }

  lemma {:induction false} PassingIsPart(b: seq<Item>, pass: Item -> bool, ids: set<nat>)
    requires forall i :: 0 <= i < |b| ==> (ItemId(b[i]) in ids <==> pass(b[i]))
    ensures Part(b, ids, true) == Passing(b, pass)
  {
    if b != [] {
      PassingIsPart(b[..|b| - 1], pass, ids);
    }
  }

  lemma {:induction false} PassingHas(b: seq<Item>, pass: Item -> bool, x: Item)
    ensures x in Passing(b, pass) <==> x in b && pass(x)
  {
    if b != [] {
      var n := |b| - 1;
      PassingHas(b[..n], pass, x);
      assert b == b[..n] + [b[n]];
    }
  }

  /** In a list without repeated ids, the ids that pass are those of the items that pass. */
  lemma PassingIds(b: seq<Item>, pass: Item -> bool, i: nat)
    requires DistinctIds(b) && i < |b|
    ensures ItemId(b[i]) in IdSet(Passing(b, pass)) <==> pass(b[i])
  {
    var p := Passing(b, pass);
    PassingHas(b, pass, b[i]);
    if pass(b[i]) {
      MemberId(p, b[i]);
    }
    if ItemId(b[i]) in IdSet(p) {
      var k: nat :| k < |p| && ItemId(p[k]) == ItemId(b[i]);
      PassingHas(b, pass, p[k]);
      var j: nat :| j < |b| && b[j] == p[k];
      SameIdSamePlace(b, i, j);
    }
  }

  lemma SameIdSamePlace(b: seq<Item>, i: nat, j: nat)
    requires DistinctIds(b) && i < |b| && j < |b| && ItemId(b[i]) == ItemId(b[j])
    ensures i == j
  {
  }

  /** A view just created from a well-formed list is in step with it and has nothing to write. */
  lemma CreatedInStep(v: View, b: seq<Item>, pass: Item -> bool)
    requires Clean(b) && NoReserved(b) && CreatedFrom(v, b, pass)
    ensures InStepView(v, b) && Synced(v, b) && |b| == v.created + v.passNum && NoReserved(v.Prefix())
  {
    NoReservedNoNulls(b);
    NoNullsIff(b);
    assert b[..|b|] == b;
    PassingDistinct(b, pass);
    forall i | 0 <= i < |b|
      ensures ItemId(b[i]) in IdSet(Passing(b, pass)) <==> pass(b[i])
    {
      PassingIds(b, pass, i);
    }
    PassingIsPart(b, pass, IdSet(v.Prefix()));
    PassingActive(b, pass);
    forall k: nat | k < v.created
      ensures ItemId(v.items[k]) in IdSet(b) && ItemId(v.items[k]) != NO_ID
    {
      assert ItemId(v.Prefix()[k]) in IdSet(v.Prefix());
      ReservedNotIn(b);
    }
  }

  lemma ReservedNotIn(b: seq<Item>)
    requires NoReserved(b)
    ensures NO_ID !in IdSet(b)
  {
  }

  lemma PassingActive(b: seq<Item>, pass: Item -> bool)
    requires Clean(b)
    ensures Actives(Passing(b, pass)) == Passing(b, pass)
  {
    forall k | 0 <= k < |Passing(b, pass)|
      ensures IsActive(Passing(b, pass)[k])
    {
      PassingHas(b, pass, Passing(b, pass)[k]);
    }
    ActivesOfActive(Passing(b, pass));
  }

  lemma CreationGood(v: View, b: seq<Item>, g: Image, pass: Item -> bool, capacity: nat)
    requires Clean(b) && NoReserved(b) && CreatedFrom(v, b, pass) && |b| <= |v.items| == capacity < 0x1_0000
    requires Flashed(g, b) && Tidy(g)
    ensures Good(Store(v, b, g), capacity)
  {
    CreatedInStep(v, b, pass);
  }

  // ---------------------------------------------------------------- the update

  lemma {:induction false} RemoveAllLength(b: seq<Item>, ids: seq<nat>)
    requires DistinctIds(b) && forall i, j :: 0 <= i < j < |ids| ==> ids[i] != ids[j]
    requires forall i :: 0 <= i < |ids| ==> ids[i] in IdSet(b)
    ensures |RemoveAll(b, ids)| == |b| - |ids|
    decreases |ids|
  {
    if ids != [] {
      var n := |ids| - 1;
      RemoveAllLength(b, ids[..n]);
      RemoveAllDistinct(b, ids[..n]);
      assert ids[n] in IdSet(RemoveAll(b, ids[..n]));
    }
  }

  lemma DeadIn(m: seq<Item>, created: nat, b: seq<Item>)
    requires created <= |m| && DistinctIds(m) && forall k :: 0 <= k < created ==> ItemId(m[k]) in IdSet(b)
    ensures forall i :: 0 <= i < |Dead(m)| ==> ItemId(Dead(m)[i]) in IdSet(b + m[created..])
  {
    ActivesSound(m);
    IdsOfConcat(b, m[created..]);
    forall i | 0 <= i < |Dead(m)|
      ensures ItemId(Dead(m)[i]) in IdSet(b + m[created..])
    {
      assert ItemId(Dead(m)[i]) in IdSet(Dead(m));
      var k: nat :| k < |m| && ItemId(m[k]) == ItemId(Dead(m)[i]);
      if created <= k {
        assert ItemId(m[created..][k - created]) in IdSet(m[created..]);
      }
    }
  }

  /** Every deleted item leaves the list, so that the lengths balance. */
  lemma MergedLength(m: seq<Item>, created: nat, b: seq<Item>)
    requires created <= |m| && Clean(b) && DistinctIds(m)
    requires forall k :: 0 <= k < created ==> ItemId(m[k]) in IdSet(b)
    requires forall k :: created <= k < |m| ==> ItemId(m[k]) !in IdSet(b)
    ensures |Merged(m, created, b)| == |b| - created + |Actives(m)|
  {
    AppendDistinct(m, created, b);
    DeadDistinct(m);
    DeadIn(m, created, b);
    RemoveAllLength(b + m[created..], Ids(Dead(m)));
  }

  lemma {:induction false} PartSame(s: seq<Item>, a: set<nat>, b: set<nat>, inside: bool)
    requires forall k :: 0 <= k < |s| ==> (ItemId(s[k]) in a <==> ItemId(s[k]) in b)
    ensures Part(s, a, inside) == Part(s, b, inside)
  {
    if s != [] {
      PartSame(s[..|s| - 1], a, b, inside);
    }
  }

  lemma {:induction false} PartMember(s: seq<Item>, ids: set<nat>, inside: bool, x: Item)
    ensures x in Part(s, ids, inside) <==> x in s && (ItemId(x) in ids) == inside
  {
    if s != [] {
      var n := |s| - 1;
      PartMember(s[..n], ids, inside, x);
      assert s == s[..n] + [s[n]];
    }
  }

  /** What a list that agrees with the view m holds of the ids of m is what m keeps. */
  lemma AgreedIds(m: seq<Item>, b: seq<Item>, r: seq<Item>, k: nat)
    requires Agrees(m, b, r) && DistinctIds(m) && k < |r|
    ensures ItemId(r[k]) in IdSet(m) <==> ItemId(r[k]) in IdSet(Actives(m))
    ensures ItemId(r[k]) !in IdSet(m) ==> r[k] in b
  {
    ActivesSound(m);
    PartMember(r, IdSet(m), true, r[k]);
    PartMember(r, IdSet(m), false, r[k]);
    PartMember(b, IdSet(m), false, r[k]);
    MemberId(Actives(m), r[k]);
  }

  lemma KeptInList(m: seq<Item>, b: seq<Item>, r: seq<Item>, i: nat)
    requires Agrees(m, b, r) && i < |Actives(m)|
    ensures ItemId(Actives(m)[i]) in IdSet(r)
  {
    PartMember(r, IdSet(m), true, Actives(m)[i]);
    MemberId(r, Actives(m)[i]);
  }

  /** The new list agrees with the settled view as it stands. */
  lemma AgreesWithItself(m: seq<Item>, b: seq<Item>, r: seq<Item>)
    requires Agrees(m, b, r) && DistinctIds(m)
    ensures Actives(Actives(m)) == Actives(m) && Agrees(Actives(m), r, r)
  {
    ActivesSound(m);
    ActivesOfActive(Actives(m));
    forall k | 0 <= k < |r|
      ensures ItemId(r[k]) in IdSet(m) <==> ItemId(r[k]) in IdSet(Actives(m))
    {
      AgreedIds(m, b, r, k);
    }
    PartSame(r, IdSet(m), IdSet(Actives(m)), true);
  }

  lemma AgreedReserved(m: seq<Item>, b: seq<Item>, r: seq<Item>)
    requires Agrees(m, b, r) && DistinctIds(m) && NoReserved(m) && NoReserved(b)
    ensures NoReserved(r) && NoReserved(Actives(m))
  {
    ReservedNotIn(m);
    ReservedNotIn(b);
    ActivesSound(m);
    forall k | 0 <= k < |r|
      ensures ItemId(r[k]) != NO_ID
    {
      AgreedIds(m, b, r, k);
    }
    forall i | 0 <= i < |Actives(m)|
      ensures ItemId(Actives(m)[i]) != NO_ID
    {
      assert ItemId(Actives(m)[i]) in IdSet(Actives(m));
    }
  }

  /** How the update of a view without empty items ends when nothing goes wrong. */
  ghost function Success(v: View, b: seq<Item>): (o: Outcome)
    requires v.created <= v.total <= |v.items|
  {
    if v.needUp then Done(Ids(Dead(v.Prefix())), ChangedFrom(v.Prefix(), v.created, b)) else Unneeded
  }

  /** In every state of a session the update has room, finds a right count and all items: it is carried out
      if there is anything to write, and the list it leaves agrees with the view. */
  lemma UpdateSucceeds(s: Store, r: seq<Item>, capacity: nat)
    requires Good(s, capacity)
    ensures UpdateOutcome(s.view, s.list, capacity) == Success(s.view, s.list)
    ensures Rewritten(s.view.Prefix(), s.view.created, s.list, r) ==> Agrees(s.view.Prefix(), s.list, r)
  {
    var v, b := s.view, s.list;
    InStepOfView(v, b);
    NoReservedNoNulls(v.Prefix());
    NoNullsParts(v.Prefix());
    UpdateDoneIff(v, b, capacity);
    NoNullsUpdate(v.Prefix(), v.created, b, r);
    if Rewritten(v.Prefix(), v.created, b, r) {
      UpdateAgrees(v.Prefix(), v.created, b, r);
    }
  }

  lemma UpdatedLength(m: seq<Item>, created: nat, b: seq<Item>, r: seq<Item>)
    requires created <= |m| && NoNulls(m) && Rewritten(m, created, b, r)
    ensures |r| == |Merged(m, created, b)|
  {
    NoNullsUpdate(m, created, b, r);
  }

  lemma SettledInStep(w: View, r: seq<Item>, kept: seq<Item>)
    requires w.total <= |w.items| && w.Prefix() == kept && w.created == w.total && DistinctIds(kept)
    requires forall i :: 0 <= i < |kept| ==> ItemId(kept[i]) in IdSet(r)
    ensures InStepView(w, r)
  {
    forall k: nat | k < w.created
      ensures ItemId(w.items[k]) in IdSet(r)
    {
      assert w.Prefix()[k] == kept[k];
    }
  }

  lemma SettledCounts(v: View, w: View)
    requires Shape(v) && Settled(v, w) && NoNulls(v.Prefix()) && Actives(Actives(v.Prefix())) == Actives(v.Prefix())
    ensures Shape(w) && Counted(w) && w.Prefix() == Actives(v.Prefix()) && w.total == |Actives(v.Prefix())|
  {
    NoNullsParts(v.Prefix());
    SettledPrefix(v, w);
  }

  /** What an update does to the list of a good state. */
  ghost predicate Written(m: seq<Item>, created: nat, b: seq<Item>, r: seq<Item>)
    requires created <= |m|
  {
    var kept := Actives(m);
    && Agrees(m, b, r) && Agrees(kept, r, r) && Actives(kept) == kept && DistinctIds(kept)
    && NoReserved(r) && NoReserved(kept) && |r| + created == |b| + |kept|
    && forall i :: 0 <= i < |kept| ==> ItemId(kept[i]) in IdSet(r)
  }

  lemma UpdateWrites(s: Store, r: seq<Item>, capacity: nat)
    requires Good(s, capacity) && Rewritten(s.view.Prefix(), s.view.created, s.list, r)
    ensures Written(s.view.Prefix(), s.view.created, s.list, r)
  {
    var m, b := s.view.Prefix(), s.list;
    UpdateSucceeds(s, r, capacity);
    ActivesSound(m);
    AgreesWithItself(m, b, r);
    AgreedReserved(m, b, r);
    LengthOfView(s.view, b);
    NoReservedNoNulls(m);
    UpdatedLength(m, s.view.created, b, r);
    forall i | 0 <= i < |Actives(m)|
      ensures ItemId(Actives(m)[i]) in IdSet(r)
    {
      KeptInList(m, b, r, i);
    }
  }

  lemma LengthOfView(v: View, b: seq<Item>)
    requires InStepView(v, b) && Clean(b)
    ensures |Merged(v.Prefix(), v.created, b)| == |b| - v.created + |Actives(v.Prefix())|
  {
    MergedLength(v.Prefix(), v.created, b);
  }

  /** The flash after the update: the packets from the first changed place on are written. */
  ghost predicate Dumped(s: Store, t: Store)
    requires s.view.created <= s.view.total <= |s.view.items|
  {
    t.flash == After(s.flash, t.list, ChangedFrom(s.view.Prefix(), s.view.created, s.list))
  }

  /** What the update writes to flash is enough, whatever the view holds: if the flash held the list before,
      and no more items were created than the list has, it holds the list after. */
  lemma UpdatePersists(g: Image, m: seq<Item>, created: nat, b: seq<Item>, r: seq<Item>, from: nat)
    requires created <= |m| && created <= |b| && Flashed(g, b)
    requires Rewritten(m, created, b, r) && from == ChangedFrom(m, created, b)
    ensures Flashed(After(g, r, from), r)
  {
    ChangedFromStart(m, created, b);
    SameBelowChanges(m, created, b, r, from);
    SameBelowPersists(g, b, r, from);
  }

  lemma SameBelowChanges(m: seq<Item>, created: nat, b: seq<Item>, r: seq<Item>, from: nat)
    requires created <= |m| && Rewritten(m, created, b, r) && from == ChangedFrom(m, created, b) <= |b|
    ensures SameBelow(b, r, from)
  {
    forall k: nat | k < from
      ensures k < |r| && r[k] == b[k]
    {
      BelowUnchanged(m, created, b, r, k);
    }
    if from > 0 {
      BelowUnchanged(m, created, b, r, from - 1);
    }
  }

  lemma UpdateGood(s: Store, t: Store, capacity: nat)
    requires Good(s, capacity) && Settled(s.view, t.view) && Dumped(s, t)
    requires Rewritten(s.view.Prefix(), s.view.created, s.list, t.list)
    ensures Good(t, capacity)
  {
    UpdateWrites(s, t.list, capacity);
    DumpTidies(s.flash, t.list, ChangedFrom(s.view.Prefix(), s.view.created, s.list));
    UpdatePersists(s.flash, s.view.Prefix(), s.view.created, s.list, t.list,
                   ChangedFrom(s.view.Prefix(), s.view.created, s.list));
    NoReservedNoNulls(s.view.Prefix());
    WrittenGood(s, t, capacity);
  }

  lemma WrittenGood(s: Store, t: Store, capacity: nat)
    requires Good(s, capacity) && Settled(s.view, t.view) && NoNulls(s.view.Prefix())
    requires Flashed(t.flash, t.list) && Tidy(t.flash)
    requires Written(s.view.Prefix(), s.view.created, s.list, t.list)
    ensures Good(t, capacity)
  {
    SettledCounts(s.view, t.view);
    SettledInStep(t.view, t.list, Actives(s.view.Prefix()));
  }

  // ---------------------------------------------------------------- whole sessions

  /** What happens to a view and its list: the view is created anew with some filter, edited, or written
      back. */
  datatype Event = Create(pass: Item -> bool) | Edit(op: ViewOp) | Update

  ghost predicate Allowed(s: Store, e: Event) {
    e.Edit? ==> Shape(s.view) && Proper(s.view, e.op, s.list)
  }

  /** What the calls make of a state: `db_create_virtual_view`, the edits, and `db_update_view` where it is
      carried out. */
  ghost predicate Next(s: Store, e: Event, t: Store, capacity: nat) {
    match e
    case Create(pass) =>
      |t.view.items| == capacity && CreatedFrom(t.view, s.list, pass) && t == s.(view := t.view)
    case Edit(op) =>
      Shape(s.view) && t == s.(view := Step(s.view, op))
    case Update =>
      && s.view.created <= s.view.total <= |s.view.items|
      && if s.view.needUp then
           && Settled(s.view, t.view) && Dumped(s, t)
           && Rewritten(s.view.Prefix(), s.view.created, s.list, t.list)
         else
           t == s
  }

  lemma NextGood(s: Store, e: Event, t: Store, capacity: nat)
    requires Good(s, capacity) && Allowed(s, e) && Next(s, e, t, capacity)
    ensures Good(t, capacity)
  {
    match e
    case Create(pass) => CreationGood(t.view, s.list, s.flash, pass, capacity);
    case Edit(op) => EditGood(s, op, capacity);
    case Update =>
      if s.view.needUp {
        UpdateGood(s, t, capacity);
      }
  }

  /** A session: every event is allowed where it happens, and leads to the next state. */
  ghost predicate Session(states: seq<Store>, events: seq<Event>, capacity: nat) {
    && |states| == |events| + 1 && Good(states[0], capacity)
    && forall i :: 0 <= i < |events| ==>
         Allowed(states[i], events[i]) && Next(states[i], events[i], states[i + 1], capacity)
  }

  lemma {:induction false} SessionGood(states: seq<Store>, events: seq<Event>, capacity: nat, i: nat)
    requires Session(states, events, capacity) && i < |states|
    ensures Good(states[i], capacity)
  {
    if i > 0 {
      SessionGood(states, events, capacity, i - 1);
      NextGood(states[i - 1], events[i - 1], states[i], capacity);
    }
  }

  /** Through a whole session of any length, with any number of updates, every state is good, every update
      is carried out if there is anything to write, and after it the list agrees with the view and with the
      list before: no edit is lost.  The flash, of which an update writes only a part, always holds the list,
      and no packet of the table behind it. */
  lemma SessionSound(states: seq<Store>, events: seq<Event>, capacity: nat, i: nat)
    requires Session(states, events, capacity) && i < |events| && events[i].Update?
    ensures var s := states[i];
            && Good(s, capacity) && Good(states[i + 1], capacity)
            && Flashed(states[i + 1].flash, states[i + 1].list) && Tidy(states[i + 1].flash)
            && UpdateOutcome(s.view, s.list, capacity) == Success(s.view, s.list)
            && Agrees(s.view.Prefix(), s.list, states[i + 1].list)
  {
    SessionGood(states, events, capacity, i);
    SessionGood(states, events, capacity, i + 1);
    UpdateSucceeds(states[i], states[i + 1].list, capacity);
    assert Next(states[i], events[i], states[i + 1], capacity);
  }

  /** The update of a session writes the flash from the least place that holds an item of the view, or from
      the creation number if that is less. */
  lemma SessionDumpsFrom(s: Store, capacity: nat)
    requires Good(s, capacity)
    ensures var m, from := s.view.Prefix(), ChangedFrom(s.view.Prefix(), s.view.created, s.list);
            && from <= s.view.created <= |s.list|
            && (forall k: nat :: k < from ==> ItemId(s.list[k]) !in IdSet(m))
            && (from < s.view.created ==> ItemId(s.list[from]) in IdSet(m))
  {
    InStepOfView(s.view, s.list);
    NoReservedNoNulls(s.view.Prefix());
    ListInTable(s, capacity);
    ChangedFromExact(s.view.Prefix(), s.view.created, s.list);
  }

  lemma ListInTable(s: Store, capacity: nat)
    requires Good(s, capacity)
    ensures |s.list| < 0x1_0000
  {
  }

  /** Whatever well-formed list is read from the flash of a session is the list. */
  lemma SessionReloads(states: seq<Store>, events: seq<Event>, capacity: nat, i: nat, b: seq<Item>)
    requires Session(states, events, capacity) && i < |states| && Flashed(states[i].flash, b) && NoNulls(b)
    ensures b == states[i].list
  {
    SessionGood(states, events, capacity, i);
    NoReservedNoNulls(states[i].list);
    FlashedUnique(states[i].flash, b, states[i].list);
  }

  /** Leaving out more ids after fewer is leaving out the more. */
  lemma {:induction false} PartOfPart(s: seq<Item>, small: set<nat>, large: set<nat>)
    requires small <= large
    ensures Part(Part(s, small, false), large, false) == Part(s, large, false)
  {
    if s != [] {
      var n := |s| - 1;
      PartOfPart(s[..n], small, large);
      PartConcat(Part(s[..n], small, false), [s[n]], large, false);
      PartOne(s[n], large, false);
      assert Part(s[..n], small, false) + [] == Part(s[..n], small, false);
    }
  }

  lemma AgreesOutside(m: seq<Item>, b: seq<Item>, r: seq<Item>, ids: set<nat>)
    requires Agrees(m, b, r) && IdSet(m) <= ids
    ensures Part(r, ids, false) == Part(b, ids, false)
  {
    PartOfPart(r, IdSet(m), ids);
    PartOfPart(b, IdSet(m), ids);
  }

  lemma NextKeepsOthers(s: Store, e: Event, t: Store, capacity: nat, ids: set<nat>)
    requires Good(s, capacity) && Next(s, e, t, capacity) && IdSet(s.view.Prefix()) <= ids
    ensures Part(t.list, ids, false) == Part(s.list, ids, false)
  {
    if e.Update? && s.view.needUp {
      UpdateSucceeds(s, t.list, capacity);
      AgreesOutside(s.view.Prefix(), s.list, t.list, ids);
    }
  }

  ghost predicate HeldIn(v: View, ids: set<nat>) {
    v.total <= |v.items| && IdSet(v.Prefix()) <= ids
  }

  /** What no view of a session ever held is in the list at the end as it was at the start, in its order. */
  lemma {:induction false} SessionKeepsOthers(states: seq<Store>, events: seq<Event>, capacity: nat, ids: set<nat>,
                                              i: nat)
    requires Session(states, events, capacity) && i < |states|
    requires forall j :: 0 <= j < i ==> HeldIn(states[j].view, ids)
    ensures Part(states[i].list, ids, false) == Part(states[0].list, ids, false)
  {
    if i > 0 {
      SessionKeepsOthers(states, events, capacity, ids, i - 1);
      SessionGood(states, events, capacity, i - 1);
      NextKeepsOthers(states[i - 1], events[i - 1], states[i], capacity, ids);
    }
  }

  // ---------------------------------------------------------------- one round

  ghost predicate ProperRun(v: View, ops: seq<ViewOp>, b: seq<Item>)
    requires Shape(v)
    decreases |ops|
  {
    ops == [] || (Proper(v, ops[0], b) && ProperRun(Step(v, ops[0]), ops[1..], b))
  }

  lemma {:induction false} RunInStep(s: Store, ops: seq<ViewOp>, capacity: nat)
    requires Good(s, capacity) && ProperRun(s.view, ops, s.list)
    ensures Good(s.(view := ViewRun(s.view, ops)), capacity)
    decreases |ops|
  {
    if ops != [] {
      EditGood(s, ops[0], capacity);
      RunInStep(s.(view := Step(s.view, ops[0])), ops[1..], capacity);
    }
  }

  /** From creation to update: after any proper run of edits on a view of the list b, the update is carried
      out, with room for the additions, unless nothing has changed, and the list it leaves is well formed,
      shows the view's items in the view's order with its marks, has lost the deleted ones, and shows
      everything else as before. */
  lemma EditsReachTheList(s: Store, pass: Item -> bool, ops: seq<ViewOp>, r: seq<Item>, capacity: nat)
    requires Clean(s.list) && NoReserved(s.list) && |s.list| <= |s.view.items| == capacity < 0x1_0000
    requires Flashed(s.flash, s.list) && Tidy(s.flash)
    requires CreatedFrom(s.view, s.list, pass) && Shape(s.view) && ProperRun(s.view, ops, s.list)
    ensures var w, b := ViewRun(s.view, ops), s.list;
            && w.created <= w.total && Room(w, |b|, capacity)
            && UpdateOutcome(w, b, capacity) == Success(w, b)
            && (Rewritten(w.Prefix(), w.created, b, r) ==> Agrees(w.Prefix(), b, r))
            && (!w.needUp ==> Agrees(w.Prefix(), b, b))
  {
    CreationGood(s.view, s.list, s.flash, pass, capacity);
    RunInStep(s, ops, capacity);
    UpdateSucceeds(s.(view := ViewRun(s.view, ops)), r, capacity);
  }

  /** An addition moved before the old items is not found in the list: the update goes wrong. */
  lemma MovedAdditionIsLost(x: Item, y: Item, b: seq<Item>)
    requires IsActive(x) && IsActive(y) && ItemId(x) != ItemId(y) && b == [x]
    ensures Clean(b) && InStep([x, y], 1, b) && !AllFound(Moved([x, y], 1, 0), 1, b)
  {
    IdSetOne(x);
    assert Moved([x, y], 1, 0) == [y, x];
    assert DistinctIds([y, x]);
    StrangerNotFound([y, x], 1, b, 0);
  }

  /** A list of two items, and a view of them with a deleted addition that was exchanged with the second. */
  lemma ExchangedView(x: Item, y: Item, z: Item, b: seq<Item>, m: seq<Item>)
    requires IsActive(x) && IsActive(y) && !IsActive(z) && DistinctIds([x, y, z]) && b == [x, y] && m == [x, z, y]
    ensures m == Swapped([x, y, z], 1, 2) && DistinctIds(m) && Clean(b)
    ensures InStep([x, y, z], 2, b) && Anchored(m, 2, b) && ItemId(m[2]) in IdSet(b)
  {
    var s := [x, y, z];
    assert s[0] == x && s[1] == y && s[2] == z;
    assert b[0] == x && b[1] == y;
    assert ItemId(b[0]) in IdSet(b) && ItemId(b[1]) in IdSet(b) && ItemId(z) !in IdSet(b);
  }

  /** A deleted addition exchanged with an old item leaves that item twice in the list. */
  lemma ExchangedAdditionDuplicates(x: Item, y: Item, z: Item, r: seq<Item>)
    requires IsActive(x) && IsActive(y) && !IsActive(z) && DistinctIds([x, y, z])
    ensures var b, m := [x, y], Swapped([x, y, z], 1, 2);
            && Clean(b) && InStep([x, y, z], 2, b) && AllFound(m, 2, b)
            && (Updated(m, 2, b, r) ==> !Agrees(m, b, r))
  {
    var b, m := [x, y], [x, z, y];
    ExchangedView(x, y, z, b, m);
    ExchangedSpoils(m, b, r);
  }

  lemma ExchangedSpoils(m: seq<Item>, b: seq<Item>, r: seq<Item>)
    requires |m| == 3 && Clean(b) && DistinctIds(m) && Anchored(m, 2, b) && IsActive(m[2]) && ItemId(m[2]) in IdSet(b)
    ensures AllFound(m, 2, b) && (Updated(m, 2, b, r) ==> !Agrees(m, b, r))
  {
    AllFoundIff(m, 2, b);
    if Updated(m, 2, b, r) {
      ActiveDuplicateSpoils(m, 2, b, r, 2);
    }
  }

  lemma IdSetOne(x: Item)
    ensures IdSet([x]) == {ItemId(x)}
  {
    IdsAppend([], x);
    assert [] + [x] == [x];
  }
}
