/** The Shell sort that orders the places of a view's items before they are written back. */
module ShellSort {
  import opened ViewModel
  import opened SyncModel

  /** Elements of s below n are in order at distance h. */
  ghost predicate Spaced(s: seq<nat>, h: nat, n: nat) {
    n <= |s| && forall k: nat :: h <= k < n ==> s[k - h] <= s[k]
  }

  lemma {:induction false} SpacedOne(s: seq<nat>, i: nat, j: nat)
    requires Spaced(s, 1, |s|) && i <= j < |s|
    ensures s[i] <= s[j]
    decreases j - i
  {
    if i < j {
      SpacedOne(s, i, j - 1);
    }
  }

  /** The element tmp, taken from place i, is on its way down; place j is free for it. */
  ghost predicate Sinking(s: seq<nat>, h: nat, i: nat, j: nat, tmp: nat) {
    && 1 <= h && j <= i < |s|
    && (forall k: nat :: h <= k <= i && k != j && k != j + h ==> s[k - h] <= s[k])
    && (j + h <= i ==> tmp < s[j + h] && (h <= j ==> s[j - h] <= s[j + h]))
  }

  lemma SinkStep(s: seq<nat>, h: nat, i: nat, j: nat, tmp: nat)
    requires Sinking(s, h, i, j, tmp) && h <= j && tmp < s[j - h]
    ensures Sinking(s[j := s[j - h]], h, i, j - h, tmp)
  {
    var t := s[j := s[j - h]];
    if h <= j - h {
      assert s[j - h - h] <= s[j - h];
    }
    forall k: nat | h <= k <= i && k != j - h && k != j
      ensures t[k - h] <= t[k]
    {
      if k != j + h {
        assert s[k - h] <= s[k];
      }
    }
  }

  lemma SinkMultiset(s: seq<nat>, j: nat, l: nat, tmp: nat)
    requires l < j < |s|
    ensures multiset(s[j := s[l]][l := tmp]) == multiset(s[j := tmp])
  {
    var before := s[j := tmp];
    SwappedMultiset(before, j, l);
    assert s[j := s[l]][l := tmp] == Swapped(before, j, l);
  }

  lemma SinkDone(s: seq<nat>, h: nat, i: nat, j: nat, tmp: nat)
    requires Sinking(s, h, i, j, tmp) && (h <= j ==> s[j - h] <= tmp)
    ensures Spaced(s[j := tmp], h, i + 1)
  {
    var t := s[j := tmp];
    forall k: nat | h <= k < i + 1
      ensures t[k - h] <= t[k]
    {
      if k != j && k != j + h {
        assert s[k - h] <= s[k];
      }
    }
  }

  /** What the array holds once tmp is put at j. */
  ghost function Bag(s: seq<nat>, j: nat, tmp: nat): multiset<nat>
    requires j < |s|
  {
    multiset(s[j := tmp])
  }

  /** One round of the inner loop: the element h places below j moves up. */
  method Sink(a: array<nat>, h: nat, i: nat, j: nat, tmp: nat)
    requires Sinking(a[..], h, i, j, tmp) && h <= j && tmp < a[j - h]
    modifies a
    ensures Sinking(a[..], h, i, j - h, tmp) && Bag(a[..], j - h, tmp) == old(Bag(a[..], j, tmp))
  {
    SinkStep(a[..], h, i, j, tmp);
    SinkMultiset(a[..], j, j - h, tmp);
    ghost var s := a[..];
    a[j] := a[j - h];
    assert a[..] == s[j := s[j - h]];
  }

  lemma BagAt(s: seq<nat>, j: nat)
    requires j < |s|
    ensures Bag(s, j, s[j]) == multiset(s)
  {
    assert s[j := s[j]] == s;
  }

  lemma Start(s: seq<nat>, h: nat, i: nat)
    requires 1 <= h <= i < |s| && Spaced(s, h, i)
    ensures Sinking(s, h, i, i, s[i])
  {
  }

  /** One insertion: a[i] sinks in steps of h to its place. */
  method Insert(a: array<nat>, h: nat, i: nat)
    requires 1 <= h <= i < a.Length && Spaced(a[..], h, i)
    modifies a
    ensures Spaced(a[..], h, i + 1) && multiset(a[..]) == old(multiset(a[..]))
  {
    var tmp, j := a[i], i;
    BagAt(a[..], i);
    Start(a[..], h, i);
    while j >= h
      invariant 0 <= j <= i && Sinking(a[..], h, i, j, tmp)
      invariant Bag(a[..], j, tmp) == old(multiset(a[..]))
    {
      if !(tmp < a[j - h]) {
        break;
      }
      Sink(a, h, i, j, tmp);
      j := j - h;
    }
    ghost var s := a[..];
    SinkDone(s, h, i, j, tmp);
    a[j] := tmp;
    assert a[..] == s[j := tmp];
  }

  /** One pass at distance h. */
  method Pass(a: array<nat>, h: nat)
    requires 1 <= h <= a.Length
    modifies a
    ensures Spaced(a[..], h, a.Length) && multiset(a[..]) == old(multiset(a[..]))
  {
    var i := h;
    while i < a.Length
      invariant h <= i <= a.Length && Spaced(a[..], h, i) && multiset(a[..]) == old(multiset(a[..]))
    {
      Insert(a, h, i);
      i := i + 1;
    }
  }

  /** `db_shellsort`: passes at half the length, a quarter, and so on down to 1. */
  method Sort(a: array<nat>)
    modifies a
    ensures Ascending(a[..]) && multiset(a[..]) == old(multiset(a[..]))
  {
    var h := a.Length / 2;
    while h > 0
      invariant 0 <= h <= a.Length && multiset(a[..]) == old(multiset(a[..]))
      invariant h == 0 ==> Ascending(a[..])
    {
      Pass(a, h);
      if h == 1 {
        forall i, j | 0 <= i < j < a.Length
          ensures a[i] <= a[j]
        {
          SpacedOne(a[..], i, j);
        }
      }
      h := h / 2;
    }
  }
}
