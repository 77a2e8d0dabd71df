/** The in-place bubble sort of the API package. */
module BubbleSorting {
  import opened Ordering

  /** From position `k` on, the elements are in order. */
  predicate SortedFrom(s: seq<int>, k: int) {
    forall i, j :: 0 <= k <= i < j < |s| ==> s[i] <= s[j]
  }

  /** No element before position `k` exceeds an element from `k` on. */
  predicate Split(s: seq<int>, k: int) {
    forall i, j :: 0 <= i < k <= j < |s| ==> s[i] <= s[j]
  }

  /** Position `b` holds the largest of `s[0..b]`. */
  predicate MaxAt(s: seq<int>, b: nat)
    requires b < |s|
  {
    forall i :: 0 <= i <= b ==> s[i] <= s[b]
  }

  /** `s` and `t` agree after position `last`. */
  predicate SameAfter(s: seq<int>, t: seq<int>, last: int) {
    |s| == |t| && forall i :: 0 <= last < i < |s| ==> s[i] == t[i]
  }

  /** One comparison of the inner loop: neighbours `b` and `b + 1` swapped when out of order. */
  function Bubbled(s: seq<int>, b: nat): (t: seq<int>)
    requires b + 1 < |s|
  {
    if s[b] > s[b + 1] then s[b := s[b + 1]][b + 1 := s[b]] else s
  }

  /**
   * A comparison carries the largest of `s[0..b]` on to position `b + 1`,
   * permutes the elements, leaves everything after `b + 1` alone and keeps
   * the elements before `k` below those from `k` on.
   */
  lemma BubbledFacts(s: seq<int>, orig: seq<int>, b: nat, k: nat)
    requires b + 1 < k <= |s|
    requires MaxAt(s, b) && Split(s, k) && SameAfter(s, orig, k - 1)
    ensures |Bubbled(s, b)| == |s|
    ensures MaxAt(Bubbled(s, b), b + 1)
    ensures SameAfter(Bubbled(s, b), orig, k - 1)
    ensures multiset(Bubbled(s, b)) == multiset(s)
    ensures Split(Bubbled(s, b), k)
  {
    var t := Bubbled(s, b);
    forall i, j | 0 <= i < k <= j < |t|
      ensures t[i] <= t[j]
    {
      assert t[j] == s[j];
      assert t[i] == s[i] || t[i] == s[b] || t[i] == s[b + 1];
    }
    if s[b] > s[b + 1] {
      assert t == s[b := s[b + 1]][b + 1 := s[b]];
    }
  }

  /** Exchanges two elements. */
  method Swap(a: array<int>, i: nat, j: nat)
    requires i < a.Length && j < a.Length
    modifies a
    ensures a[..] == old(a[..])[i := old(a[j])][j := old(a[i])]
  {
    a[i], a[j] := a[j], a[i];
  }

  /**
   * One pass of the inner loop of `bubble_sort`: compare neighbours up to
   * `last` and swap them when out of order, which carries the largest of
   * `a[0..last]` to `a[last]`. Elements after `last` are not touched.
   */
  method BubblePass(a: array<int>, last: nat)
    requires last < a.Length
    requires Split(a[..], last + 1)
    modifies a
    ensures multiset(a[..]) == multiset(old(a[..]))
    ensures MaxAt(a[..], last)
    ensures SameAfter(a[..], old(a[..]), last)
    ensures Split(a[..], last + 1)
  {
    for bubble := 0 to last
      invariant multiset(a[..]) == multiset(old(a[..]))
      invariant MaxAt(a[..], bubble)
      invariant SameAfter(a[..], old(a[..]), last)
      invariant Split(a[..], last + 1)
    {
      ghost var before := a[..];
      BubbledFacts(before, old(a[..]), bubble, last + 1);
      if a[bubble] > a[bubble + 1] {
        Swap(a, bubble, bubble + 1);
      }
      assert a[..] == Bubbled(before, bubble);
    }
  }

  /**
   * After the pass that ends at `last`, the elements from `last` on are the
   * largest ones, in their final order.
   */
  lemma PassGrowsSortedSuffix(s: seq<int>, t: seq<int>, last: nat)
    requires last < |s| && |t| == |s|
    requires SortedFrom(s, last + 1)
    requires MaxAt(t, last) && SameAfter(t, s, last) && Split(t, last + 1)
    ensures SortedFrom(t, last) && Split(t, last)
  {
  }

  /**
   * `bubble_sort`: outer pass `index` bubbles the largest of the first
   * `n - index + 1` elements up to position `n - index`. The list is sorted
   * in place and the same list is returned.
   */
  method BubbleSort(a: array<int>) returns (r: array<int>)
    modifies a
    ensures r == a
    ensures Sorted(a[..])
    ensures multiset(a[..]) == multiset(old(a[..]))
  {
    var n := a.Length;
    var index := 1;
    while index < n
      invariant 1 <= index && (n > 0 ==> index <= n)
      invariant multiset(a[..]) == multiset(old(a[..]))
      // the last `index - 1` positions hold the largest elements, in their final order
      invariant SortedFrom(a[..], n - index + 1)
      invariant Split(a[..], n - index + 1)
    {
      ghost var before := a[..];
      BubblePass(a, n - index);
      PassGrowsSortedSuffix(before, a[..], n - index);
      index := index + 1;
    }
    return a;
  }
}
