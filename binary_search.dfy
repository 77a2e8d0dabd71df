/** The recursive binary search of the API package, meant to find the leftmost occurrence of a value. */
module Searching {
  import opened Ordering

  /** `i` is the smallest index holding `x`, or -1 when `x` does not occur. */
  predicate IsLeftmost(a: seq<int>, x: int, i: int) {
    if x in a then 0 <= i < |a| && a[i] == x && forall j :: 0 <= j < i ==> a[j] != x
    else i == -1
  }

  /** Outside `[left, right)` every element is known to be smaller or, to the right, larger than `x`. */
  predicate Brackets(a: seq<int>, x: int, left: nat, right: nat) {
    && (forall i :: 0 <= i < left && i < |a| ==> a[i] < x)
    && (forall i :: right <= i < |a| ==> x < a[i])
  }

  /**
   * The `for` loop of `binary_search`: from `index` down to 1, the first
   * position whose left neighbour is smaller, or -1 when the loop runs out.
   */
  function FirstRise(a: seq<int>, index: nat): (r: int)
    requires index < |a|
    ensures r == -1 || (1 <= r <= index && a[r - 1] < a[r])
    ensures forall j :: r < j <= index && 1 <= j ==> !(a[j - 1] < a[j])
    decreases index
  {
    if index == 0 then -1
    else if a[index - 1] < a[index] then index
    else FirstRise(a, index - 1)
  }

  /**
   * `binary_search(array, lookup, left, right)`. Its shortcut returns 0 when
   * `array[0]` holds the value; when the middle holds it, the `for` loop walks
   * down to the first rise, and when it finds none the search goes on to the
   * right half. On a sorted array bracketed by `[left, right)` the answer is
   * the leftmost occurrence, or -1.
   */
  function BinarySearch(a: seq<int>, lookup: int, left: nat, right: nat): (r: int)
    requires right <= |a|
    ensures -1 <= r < |a|
    ensures right <= left ==> r == -1
    ensures Sorted(a) && Brackets(a, lookup, left, right) ==> IsLeftmost(a, lookup, r)
    decreases right - left
  {
    if right <= left then
      NothingOutsideBrackets(a, lookup, left, right);
      -1
    else
      var middle := (left + right) / 2;
      if lookup == a[0] then 0
      else if a[middle] == lookup && FirstRise(a, middle) != -1 then
        SortedRiseIsLeftmost(a, lookup, middle, FirstRise(a, middle));
        FirstRise(a, middle)
      else if a[middle] == lookup then
        SortedWithoutRise(a, lookup, middle);
        BinarySearch(a, lookup, middle + 1, right)
      else if lookup < a[middle] then
        NarrowLeft(a, lookup, left, right, middle);
        BinarySearch(a, lookup, left, middle)
      else
        NarrowRight(a, lookup, left, right, middle);
        BinarySearch(a, lookup, middle + 1, right)
  }

  /** An empty bracket leaves no room for `x`. */
  lemma NothingOutsideBrackets(a: seq<int>, x: int, left: nat, right: nat)
    requires right <= left
    ensures Brackets(a, x, left, right) ==> x !in a
  {
    if Brackets(a, x, left, right) {
      forall i | 0 <= i < |a|
        ensures a[i] != x
      {
        assert i < left || right <= i;
      }
    }
  }

  /** In a sorted array, a middle element above `x` moves the right bound down to it. */
  lemma NarrowLeft(a: seq<int>, x: int, left: nat, right: nat, middle: nat)
    requires left <= middle < right <= |a|
    ensures Sorted(a) && Brackets(a, x, left, right) && x < a[middle] ==> Brackets(a, x, left, middle)
  {
    if Sorted(a) && Brackets(a, x, left, right) && x < a[middle] {
      forall i | middle <= i < |a|
        ensures x < a[i]
      {
        assert a[middle] <= a[i];
      }
    }
  }

  /** In a sorted array, a middle element below `x` moves the left bound past it. */
  lemma NarrowRight(a: seq<int>, x: int, left: nat, right: nat, middle: nat)
    requires left <= middle < right <= |a|
    ensures Sorted(a) && Brackets(a, x, left, right) && a[middle] < x ==> Brackets(a, x, middle + 1, right)
  {
    if Sorted(a) && Brackets(a, x, left, right) && a[middle] < x {
      forall i | 0 <= i <= middle
        ensures a[i] < x
      {
        assert a[i] <= a[middle];
      }
    }
  }

  /** In a sorted array, the first rise below a position holding `x` is where `x` begins. */
  lemma SortedRiseIsLeftmost(a: seq<int>, x: int, middle: nat, index: nat)
    requires middle < |a| && a[middle] == x && a[0] != x
    requires 1 <= index <= middle && a[index - 1] < a[index]
    requires forall j :: index < j <= middle ==> !(a[j - 1] < a[j])
    ensures Sorted(a) ==> IsLeftmost(a, x, index)
  {
    if Sorted(a) {
      if a[index] != x {
        StepRises(a, index, middle);
      }
      assert forall j :: 0 <= j < index ==> a[j] <= a[index - 1] < x;
    }
  }

  /** Going up from a smaller value to a larger one, some neighbouring pair rises. */
  lemma {:induction false} StepRises(a: seq<int>, lo: nat, hi: nat)
    requires lo <= hi < |a| && a[lo] < a[hi]
    ensures exists j :: lo < j <= hi && a[j - 1] < a[j]
    decreases hi - lo
  {
    if !(a[hi - 1] < a[hi]) {
      StepRises(a, lo, hi - 1);
    }
  }

  /** If the value at `middle` differs from `a[0]` yet nothing rises below it, the array is not sorted. */
  lemma SortedWithoutRise(a: seq<int>, x: int, middle: nat)
    requires middle < |a| && a[middle] == x && a[0] != x
    requires forall j :: 1 <= j <= middle ==> !(a[j - 1] < a[j])
    ensures !Sorted(a)
  {
    if Sorted(a) {
      StepRises(a, 0, middle);
    }
  }

  /** `binary_search(array, lookup, 0, len(array))`: on a sorted array, the leftmost occurrence or -1. */
  function SearchAll(a: seq<int>, lookup: int): (r: int)
    ensures -1 <= r < |a|
    ensures Sorted(a) ==> IsLeftmost(a, lookup, r)
  {
    BinarySearch(a, lookup, 0, |a|)
  }

  /** The module script's search: in its sorted example list the first 3 sits at index 4. */
  lemma SearchExample()
    ensures SearchAll([0, 1, 2, 2, 3, 3, 3, 3, 3, 4, 4, 4, 5, 6, 7, 8, 9], 3) == 4
  {
    var a := [0, 1, 2, 2, 3, 3, 3, 3, 3, 4, 4, 4, 5, 6, 7, 8, 9];
    assert a[4] == 3;
    assert forall j :: 0 <= j < 4 ==> a[j] < 3;
    SortedByNeighbours(a);
  }
}
