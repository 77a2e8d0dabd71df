/** Order on sequences of integers, shared by the sorting and searching algorithms. */
module Ordering {

  /** Nondecreasing order. */
  predicate Sorted(s: seq<int>) {
    forall i, j :: 0 <= i < j < |s| ==> s[i] <= s[j]
  }

  /** A sequence whose neighbours are in order is sorted. */
  lemma {:induction false} SortedByNeighbours(s: seq<int>)
    requires forall i :: 0 < i < |s| ==> s[i - 1] <= s[i]
    ensures Sorted(s)
    decreases |s|
  {
    if |s| > 1 {
      SortedByNeighbours(s[..|s| - 1]);
      assert forall i :: 0 <= i < |s| - 1 ==> s[i] <= s[|s| - 2] by {
        assert Sorted(s[..|s| - 1]);
      }
    }
  }
}
