/** The merge sort of the API package, which merges into fresh arrays. */
module MergeSorting {
  import opened Ordering

  /**
   * The merge of `merge_sort` from positions `l` of `xs` and `r` of `ys` on.
   * While both halves have elements the smaller head is taken, the left one
   * on ties; once one half is used up the rest of the other follows.
   */
  function MergedFrom(xs: seq<int>, ys: seq<int>, l: nat, r: nat): (m: seq<int>)
    requires l <= |xs| && r <= |ys|
    ensures |m| == |xs| - l + |ys| - r
    decreases |xs| - l + |ys| - r
  {
    if l == |xs| && r == |ys| then []
    else if r == |ys| || (l < |xs| && xs[l] <= ys[r]) then [xs[l]] + MergedFrom(xs, ys, l + 1, r)
    else [ys[r]] + MergedFrom(xs, ys, l, r + 1)
  }

  /** The merge of two whole halves. */
  function Merged(xs: seq<int>, ys: seq<int>): (m: seq<int>)
    ensures |m| == |xs| + |ys|
  {
    MergedFrom(xs, ys, 0, 0)
  }

  lemma SuffixMultiset(s: seq<int>, k: nat)
    requires k < |s|
    ensures multiset(s[k..]) == multiset{s[k]} + multiset(s[k + 1..])
  {
    assert s[k..] == [s[k]] + s[k + 1..];
  }

  lemma ConsMultiset(x: int, s: seq<int>)
    ensures multiset([x] + s) == multiset{x} + multiset(s)
  {
  }

  /** Merging drops and invents nothing. */
  lemma {:induction false} MergedFromPermutation(xs: seq<int>, ys: seq<int>, l: nat, r: nat)
    requires l <= |xs| && r <= |ys|
    ensures multiset(MergedFrom(xs, ys, l, r)) == multiset(xs[l..]) + multiset(ys[r..])
    decreases |xs| - l + |ys| - r
  {
    if l == |xs| && r == |ys| {
      assert xs[l..] == [] && ys[r..] == [];
    } else if r == |ys| || (l < |xs| && xs[l] <= ys[r]) {
      MergedFromPermutation(xs, ys, l + 1, r);
      SuffixMultiset(xs, l);
      ConsMultiset(xs[l], MergedFrom(xs, ys, l + 1, r));
    } else {
      MergedFromPermutation(xs, ys, l, r + 1);
      SuffixMultiset(ys, r);
      ConsMultiset(ys[r], MergedFrom(xs, ys, l, r + 1));
    }
  }

  /** `Merged` is a permutation of its two halves. */
  lemma MergedPermutation(xs: seq<int>, ys: seq<int>)
    ensures multiset(Merged(xs, ys)) == multiset(xs) + multiset(ys)
  {
    MergedFromPermutation(xs, ys, 0, 0);
    assert xs[0..] == xs && ys[0..] == ys;
  }

  /** A lower bound of what remains of both halves bounds their merge. */
  lemma {:induction false} MergedFromBounded(xs: seq<int>, ys: seq<int>, l: nat, r: nat, b: int)
    requires l <= |xs| && r <= |ys|
    requires forall i :: l <= i < |xs| ==> b <= xs[i]
    requires forall i :: r <= i < |ys| ==> b <= ys[i]
    ensures forall i :: 0 <= i < |MergedFrom(xs, ys, l, r)| ==> b <= MergedFrom(xs, ys, l, r)[i]
    decreases |xs| - l + |ys| - r
  {
    if l == |xs| && r == |ys| {
    } else if r == |ys| || (l < |xs| && xs[l] <= ys[r]) {
      MergedFromBounded(xs, ys, l + 1, r, b);
      ConsBounded(xs[l], MergedFrom(xs, ys, l + 1, r), b);
    } else {
      MergedFromBounded(xs, ys, l, r + 1, b);
      ConsBounded(ys[r], MergedFrom(xs, ys, l, r + 1), b);
    }
  }

  lemma ConsBounded(x: int, s: seq<int>, b: int)
    requires b <= x
    requires forall i :: 0 <= i < |s| ==> b <= s[i]
    ensures forall i :: 0 <= i < |[x] + s| ==> b <= ([x] + s)[i]
  {
  }

  /** Putting a lower bound in front of a sorted sequence keeps it sorted. */
  lemma SortedCons(x: int, s: seq<int>)
    requires Sorted(s)
    requires forall i :: 0 <= i < |s| ==> x <= s[i]
    ensures Sorted([x] + s)
  {
    var t := [x] + s;
    forall i, j | 0 <= i < j < |t|
      ensures t[i] <= t[j]
    {
      if i > 0 {
        assert t[i] == s[i - 1] && t[j] == s[j - 1];
      }
    }
  }

  /** Two sorted halves merge into a sorted whole. */
  lemma {:induction false} MergedFromSorted(xs: seq<int>, ys: seq<int>, l: nat, r: nat)
    requires l <= |xs| && r <= |ys|
    requires Sorted(xs) && Sorted(ys)
    ensures Sorted(MergedFrom(xs, ys, l, r))
    decreases |xs| - l + |ys| - r
  {
    if l == |xs| && r == |ys| {
    } else if r == |ys| || (l < |xs| && xs[l] <= ys[r]) {
      MergedFromSorted(xs, ys, l + 1, r);
      MergedFromBounded(xs, ys, l + 1, r, xs[l]);
      SortedCons(xs[l], MergedFrom(xs, ys, l + 1, r));
    } else {
      MergedFromSorted(xs, ys, l, r + 1);
      MergedFromBounded(xs, ys, l, r + 1, ys[r]);
      SortedCons(ys[r], MergedFrom(xs, ys, l, r + 1));
    }
  }

  /** What `merge_sort` computes: halves at `len // 2`, sorted and merged; short lists as they are. */
  function MergeSortOf(s: seq<int>): (r: seq<int>)
    decreases |s|
  {
    if |s| < 2 then s else Merged(MergeSortOf(s[..|s| / 2]), MergeSortOf(s[|s| / 2..]))
  }

  /** `merge_sort` sorts: its result is ordered and a permutation of its input. */
  lemma {:induction false} MergeSortOfSorts(s: seq<int>)
    ensures Sorted(MergeSortOf(s))
    ensures multiset(MergeSortOf(s)) == multiset(s)
    decreases |s|
  {
    if |s| >= 2 {
      var mid := |s| / 2;
      var xs, ys := MergeSortOf(s[..mid]), MergeSortOf(s[mid..]);
      MergeSortOfSorts(s[..mid]);
      MergeSortOfSorts(s[mid..]);
      MergedFromSorted(xs, ys, 0, 0);
      MergedPermutation(xs, ys);
      SplitMultiset(s, mid);
    }
  }

  lemma SplitMultiset(s: seq<int>, mid: nat)
    requires mid <= |s|
    ensures multiset(s) == multiset(s[..mid]) + multiset(s[mid..])
  {
    assert s == s[..mid] + s[mid..];
  }

  /** `done` is what the merge of `xs` and `ys` puts before the merge from `l` and `r` on. */
  predicate MergeProgress(xs: seq<int>, ys: seq<int>, l: nat, r: nat, done: seq<int>)
    requires l <= |xs| && r <= |ys|
  {
    done + MergedFrom(xs, ys, l, r) == Merged(xs, ys)
  }

  /** Taking the left head extends the merged prefix. */
  lemma TakeLeft(done: seq<int>, xs: seq<int>, ys: seq<int>, l: nat, r: nat)
    requires l < |xs| && r <= |ys| && (r == |ys| || xs[l] <= ys[r])
    requires MergeProgress(xs, ys, l, r, done)
    ensures MergeProgress(xs, ys, l + 1, r, done + [xs[l]])
  {
    AppendAssociates(done, [xs[l]], MergedFrom(xs, ys, l + 1, r));
  }

  /** Taking the right head extends the merged prefix. */
  lemma TakeRight(done: seq<int>, xs: seq<int>, ys: seq<int>, l: nat, r: nat)
    requires l <= |xs| && r < |ys| && (l == |xs| || !(xs[l] <= ys[r]))
    requires MergeProgress(xs, ys, l, r, done)
    ensures MergeProgress(xs, ys, l, r + 1, done + [ys[r]])
  {
    AppendAssociates(done, [ys[r]], MergedFrom(xs, ys, l, r + 1));
  }

  lemma AppendAssociates(a: seq<int>, b: seq<int>, c: seq<int>)
    ensures a + (b + c) == (a + b) + c
  {
  }

  /** The first `|done|` slots of `m` hold `done`. */
  predicate Filled(m: seq<int>, done: seq<int>) {
    |done| <= |m| && forall k :: 0 <= k < |done| ==> m[k] == done[k]
  }

  /** Writing the next slot extends what is filled. */
  lemma FillStep(m: seq<int>, done: seq<int>, v: int)
    requires Filled(m, done) && |done| < |m|
    ensures Filled(m[|done| := v], done + [v])
  {
  }

  /** One write `sorted_array[sort] = value` into the next free slot. */
  method Put(merged: array<int>, sort: nat, value: int, ghost done: seq<int>)
    requires |done| == sort < merged.Length && Filled(merged[..], done)
    modifies merged
    ensures Filled(merged[..], done + [value])
  {
    FillStep(merged[..], done, value);
    merged[sort] := value;
    assert merged[..] == old(merged[..])[sort := value];
  }

  /**
   * The three `while` loops of `merge_sort`: fill a fresh array of
   * `len(left) + len(right)` zeros slot by slot, first from both halves, then
   * from what remains of the left half, then of the right. The halves are
   * only read, so they are values here.
   */
  method Merge(left: seq<int>, right: seq<int>) returns (merged: array<int>)
    ensures merged.Length == |left| + |right|
    ensures merged[..] == Merged(left, right)
  {
    merged := new int[|left| + |right|](_ => 0);
    var sort, l, r := 0, 0, 0;
    ghost var done: seq<int> := [];
    while l < |left| && r < |right|
      invariant 0 <= l <= |left| && 0 <= r <= |right| && sort == l + r
      invariant |done| == sort && Filled(merged[..], done)
      invariant MergeProgress(left, right, l, r, done)
    {
      if left[l] <= right[r] {
        TakeLeft(done, left, right, l, r);
        Put(merged, sort, left[l], done);
        done := done + [left[l]];
        l := l + 1;
      } else {
        TakeRight(done, left, right, l, r);
        Put(merged, sort, right[r], done);
        done := done + [right[r]];
        r := r + 1;
      }
      sort := sort + 1;
    }
    while l < |left|
      invariant 0 <= l <= |left| && 0 <= r <= |right| && sort == l + r
      invariant l < |left| ==> r == |right|
      invariant |done| == sort && Filled(merged[..], done)
      invariant MergeProgress(left, right, l, r, done)
    {
      TakeLeft(done, left, right, l, r);
      Put(merged, sort, left[l], done);
      done := done + [left[l]];
      l := l + 1;
      sort := sort + 1;
    }
    while r < |right|
      invariant 0 <= l <= |left| && 0 <= r <= |right| && sort == l + r
      invariant l == |left|
      invariant |done| == sort && Filled(merged[..], done)
      invariant MergeProgress(left, right, l, r, done)
    {
      TakeRight(done, left, right, l, r);
      Put(merged, sort, right[r], done);
      done := done + [right[r]];
      r := r + 1;
      sort := sort + 1;
    }
    assert merged[..] == done;
  }

  /**
   * `merge_sort`: a list shorter than two is returned itself; otherwise the
   * halves are copied out, sorted recursively and merged into a new array.
   * The input is not changed.
   */
  method MergeSort(a: array<int>) returns (r: array<int>)
    ensures a.Length < 2 ==> r == a
    ensures r[..] == MergeSortOf(a[..])
    ensures Sorted(r[..]) && multiset(r[..]) == multiset(a[..])
    decreases a.Length
  {
    MergeSortOfSorts(a[..]);
    if a.Length < 2 {
      return a;
    }
    var mid := a.Length / 2;
    var leftHalf := new int[mid](i requires 0 <= i < mid reads a => a[i]);
    var rightHalf := new int[a.Length - mid](i requires 0 <= i < a.Length - mid reads a => a[mid + i]);
    assert leftHalf[..] == a[..][..mid];
    assert rightHalf[..] == a[..][mid..];
    var leftSorted := MergeSort(leftHalf);
    var rightSorted := MergeSort(rightHalf);
    r := Merge(leftSorted[..], rightSorted[..]);
  }
}
