/**
 * Querysets as ordered sequences of rows. `Keep` is `QuerySet.filter`, which
 * narrows a queryset without reordering it; `Desc` reads a table in
 * descending key order, which is how the default orderings of the messenger
 * models are realised (see `Store.Tables.Valid`).
 */
module Querysets {

  /** `QuerySet.filter(p)`: the rows of `s` satisfying `p`, in their original order. */
  function Keep<T>(s: seq<T>, p: T -> bool): (r: seq<T>)
    ensures |r| <= |s|
    ensures forall i :: 0 <= i < |r| ==> p(r[i])
  {
    if s == [] then [] else (if p(s[0]) then [s[0]] else []) + Keep(s[1..], p)
  }

  /** `if on: qs = qs.filter(p)`: a filter applied only when its parameter is present. */
  function KeepIf<T(==,!new)>(s: seq<T>, on: bool, p: T -> bool): (r: seq<T>)
    ensures forall x :: x in r <==> x in s && (on ==> p(x))
    ensures IsSubsequence(r, s)
    ensures !on ==> r == s
  {
    KeepMembers(s, p);
    KeepIsSubsequence(s, p);
    IsSubsequenceOfItself(s);
    if on then Keep(s, p) else s
  }

  /** `r` is `s` with some rows dropped: nothing added, nothing reordered. */
  predicate IsSubsequence<T(==)>(r: seq<T>, s: seq<T>)
    decreases |s|
  {
    r == [] || (s != [] && if r[0] == s[0] then IsSubsequence(r[1..], s[1..]) else IsSubsequence(r, s[1..]))
  }

  /** The rows of `s` in strictly decreasing order of `key`. */
  ghost predicate StrictlyDescending<T>(s: seq<T>, key: T -> int) {
    forall i, j :: 0 <= i < j < |s| ==> key(s[i]) > key(s[j])
  }

  /** The values of table `m` whose keys are below `n`, largest key first. */
  function Desc<T>(m: map<nat, T>, n: nat): seq<T>
    decreases n
  {
    if n == 0 then [] else (if n - 1 in m then [m[n - 1]] else []) + Desc(m, n - 1)
  }

  /** The keys of `m` below `n` whose rows satisfy `p`. */
  ghost function KeysBelow<T>(m: map<nat, T>, n: nat, p: T -> bool): set<nat> {
    set k | k in m && k < n && p(m[k])
  }

  lemma {:induction false} KeepMembers<T>(s: seq<T>, p: T -> bool)
    ensures forall x :: x in Keep(s, p) <==> x in s && p(x)
  {
    if s != [] {
      KeepMembers(s[1..], p);
      assert forall x :: x in s <==> x == s[0] || x in s[1..];
    }
  }

  /** Filtering never adds or reorders rows. */
  lemma {:induction false} KeepIsSubsequence<T>(s: seq<T>, p: T -> bool)
    ensures IsSubsequence(Keep(s, p), s)
    decreases |s|
  {
    if s != [] {
      KeepIsSubsequence(s[1..], p);
      var r := Keep(s, p);
      if p(s[0]) {
        assert r[0] == s[0] && r[1..] == Keep(s[1..], p);
      } else {
        assert r == Keep(s[1..], p);
        assert r != [] ==> r[0] != s[0];
      }
    }
  }

  /** Every queryset is a subsequence of itself. */
  lemma {:induction false} IsSubsequenceOfItself<T>(s: seq<T>)
    ensures IsSubsequence(s, s)
    decreases |s|
  {
    if s != [] {
      IsSubsequenceOfItself(s[1..]);
    }
  }

  /** Dropping the first row of a subsequence leaves a subsequence. */
  lemma {:induction false} IsSubsequenceDropFirst<T>(r: seq<T>, s: seq<T>)
    requires r != [] && IsSubsequence(r, s)
    ensures IsSubsequence(r[1..], s)
    decreases |s|, 1
  {
    if r[0] == s[0] {
      IsSubsequenceExtend(r[1..], s);
    } else {
      IsSubsequenceDropFirst(r, s[1..]);
      IsSubsequenceExtend(r[1..], s);
    }
  }

  /** A subsequence of the tail of `s` is a subsequence of `s`. */
  lemma {:induction false} IsSubsequenceExtend<T>(r: seq<T>, s: seq<T>)
    requires s != [] && IsSubsequence(r, s[1..])
    ensures IsSubsequence(r, s)
    decreases |s|, 0
  {
    if r != [] && r[0] == s[0] {
      IsSubsequenceDropFirst(r, s[1..]);
    }
  }

  /** Filters applied one after another still only drop rows. */
  lemma {:induction false} IsSubsequenceTransitive<T>(a: seq<T>, b: seq<T>, c: seq<T>)
    requires IsSubsequence(a, b) && IsSubsequence(b, c)
    ensures IsSubsequence(a, c)
    decreases |c|
  {
    if a != [] {
      if b[0] == c[0] {
        if a[0] == b[0] {
          IsSubsequenceTransitive(a[1..], b[1..], c[1..]);
        } else {
          IsSubsequenceTransitive(a, b[1..], c[1..]);
        }
      } else {
        IsSubsequenceTransitive(a, b, c[1..]);
        if a[0] == c[0] {
          IsSubsequenceDropFirst(a, c[1..]);
        }
      }
    }
  }

  /** A bound on `key` over a queryset holds over each of its subsequences. */
  lemma {:induction false} SubsequenceBounded<T>(r: seq<T>, s: seq<T>, key: T -> int, b: int)
    requires IsSubsequence(r, s)
    requires forall i :: 0 <= i < |s| ==> key(s[i]) < b
    ensures forall i :: 0 <= i < |r| ==> key(r[i]) < b
    decreases |s|
  {
    if r != [] {
      if r[0] == s[0] {
        SubsequenceBounded(r[1..], s[1..], key, b);
        assert forall i :: 1 <= i < |r| ==> r[i] == r[1..][i - 1];
      } else {
        SubsequenceBounded(r, s[1..], key, b);
      }
    }
  }

  /** Dropping rows keeps a queryset in its order. */
  lemma {:induction false} SubsequenceKeepsOrder<T>(r: seq<T>, s: seq<T>, key: T -> int)
    requires IsSubsequence(r, s) && StrictlyDescending(s, key)
    ensures StrictlyDescending(r, key)
    decreases |s|
  {
    if r != [] {
      if r[0] == s[0] {
        SubsequenceKeepsOrder(r[1..], s[1..], key);
        SubsequenceBounded(r[1..], s[1..], key, key(s[0]));
        assert forall i :: 1 <= i < |r| ==> r[i] == r[1..][i - 1];
      } else {
        SubsequenceKeepsOrder(r, s[1..], key);
      }
    }
  }

  /** Filtering a queryset with one more row in front: that row, if it passes, then the rest filtered. */
  lemma KeepPrepend<T>(x: T, s: seq<T>, p: T -> bool)
    ensures Keep([x] + s, p) == (if p(x) then [x] else []) + Keep(s, p)
  {
    assert ([x] + s)[1..] == s;
  }

  /** A filter that every row passes leaves the queryset as it is. */
  lemma {:induction false} KeepEverything<T>(s: seq<T>, p: T -> bool)
    requires forall i :: 0 <= i < |s| ==> p(s[i])
    ensures Keep(s, p) == s
  {
    if s != [] {
      KeepEverything(s[1..], p);
    }
  }

  /** A filter that no row passes leaves nothing. */
  lemma {:induction false} KeepNothing<T>(s: seq<T>, p: T -> bool)
    requires forall i :: 0 <= i < |s| ==> !p(s[i])
    ensures Keep(s, p) == []
  {
    if s != [] {
      KeepNothing(s[1..], p);
    }
  }

  /** A bound on `key` over a queryset holds over every filtered queryset. */
  lemma {:induction false} KeepBounded<T>(s: seq<T>, p: T -> bool, key: T -> int, b: int)
    requires forall i :: 0 <= i < |s| ==> key(s[i]) < b
    ensures forall i :: 0 <= i < |Keep(s, p)| ==> key(Keep(s, p)[i]) < b
  {
    if s != [] {
      KeepBounded(s[1..], p, key, b);
    }
  }

  /** Filtering keeps a queryset in its order. */
  lemma {:induction false} KeepKeepsOrder<T>(s: seq<T>, p: T -> bool, key: T -> int)
    requires StrictlyDescending(s, key)
    ensures StrictlyDescending(Keep(s, p), key)
  {
    if s != [] {
      KeepKeepsOrder(s[1..], p, key);
      KeepBounded(s[1..], p, key, key(s[0]));
    }
  }

  /** `Desc` reads exactly the rows whose keys are below `n`. */
  lemma {:induction false} DescMembers<T>(m: map<nat, T>, n: nat)
    ensures forall x :: x in Desc(m, n) <==> exists k :: k in m && k < n && m[k] == x
  {
    if n > 0 {
      DescMembers(m, n - 1);
    }
  }

  /** A bound on `key` over the rows with keys below `n` holds over `Desc(m, n)`. */
  lemma {:induction false} DescBounded<T>(m: map<nat, T>, n: nat, key: T -> int, b: int)
    requires forall k :: k in m && k < n ==> key(m[k]) < b
    ensures forall i :: 0 <= i < |Desc(m, n)| ==> key(Desc(m, n)[i]) < b
  {
    if n > 0 {
      DescBounded(m, n - 1, key, b);
    }
  }

  /** When later keys carry larger `key` values, `Desc` lists rows by decreasing `key`. */
  lemma {:induction false} DescOrdered<T>(m: map<nat, T>, n: nat, key: T -> int)
    requires forall a, b :: a in m && b in m && a < b ==> key(m[a]) < key(m[b])
    ensures StrictlyDescending(Desc(m, n), key)
  {
    if n > 0 {
      DescOrdered(m, n - 1, key);
      if n - 1 in m {
        DescBounded(m, n - 1, key, key(m[n - 1]));
      }
    }
  }

  /** Counting a filtered table read gives the number of matching keys. */
  lemma {:induction false} DescCount<T>(m: map<nat, T>, n: nat, p: T -> bool)
    ensures |Keep(Desc(m, n), p)| == |KeysBelow(m, n, p)|
  {
    if n == 0 {
      assert KeysBelow(m, n, p) == {};
    } else {
      DescCount(m, n - 1, p);
      var rest := Desc(m, n - 1);
      if n - 1 in m {
        assert Desc(m, n) == [m[n - 1]] + rest;
        assert ([m[n - 1]] + rest)[1..] == rest;
        if p(m[n - 1]) {
          assert KeysBelow(m, n, p) == KeysBelow(m, n - 1, p) + {n - 1};
        } else {
          assert KeysBelow(m, n, p) == KeysBelow(m, n - 1, p);
        }
      } else {
        assert Desc(m, n) == rest;
        assert KeysBelow(m, n, p) == KeysBelow(m, n - 1, p);
      }
    }
  }
}
