/**
 * The string lookups the chat filters use: `icontains` (case-insensitive
 * substring) and `iexact` (case-insensitive equality). Case folding is the
 * ASCII one; the database's Unicode folding is outside the model.
 */
module Text {

  /** Lower-case form of an ASCII letter; every other character is its own lower case. */
  function Lower(c: char): char {
    if 'A' <= c <= 'Z' then (c as int - 'A' as int + 'a' as int) as char else c
  }

  function LowerAll(s: string): string {
    seq(|s|, i requires 0 <= i < |s| => Lower(s[i]))
  }

  /** `v` occurs in `s` as one contiguous block (SQL `LIKE '%v%'`). */
  predicate Contains(s: string, v: string)
    decreases |s|
  {
    v <= s || (s != [] && Contains(s[1..], v))
  }

  /** `v` occurs in `s` starting at position `i`. */
  predicate OccursAt(s: string, v: string, i: nat) {
    i + |v| <= |s| && s[i..i + |v|] == v
  }

  /** Django's `icontains` lookup. */
  predicate IContains(s: string, v: string) {
    Contains(LowerAll(s), LowerAll(v))
  }

  /** Django's `iexact` lookup. */
  predicate IExact(s: string, v: string) {
    LowerAll(s) == LowerAll(v)
  }

  /** Contains finds a position where `v` occurs. */
  lemma {:induction false} ContainsHasPosition(s: string, v: string)
    requires Contains(s, v)
    ensures exists i: nat :: OccursAt(s, v, i)
    decreases |s|
  {
    if v <= s {
      assert OccursAt(s, v, 0);
    } else {
      ContainsHasPosition(s[1..], v);
      var i: nat :| OccursAt(s[1..], v, i);
      assert s[1..][i..i + |v|] == s[i + 1..i + 1 + |v|];
      assert OccursAt(s, v, i + 1);
    }
  }

  /** Every position where `v` occurs is found by Contains. */
  lemma {:induction false} PositionIsContained(s: string, v: string, i: nat)
    requires OccursAt(s, v, i)
    ensures Contains(s, v)
    decreases i
  {
    if i == 0 {
      assert s[..|v|] == v;
    } else {
      assert s[1..][i - 1..i - 1 + |v|] == s[i..i + |v|];
      PositionIsContained(s[1..], v, i - 1);
    }
  }

  /** An `iexact` match is always an `icontains` match. */
  lemma ExactMatchIsPartialMatch(s: string, v: string)
    requires IExact(s, v)
    ensures IContains(s, v)
  {
    assert LowerAll(v) <= LowerAll(s);
  }

  /** The converse fails: "USER" is contained in "user1" but is not equal to it. */
  lemma PartialMatchIsNotExact()
    ensures IContains("user1", "USER") && !IExact("user1", "USER")
  {
    assert LowerAll("USER") == "user";
    assert LowerAll("user1") == "user1";
    assert "user" <= "user1";
    assert |LowerAll("user1")| != |LowerAll("USER")|;
  }
}
