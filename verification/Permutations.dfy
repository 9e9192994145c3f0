/** Rearranged sequences. */
module Permutations {
  lemma {:induction false} CountsTwo<T>(s: seq<T>, i: nat, j: nat)
    requires i < j < |s| && s[i] == s[j]
    ensures multiset(s)[s[i]] >= 2
  {
    var front, rest := s[..j], s[j..];
    assert s == front + rest;
    assert front[i] == s[i] && rest[0] == s[j];
  }

  /** What occurs twice has a place besides a given one. */
  lemma {:induction false} OtherPlace<T>(s: seq<T>, a: nat) returns (b: nat)
    requires a < |s| && multiset(s)[s[a]] >= 2
    ensures b < |s| && b != a && s[b] == s[a]
  {
    var front, rest := s[..a], s[a + 1..];
    assert s == front + [s[a]] + rest;
    if s[a] in front {
      b :| 0 <= b < |front| && front[b] == s[a];
    } else {
      assert s[a] in rest;
      var c :| 0 <= c < |rest| && rest[c] == s[a];
      b := a + 1 + c;
    }
  }

  /** Two places of a permutation come from two places of the original. */
  lemma {:induction false} TwoPlaces<T>(sorted: seq<T>, items: seq<T>, i: nat, j: nat)
    requires multiset(sorted) == multiset(items) && i < j < |sorted|
    ensures exists a, b ::
      0 <= a < |items| && 0 <= b < |items| && a != b && items[a] == sorted[i] && items[b] == sorted[j]
  {
    assert sorted[i] in multiset(items) && sorted[j] in multiset(items);
    var a :| 0 <= a < |items| && items[a] == sorted[i];
    if sorted[i] != sorted[j] {
      var b :| 0 <= b < |items| && items[b] == sorted[j];
    } else {
      CountsTwo(sorted, i, j);
      var b := OtherPlace(items, a);
      assert items[b] == sorted[j];
    }
  }
}
