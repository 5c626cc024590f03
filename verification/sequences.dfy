/**
 * General facts about sequences without repetitions, used by the map
 * enumerations and by the sort.
 */
module Sequences {

  /** No element occurs twice in `s`. */
  ghost predicate Distinct<E>(s: seq<E>) {
    forall i, j :: 0 <= i < j < |s| ==> s[i] != s[j]
  }

  /** In a sequence without repetitions every element has multiplicity one. */
  lemma {:induction false} DistinctMultiplicity<E>(s: seq<E>, x: E)
    requires Distinct(s)
    ensures multiset(s)[x] == if x in s then 1 else 0
  {
    if s != [] {
      assert s == [s[0]] + s[1..];
      DistinctMultiplicity(s[1..], x);
      if x == s[0] {
        assert x !in s[1..] by {
          forall i | 1 <= i < |s| ensures s[i] != x {
            assert s[0] != s[i];
          }
        }
      }
    }
  }

  /** An element at two different positions has multiplicity at least two. */
  lemma RepeatedMultiplicity<E>(s: seq<E>, i: int, j: int)
    requires 0 <= i < j < |s| && s[i] == s[j]
    ensures multiset(s)[s[i]] >= 2
  {
    assert s == s[..j] + s[j..];
    assert s[i] in s[..j];
    assert s[j] in s[j..];
  }

  /** Rearranging a sequence without repetitions keeps it without repetitions. */
  lemma PermutationKeepsDistinct<E>(s: seq<E>, t: seq<E>)
    requires Distinct(s) && multiset(t) == multiset(s)
    ensures Distinct(t)
  {
    forall i, j | 0 <= i < j < |t| ensures t[i] != t[j] {
      if t[i] == t[j] {
        RepeatedMultiplicity(t, i, j);
        DistinctMultiplicity(s, t[i]);
      }
    }
  }
}
