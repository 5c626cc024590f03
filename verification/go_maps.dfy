/**
 * What the store relies on from Go's built-in map: indexing yields the
 * zero value for an absent key, and `range` visits every key exactly once
 * in an order the language leaves unspecified.
 */
module GoMaps {
  import opened Sequences

  /** `m[k]` in Go: the stored value, or the type's zero value when absent. */
  function Lookup<T>(m: map<string, T>, k: string, zero: T): (v: T)
    ensures k in m ==> v == m[k]
    ensures k !in m ==> v == zero
  {
    if k in m then m[k] else zero
  }

  /** `s` lists every element of `keys` exactly once, in some order. */
  ghost predicate IsEnumeration(s: seq<string>, keys: set<string>) {
    Distinct(s) && forall k :: k in s <==> k in keys
  }

  /** A `range` over a map: some enumeration of its keys. The choice of the
      next key is left open, as the Go runtime leaves it open. */
  method Enumerate<T>(m: map<string, T>) returns (s: seq<string>)
    ensures IsEnumeration(s, m.Keys)
  {
    s := [];
    var rest := m.Keys;
    while rest != {}
      invariant rest <= m.Keys
      invariant Distinct(s)
      invariant forall k :: k in s <==> k in m.Keys && k !in rest
      decreases rest
    {
      var k :| k in rest;
      s := s + [k];
      rest := rest - {k};
    }
  }

  /** An enumeration is exactly as long as the set it enumerates. */
  lemma {:induction false} EnumerationLength(s: seq<string>, keys: set<string>)
    requires IsEnumeration(s, keys)
    ensures |s| == |keys|
  {
    if s == [] {
      assert forall k :: k !in keys;
    } else {
      var rest := keys - {s[0]};
      forall k ensures k in s[1..] <==> k in rest {
        if k in s[1..] {
          var i :| 1 <= i < |s| && s[i] == k;
          assert s[0] != s[i];
        }
        if k in rest {
          assert k in s;
          var i :| 0 <= i < |s| && s[i] == k;
          assert i != 0;
          assert s[1..][i - 1] == k;
        }
      }
      EnumerationLength(s[1..], rest);
    }
  }

  /** A rearranged enumeration is still an enumeration of the same set. */
  lemma PermutationKeepsEnumeration(s: seq<string>, t: seq<string>, keys: set<string>)
    requires IsEnumeration(s, keys) && multiset(t) == multiset(s)
    ensures IsEnumeration(t, keys)
  {
    PermutationKeepsDistinct(s, t);
    forall k ensures k in t <==> k in keys {
      assert k in t <==> k in multiset(t);
      assert k in s <==> k in multiset(s);
    }
  }

  /** Two enumerations of the same set are rearrangements of each other. */
  lemma EnumerationsArePermutations(s: seq<string>, t: seq<string>, keys: set<string>)
    requires IsEnumeration(s, keys) && IsEnumeration(t, keys)
    ensures multiset(s) == multiset(t)
  {
    forall x ensures multiset(s)[x] == multiset(t)[x] {
      DistinctMultiplicity(s, x);
      DistinctMultiplicity(t, x);
    }
  }
}
