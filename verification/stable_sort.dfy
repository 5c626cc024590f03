/**
 * The stable sort that `sort.Stable` provides to the iterator engine, as a
 * verified insertion sort over sequences, with the three properties the
 * engine needs: the result is a permutation of the input, it is sorted
 * under the caller's less-than, and elements the less-than cannot tell
 * apart keep their input order. The last lemma shows that these three
 * properties pin the result down completely.
 */
module StableSort {
  import opened Sequences

  /** `less` is a strict weak order: asymmetric, and whenever a < c every b
      lies above a or below c. This is what `sort.Stable` expects of it. */
  ghost predicate StrictWeakOrder<E(!new)>(less: (E, E) -> bool) {
    && (forall a, b :: less(a, b) ==> !less(b, a))
    && (forall a, b, c :: less(a, c) ==> less(a, b) || less(b, c))
  }

  /** No element is less than itself; a consequence of asymmetry. */
  ghost predicate Irreflexive<E(!new)>(less: (E, E) -> bool) {
    forall a :: !less(a, a)
  }

  /** Neither element is less than the other. */
  predicate Equivalent<E>(less: (E, E) -> bool, a: E, b: E) {
    !less(a, b) && !less(b, a)
  }

  /** `less` tells every two distinct elements apart. */
  ghost predicate TellsApart<E(!new)>(less: (E, E) -> bool) {
    forall a, b :: Equivalent(less, a, b) ==> a == b
  }

  /** No later element is less than an earlier one. */
  ghost predicate Sorted<E>(less: (E, E) -> bool, s: seq<E>) {
    forall i, j :: 0 <= i < j < |s| ==> !less(s[j], s[i])
  }

  /** The elements of `s` equivalent to `p`, in their order in `s`. */
  function Class<E>(less: (E, E) -> bool, p: E, s: seq<E>): (r: seq<E>)
    ensures |r| <= |s|
  {
    if s == [] then []
    else (if Equivalent(less, s[0], p) then [s[0]] else []) + Class(less, p, s[1..])
  }

  /** `r` is a stable sort of `s`: a sorted permutation in which every class
      of equivalent elements appears in its order in `s`. */
  ghost predicate IsStableSortOf<E(!new)>(less: (E, E) -> bool, s: seq<E>, r: seq<E>) {
    && multiset(r) == multiset(s)
    && Sorted(less, r)
    && forall p :: Class(less, p, r) == Class(less, p, s)
  }

  /** Places `x` in front of the first element of `s` that is not less than it. */
  function InsertFront<E>(less: (E, E) -> bool, x: E, s: seq<E>): (r: seq<E>)
    ensures |r| == |s| + 1
    ensures multiset(r) == multiset(s) + multiset{x}
  {
    if s == [] then [x]
    else
      assert s == [s[0]] + s[1..];
      if less(s[0], x) then [s[0]] + InsertFront(less, x, s[1..])
      else [x] + s
  }

  /** Insertion sort: the head is inserted into the sorted tail ahead of
      every element it is equivalent to, which is what makes it stable. */
  function Sort<E>(less: (E, E) -> bool, s: seq<E>): (r: seq<E>)
    ensures multiset(r) == multiset(s)
    ensures |r| == |s|
  {
    if s == [] then []
    else
      assert s == [s[0]] + s[1..];
      InsertFront(less, s[0], Sort(less, s[1..]))
  }

  lemma {:induction false} InsertFrontSorted<E(!new)>(less: (E, E) -> bool, x: E, s: seq<E>)
    requires StrictWeakOrder(less) && Sorted(less, s)
    ensures Sorted(less, InsertFront(less, x, s))
  {
    var r := InsertFront(less, x, s);
    if s == [] {
    } else if less(s[0], x) {
      var t := InsertFront(less, x, s[1..]);
      InsertFrontSorted(less, x, s[1..]);
      forall j | 0 <= j < |t| ensures !less(t[j], s[0]) {
        assert t[j] in multiset(t);
        if t[j] != x {
          assert t[j] in multiset(s[1..]);
          var k :| 0 <= k < |s[1..]| && s[1..][k] == t[j];
          assert s[k + 1] == t[j];
        }
      }
      assert r == [s[0]] + t;
    } else {
      assert r == [x] + s;
      forall j | 0 <= j < |s| ensures !less(s[j], x) {
        if j > 0 {
          assert !less(s[j], s[0]);
        }
      }
    }
  }

  lemma {:induction false} SortSorted<E(!new)>(less: (E, E) -> bool, s: seq<E>)
    requires StrictWeakOrder(less)
    ensures Sorted(less, Sort(less, s))
  {
    if s != [] {
      SortSorted(less, s[1..]);
      InsertFrontSorted(less, s[0], Sort(less, s[1..]));
    }
  }

  /** The class of `p` in `[a] + t`: `a` if it belongs, then the class in `t`. */
  lemma ClassCons<E>(less: (E, E) -> bool, p: E, a: E, t: seq<E>)
    ensures Class(less, p, [a] + t) == (if Equivalent(less, a, p) then [a] else []) + Class(less, p, t)
  {
    assert ([a] + t)[0] == a && ([a] + t)[1..] == t;
  }

  /** `x` passes nothing equivalent to `p` when it is itself equivalent to `p`. */
  ghost predicate PassesNoPeer<E>(less: (E, E) -> bool, p: E, x: E, s: seq<E>) {
    Equivalent(less, x, p) ==> forall i | 0 <= i < |s| && less(s[i], x) :: !Equivalent(less, s[i], p)
  }

  /** Inserting `x` adds it to its own class only, and at the front, as long
      as nothing it passes is equivalent to `p` when `x` is. */
  lemma {:induction false} InsertFrontClass<E>(less: (E, E) -> bool, p: E, x: E, s: seq<E>)
    requires PassesNoPeer(less, p, x, s)
    ensures Class(less, p, InsertFront(less, x, s))
         == (if Equivalent(less, x, p) then [x] else []) + Class(less, p, s)
  {
    if s == [] {
      ClassCons(less, p, x, []);
    } else if less(s[0], x) {
      PassesNoPeerTail(less, p, x, s);
      InsertFrontClass(less, p, x, s[1..]);
      InsertFrontClassPass(less, p, x, s);
    } else {
      InsertFrontStops(less, x, s);
      ClassCons(less, p, x, s);
    }
  }

  lemma PassesNoPeerTail<E>(less: (E, E) -> bool, p: E, x: E, s: seq<E>)
    requires s != [] && PassesNoPeer(less, p, x, s)
    ensures PassesNoPeer(less, p, x, s[1..])
    ensures less(s[0], x) && Equivalent(less, x, p) ==> !Equivalent(less, s[0], p)
  {
    if Equivalent(less, x, p) {
      forall i | 0 <= i < |s[1..]| && less(s[1..][i], x) ensures !Equivalent(less, s[1..][i], p) {
        assert s[1..][i] == s[i + 1];
      }
    }
  }

  /** The step of `InsertFrontClass` where `x` passes the head of `s`. */
  lemma InsertFrontClassPass<E>(less: (E, E) -> bool, p: E, x: E, s: seq<E>)
    requires s != [] && less(s[0], x)
    requires Equivalent(less, x, p) ==> !Equivalent(less, s[0], p)
    requires Class(less, p, InsertFront(less, x, s[1..]))
          == (if Equivalent(less, x, p) then [x] else []) + Class(less, p, s[1..])
    ensures Class(less, p, InsertFront(less, x, s))
         == (if Equivalent(less, x, p) then [x] else []) + Class(less, p, s)
  {
    InsertFrontPasses(less, x, s);
    ClassStep(less, p, s[0], x, InsertFront(less, x, s[1..]), s[1..]);
    assert s == [s[0]] + s[1..];
  }

  /** When the head of `s` is less than `x`, `x` is inserted after it. */
  lemma InsertFrontPasses<E>(less: (E, E) -> bool, x: E, s: seq<E>)
    requires s != [] && less(s[0], x)
    ensures InsertFront(less, x, s) == [s[0]] + InsertFront(less, x, s[1..])
  {
  }

  /** When the head of `s` is not less than `x`, `x` goes in front. */
  lemma InsertFrontStops<E>(less: (E, E) -> bool, x: E, s: seq<E>)
    requires s != [] && !less(s[0], x)
    ensures InsertFront(less, x, s) == [x] + s
  {
  }

  /** Putting `a` in front of `t` and of `u` adds the same head to both
      classes; `x` stays in front when `a` and `x` are not both in the class. */
  lemma ClassStep<E>(less: (E, E) -> bool, p: E, a: E, x: E, t: seq<E>, u: seq<E>)
    requires Equivalent(less, x, p) ==> !Equivalent(less, a, p)
    requires Class(less, p, t) == (if Equivalent(less, x, p) then [x] else []) + Class(less, p, u)
    ensures Class(less, p, [a] + t) == (if Equivalent(less, x, p) then [x] else []) + Class(less, p, [a] + u)
  {
    ClassCons(less, p, a, t);
    ClassCons(less, p, a, u);
    var c := Class(less, p, u);
    if Equivalent(less, a, p) {
      assert [] + c == c;
    } else if Equivalent(less, x, p) {
      assert [] + ([x] + c) == [x] + c;
      assert [] + c == c;
    } else {
      assert [] + c == c;
      assert [] + ([] + c) == c;
    }
  }

  lemma {:induction false} SortClass<E(!new)>(less: (E, E) -> bool, p: E, s: seq<E>)
    requires StrictWeakOrder(less)
    ensures Class(less, p, Sort(less, s)) == Class(less, p, s)
  {
    if s != [] {
      SortClass(less, p, s[1..]);
      var t := Sort(less, s[1..]);
      if Equivalent(less, s[0], p) {
        forall i | 0 <= i < |t| && less(t[i], s[0]) ensures !Equivalent(less, t[i], p) {
          if Equivalent(less, t[i], p) {
            EquivalentNotLess(less, t[i], s[0], p);
          }
        }
      }
      assert PassesNoPeer(less, p, s[0], t);
      InsertFrontClass(less, p, s[0], t);
    }
  }

  /** Under a strict weak order, `Sort` is a stable sort. */
  lemma SortIsStable<E(!new)>(less: (E, E) -> bool, s: seq<E>)
    requires StrictWeakOrder(less)
    ensures IsStableSortOf(less, s, Sort(less, s))
  {
    SortSorted(less, s);
    forall p ensures Class(less, p, Sort(less, s)) == Class(less, p, s) {
      SortClass(less, p, s);
    }
  }

  /** Elements equivalent to the same element are not ordered. */
  lemma EquivalentNotLess<E(!new)>(less: (E, E) -> bool, a: E, b: E, p: E)
    requires StrictWeakOrder(less)
    requires Equivalent(less, a, p) && Equivalent(less, b, p)
    ensures !less(a, b)
  {
  }

  /** Nothing in a sorted sequence is less than its first element. */
  lemma HeadIsLeast<E>(less: (E, E) -> bool, r: seq<E>, x: E)
    requires Sorted(less, r) && x in multiset(r) && !less(x, x)
    ensures r != [] && !less(x, r[0])
  {
    assert x in r;
    var i :| 0 <= i < |r| && r[i] == x;
    if i != 0 {
      assert !less(r[i], r[0]);
    }
  }

  /** Two sorted rearrangements of each other whose classes agree start with
      the same element. */
  lemma SameShapeHead<E(!new)>(less: (E, E) -> bool, r1: seq<E>, r2: seq<E>)
    requires Irreflexive(less)
    requires r1 != [] && multiset(r1) == multiset(r2)
    requires Sorted(less, r1) && Sorted(less, r2)
    requires Class(less, r1[0], r1) == Class(less, r1[0], r2)
    ensures r2 != [] && r2[0] == r1[0]
  {
    var a := r1[0];
    assert a in multiset(r1) && !less(a, a);
    HeadIsLeast(less, r2, a);
    var b := r2[0];
    assert b in multiset(r2) && !less(b, b);
    HeadIsLeast(less, r1, b);
    ClassHeads(less, r1, r2);
  }

  /** Sequences starting with elements equivalent to `r1[0]` and with the
      same class of `r1[0]` start with the same element. */
  lemma ClassHeads<E>(less: (E, E) -> bool, r1: seq<E>, r2: seq<E>)
    requires r1 != [] && r2 != []
    requires Equivalent(less, r1[0], r1[0]) && Equivalent(less, r2[0], r1[0])
    requires Class(less, r1[0], r1) == Class(less, r1[0], r2)
    ensures r2[0] == r1[0]
  {
    var a, b := r1[0], r2[0];
    assert r1 == [a] + r1[1..] && r2 == [b] + r2[1..];
    ClassCons(less, a, a, r1[1..]);
    ClassCons(less, a, b, r2[1..]);
    assert Class(less, a, r1)[0] == a;
    assert Class(less, a, r2)[0] == b;
  }

  /** Sequences with the same head and the same classes have tails with the
      same classes. */
  lemma TailClasses<E>(less: (E, E) -> bool, r1: seq<E>, r2: seq<E>)
    requires r1 != [] && r2 != [] && r1[0] == r2[0]
    requires forall p :: Class(less, p, r1) == Class(less, p, r2)
    ensures forall p :: Class(less, p, r1[1..]) == Class(less, p, r2[1..])
  {
    var a := r1[0];
    assert r1 == [a] + r1[1..] && r2 == [a] + r2[1..];
    forall p ensures Class(less, p, r1[1..]) == Class(less, p, r2[1..]) {
      ClassCons(less, p, a, r1[1..]);
      ClassCons(less, p, a, r2[1..]);
      var h := if Equivalent(less, a, p) then [a] else [];
      assert Class(less, p, r1[1..]) == Class(less, p, r1)[|h|..];
      assert Class(less, p, r2[1..]) == Class(less, p, r2)[|h|..];
    }
  }

  /** The multiset of a non-empty sequence: its head plus its tail. */
  lemma ConsMultiset<E>(r: seq<E>)
    requires r != []
    ensures multiset(r) == multiset{r[0]} + multiset(r[1..])
  {
    assert r == [r[0]] + r[1..];
  }

  /** Dropping the same head from two rearrangements of each other leaves
      two rearrangements of each other. */
  lemma MultisetTails<E>(r1: seq<E>, r2: seq<E>)
    requires r1 != [] && r2 != [] && r1[0] == r2[0]
    requires multiset(r1) == multiset(r2)
    ensures multiset(r1[1..]) == multiset(r2[1..])
  {
    ConsMultiset(r1);
    ConsMultiset(r2);
    assert multiset(r1[1..]) == multiset(r1) - multiset{r1[0]};
    assert multiset(r2[1..]) == multiset(r2) - multiset{r2[0]};
  }

  lemma SortedTail<E>(less: (E, E) -> bool, r: seq<E>)
    requires r != [] && Sorted(less, r)
    ensures Sorted(less, r[1..])
  {
  }

  /** Two sorted rearrangements of each other whose classes all agree are equal. */
  lemma {:induction false} SameShapeEqual<E(!new)>(less: (E, E) -> bool, r1: seq<E>, r2: seq<E>)
    requires Irreflexive(less)
    requires multiset(r1) == multiset(r2)
    requires Sorted(less, r1) && Sorted(less, r2)
    requires forall p :: Class(less, p, r1) == Class(less, p, r2)
    ensures r1 == r2
  {
    if r1 != [] {
      SameShapeHead(less, r1, r2);
      TailClasses(less, r1, r2);
      MultisetTails(r1, r2);
      SortedTail(less, r1);
      SortedTail(less, r2);
      SameShapeEqual(less, r1[1..], r2[1..]);
      assert r1 == [r1[0]] + r1[1..] && r2 == [r2[0]] + r2[1..];
    }
  }

  /** Stable sorting has exactly one answer, and `Sort` computes it. */
  lemma StableSortUnique<E(!new)>(less: (E, E) -> bool, s: seq<E>, r: seq<E>)
    requires StrictWeakOrder(less)
    requires IsStableSortOf(less, s, r)
    ensures r == Sort(less, s)
  {
    SortIsStable(less, s);
    assert Irreflexive(less);
    SameShapeEqual(less, r, Sort(less, s));
  }

  /** Under an order that tells every two distinct elements apart, the class
      of `p` in a sequence without repetitions is `p` alone, or nothing. */
  lemma {:induction false} ClassUnderTotalOrder<E(!new)>(less: (E, E) -> bool, p: E, s: seq<E>)
    requires StrictWeakOrder(less)
    requires TellsApart(less)
    requires Distinct(s)
    ensures Class(less, p, s) == if p in s then [p] else []
  {
    if s != [] {
      ClassUnderTotalOrder(less, p, s[1..]);
      if s[0] == p {
        assert p !in s[1..] by {
          forall i | 1 <= i < |s| ensures s[i] != p {
            assert s[0] != s[i];
          }
        }
      }
    }
  }

  /** Under such an order, sorting a sequence without repetitions has only
      one possible result. */
  lemma SortedRearrangementUnique<E(!new)>(less: (E, E) -> bool, s: seq<E>, r: seq<E>)
    requires StrictWeakOrder(less)
    requires TellsApart(less)
    requires Distinct(s)
    requires multiset(r) == multiset(s) && Sorted(less, r)
    ensures r == Sort(less, s)
  {
    PermutationKeepsDistinct(s, r);
    forall p ensures Class(less, p, r) == Class(less, p, s) {
      ClassUnderTotalOrder(less, p, s);
      ClassUnderTotalOrder(less, p, r);
      assert p in r <==> p in multiset(r);
      assert p in s <==> p in multiset(s);
    }
    StableSortUnique(less, s, r);
  }
}
