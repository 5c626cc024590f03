/**
 * The scenarios the repository's shared collection test describes,
 * stated for every order in which Go's map `range` might list the keys.
 */
module Scenarios {
  import opened Wrappers
  import opened Errors
  import opened GoMaps
  import StableSort
  import MemoryIter
  import MemoryStore

  /** Go's `a < b` on strings: lexicographic, character by character. */
  predicate LexLess(a: string, b: string)
    decreases |a|
  {
    if a == [] then b != []
    else if b == [] then false
    else if a[0] != b[0] then a[0] < b[0]
    else LexLess(a[1..], b[1..])
  }

  lemma {:induction false} LexIrreflexive(a: string)
    ensures !LexLess(a, a)
    decreases |a|
  {
    if a != [] {
      LexIrreflexive(a[1..]);
    }
  }

  lemma {:induction false} LexTransitive(a: string, b: string, c: string)
    requires LexLess(a, b) && LexLess(b, c)
    ensures LexLess(a, c)
    decreases |a|
  {
    if a != [] && b != [] && c != [] && a[0] == b[0] && b[0] == c[0] {
      LexTransitive(a[1..], b[1..], c[1..]);
    }
  }

  lemma {:induction false} LexTotal(a: string, b: string)
    ensures a == b || LexLess(a, b) || LexLess(b, a)
    decreases |a|
  {
    if a != [] && b != [] && a[0] == b[0] {
      LexTotal(a[1..], b[1..]);
      if a[1..] == b[1..] {
        assert a == [a[0]] + a[1..] && b == [b[0]] + b[1..];
      }
    }
  }

  /** The comparator of the shared test is a strict total order: a strict
      weak order that tells every two distinct keys apart. */
  lemma LexLessIsTotalOrder()
    ensures StableSort.StrictWeakOrder(LexLess)
    ensures StableSort.TellsApart(LexLess)
  {
    forall a, b | LexLess(a, b) ensures !LexLess(b, a) {
      if LexLess(b, a) {
        LexTransitive(a, b, a);
        LexIrreflexive(a);
      }
    }
    forall a, b, c | LexLess(a, c) ensures LexLess(a, b) || LexLess(b, c) {
      LexTotal(a, b);
      if LexLess(b, a) {
        LexTransitive(b, a, c);
      }
    }
    forall a, b | StableSort.Equivalent(LexLess, a, b) ensures a == b {
      LexTotal(a, b);
    }
  }

  const Students: seq<string> := ["annie", "ben", "clive"]

  lemma StudentsSorted()
    ensures StableSort.Sorted(LexLess, Students)
  {
    assert LexLess("annie", "ben") && LexLess("ben", "clive") && LexLess("annie", "clive");
  }

  lemma StudentsEnumerate()
    ensures IsEnumeration(Students, {"annie", "ben", "clive"})
  {
    assert Students[0] == "annie" && Students[1] == "ben" && Students[2] == "clive";
    assert Students[0] != Students[1] && Students[1] != Students[2] && Students[0] != Students[2];
  }

  /** Sorting any enumeration of the three students' keys with `a < b`
      yields them in alphabetical order. */
  lemma SortStudentKeys(order: seq<string>)
    requires IsEnumeration(order, {"annie", "ben", "clive"})
    ensures StableSort.Sort(LexLess, order) == Students
  {
    LexLessIsTotalOrder();
    StudentsSorted();
    StudentsEnumerate();
    EnumerationsArePermutations(order, Students, {"annie", "ben", "clive"});
    StableSort.SortedRearrangementUnique(LexLess, order, Students);
  }

  /** The shared test's `iterFirst`, `iterLast` and `iterCount`: over an open
      collection holding the three students, `Iter().SortKeys(a < b)` has
      three keys, `First` lands on "annie" and `Last` on "clive". */
  lemma SortKeysScenario<T>(c: MemoryStore.MemoryCollection<T>, order: seq<string>, zero: T)
    requires c.open && c.m.Keys == {"annie", "ben", "clive"}
    requires IsEnumeration(order, c.m.Keys)
    ensures var sorted := MemoryIter.SortKeys(MemoryStore.Iter(c, order), LexLess, order).1;
            && MemoryIter.Count(sorted) == 3
            && MemoryIter.Key(MemoryIter.First(sorted).0) == Some("annie")
            && MemoryIter.Key(MemoryIter.Last(sorted).0) == Some("clive")
            && MemoryIter.Value(MemoryIter.First(sorted).0, zero) == Some((c.m["annie"], Pass))
  {
    var it := MemoryStore.Iter(c, order);
    assert it.keys == order;
    SortStudentKeys(order);
  }

  /** With the shared test's students and their ages (annie 32, ben 50,
      clive 21), keeping the students aged at least 30 from the alphabetically
      sorted keys yields annie, then ben. */
  lemma FilterScenario()
    ensures MemoryIter.Select(Students, map["annie" := 32, "ben" := 50, "clive" := 21],
                              (k: string, age: int) => age >= 30, 0) == ["annie", "ben"]
  {
  }

  /** The shared test's flow on a collection without a nested one: open,
      put the three students, fail to put the empty key, delete "annie", and
      find it gone while "ben" stays. */
  lemma SharedTestFlow(annie: int, ben: int, clive: int, zero: int)
    ensures var (c0, e0) := MemoryStore.Open(MemoryStore.Memory<int>(None), Pass, Pass);
            var (c1, e1) := MemoryStore.Put(c0, "annie", annie, Pass);
            var (c2, e2) := MemoryStore.Put(c1, "ben", ben, Pass);
            var (c3, e3) := MemoryStore.Put(c2, "clive", clive, Pass);
            var (c4, e4) := MemoryStore.Put(c3, "", zero, Pass);
            var (c5, e5) := MemoryStore.Delete(c4, "annie", Pass);
            && e0 == e1 == e2 == e3 == e5 == Pass
            && e4 == Fail(InvalidKey) && c4 == c3
            && MemoryStore.Has(c3, "nonexistent") == (false, Pass)
            && MemoryStore.Get(c3, "ben", zero) == (ben, Pass)
            && MemoryStore.Has(c5, "annie") == (false, Pass)
            && MemoryStore.Get(c5, "ben", zero) == (ben, Pass)
            && |c3.m| == 3
  {
  }
}
