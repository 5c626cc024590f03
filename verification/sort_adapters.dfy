/**
 * The adapters of sort.go that feed `sort.Stable`: `KeySort` sorts a key
 * list under a less-than on keys, `ValueSort` sorts (key, value) pairs under
 * a less-than on values, and `MakeSortable` builds those pairs from a map.
 * `sort.Stable` itself is the verified insertion sort of `StableSort`.
 */
module SortAdapters {
  import opened Sequences
  import opened GoMaps
  import StableSort

  /** One (key, value) pair of a map, as `sortable` in sort.go. */
  datatype Sortable<T> = Sortable(key: string, value: T)

  /** The `Swap` of both adapters: exchanges two positions and nothing else. */
  function SwapAt<E>(a: seq<E>, i: nat, j: nat): (r: seq<E>)
    requires i < |a| && j < |a|
    ensures |r| == |a|
    ensures r[i] == a[j] && r[j] == a[i]
    ensures forall k :: 0 <= k < |a| && k != i && k != j ==> r[k] == a[k]
    ensures multiset(r) == multiset(a)
  {
    a[i := a[j]][j := a[i]]
  }

  /** Every swap in `swaps` names two positions of a sequence of length `n`. */
  ghost predicate SwapsInRange(n: nat, swaps: seq<(nat, nat)>) {
    forall s | s in swaps :: s.0 < n && s.1 < n
  }

  /** The effect of a run of `Swap` calls. */
  function ApplySwaps<E>(a: seq<E>, swaps: seq<(nat, nat)>): seq<E>
    requires SwapsInRange(|a|, swaps)
    decreases swaps
  {
    if swaps == [] then a
    else ApplySwaps(SwapAt(a, swaps[0].0, swaps[0].1), swaps[1..])
  }

  /** However `sort.Stable` drives `Swap`, the result is a rearrangement. */
  lemma {:induction false} SwapsPermute<E>(a: seq<E>, swaps: seq<(nat, nat)>)
    requires SwapsInRange(|a|, swaps)
    ensures |ApplySwaps(a, swaps)| == |a|
    ensures multiset(ApplySwaps(a, swaps)) == multiset(a)
    decreases swaps
  {
    if swaps != [] {
      SwapsPermute(SwapAt(a, swaps[0].0, swaps[0].1), swaps[1..]);
    }
  }

  /** `sort.Stable` with a less-than that is not a strict weak order still
      permutes; with one it sorts stably. */
  lemma StableWhenOrdered<E(!new)>(less: (E, E) -> bool, s: seq<E>)
    ensures StableSort.StrictWeakOrder(less) ==> StableSort.IsStableSortOf(less, s, StableSort.Sort(less, s))
  {
    if StableSort.StrictWeakOrder(less) {
      StableSort.SortIsStable(less, s);
    }
  }

  /** keySort: a key list and a less-than on keys. */
  datatype KeySort = KeySort(a: seq<string>, f: (string, string) -> bool) {

    function Len(): nat {
      |a|
    }

    predicate Less(i: nat, j: nat)
      requires i < |a| && j < |a|
    {
      f(a[i], a[j])
    }

    function Swap(i: nat, j: nat): KeySort
      requires i < |a| && j < |a|
    {
      KeySort(SwapAt(a, i, j), f)
    }

    /** The list the adapter was built on, in its current order. */
    function Result(): seq<string> {
      a
    }

    /** `sort.Stable` applied to this adapter. */
    function Stable(): (r: KeySort)
      ensures r.Len() == Len()
      ensures multiset(r.Result()) == multiset(a)
      ensures StableSort.StrictWeakOrder(f) ==> StableSort.IsStableSortOf(f, a, r.Result())
    {
      StableWhenOrdered(f, a);
      KeySort(StableSort.Sort(f, a), f)
    }
  }

  /** valueSort's comparison: the caller's less-than on the values alone. */
  function ByValue<T>(f: (T, T) -> bool): (Sortable<T>, Sortable<T>) -> bool {
    (x: Sortable<T>, y: Sortable<T>) => f(x.value, y.value)
  }

  /** Comparing pairs by value inherits the order properties of `f`, and
      pairs whose values agree are never ordered by their keys. */
  lemma ByValueOrder<T(!new)>(f: (T, T) -> bool)
    ensures StableSort.StrictWeakOrder(f) ==> StableSort.StrictWeakOrder(ByValue(f))
    ensures forall k1, k2, v :: StableSort.Equivalent(f, v, v) ==>
              StableSort.Equivalent(ByValue(f), Sortable(k1, v), Sortable(k2, v))
  {
    if StableSort.StrictWeakOrder(f) {
      var g := ByValue(f);
      forall x, y | g(x, y) ensures !g(y, x) {
        assert f(x.value, y.value);
      }
      forall x, y, z | g(x, z) ensures g(x, y) || g(y, z) {
        assert f(x.value, z.value);
        assert f(x.value, y.value) || f(y.value, z.value);
      }
    }
  }

  /** valueSort: (key, value) pairs and a less-than on values. */
  datatype ValueSort<!T(!new)> = ValueSort(a: seq<Sortable<T>>, f: (T, T) -> bool) {

    function Len(): nat {
      |a|
    }

    predicate Less(i: nat, j: nat)
      requires i < |a| && j < |a|
    {
      ByValue(f)(a[i], a[j])
    }

    function Swap(i: nat, j: nat): ValueSort<T>
      requires i < |a| && j < |a|
    {
      ValueSort(SwapAt(a, i, j), f)
    }

    /** The keys of the pairs, in their current order. */
    function Result(): seq<string> {
      Keys(a)
    }

    /** `sort.Stable` applied to this adapter. */
    function Stable(): (r: ValueSort<T>)
      ensures r.Len() == Len()
      ensures multiset(r.a) == multiset(a)
      ensures StableSort.StrictWeakOrder(ByValue(f)) ==> StableSort.IsStableSortOf(ByValue(f), a, r.a)
    {
      StableWhenOrdered(ByValue(f), a);
      ValueSort(StableSort.Sort(ByValue(f), a), f)
    }
  }

  /** The keys of a pair list, position by position. */
  function Keys<T>(a: seq<Sortable<T>>): (k: seq<string>)
    ensures |k| == |a|
    ensures forall i :: 0 <= i < |a| ==> k[i] == a[i].key
  {
    seq(|a|, i requires 0 <= i < |a| => a[i].key)
  }

  /** makeSortable: one pair per map entry, in the order `order` in which
      the `range` over the map visits the keys. */
  function MakeSortable<T>(m: map<string, T>, order: seq<string>): (r: seq<Sortable<T>>)
    requires IsEnumeration(order, m.Keys)
    ensures |r| == |m|
    ensures forall i :: 0 <= i < |r| ==> r[i].key in m && r[i].value == m[r[i].key]
    ensures forall i, j :: 0 <= i < j < |r| ==> r[i].key != r[j].key
    ensures forall k :: k in m ==> Sortable(k, m[k]) in r
  {
    EnumerationLength(order, m.Keys);
    var r := seq(|order|, i requires 0 <= i < |order| => Sortable(order[i], m[order[i]]));
    assert forall k :: k in m ==> Sortable(k, m[k]) in r by {
      forall k | k in m ensures Sortable(k, m[k]) in r {
        var i :| 0 <= i < |order| && order[i] == k;
        assert r[i] == Sortable(k, m[k]);
      }
    }
    r
  }

  /** The keys of the pairs are the enumeration the pairs were built from. */
  lemma MakeSortableKeys<T>(m: map<string, T>, order: seq<string>)
    requires IsEnumeration(order, m.Keys)
    ensures Keys(MakeSortable(m, order)) == order
  {
  }

  /** Any rearrangement of `MakeSortable(m, ·)` still lists every key of `m`
      once, each with its own value. */
  lemma PermutedPairsEnumerate<T>(m: map<string, T>, order: seq<string>, b: seq<Sortable<T>>)
    requires IsEnumeration(order, m.Keys)
    requires multiset(b) == multiset(MakeSortable(m, order))
    ensures forall i :: 0 <= i < |b| ==> b[i].key in m && b[i].value == m[b[i].key]
    ensures IsEnumeration(Keys(b), m.Keys)
  {
    var a := MakeSortable(m, order);
    forall i | 0 <= i < |b| ensures b[i].key in m && b[i].value == m[b[i].key] {
      assert b[i] in multiset(a);
    }
    assert Distinct(a);
    var kb := Keys(b);
    forall i, j | 0 <= i < j < |kb| ensures kb[i] != kb[j] {
      if kb[i] == kb[j] {
        assert b[i] == b[j];
        RepeatedMultiplicity(b, i, j);
        DistinctMultiplicity(a, b[i]);
      }
    }
    forall k ensures k in kb <==> k in m {
      if k in m {
        assert Sortable(k, m[k]) in multiset(b);
        var i :| 0 <= i < |b| && b[i] == Sortable(k, m[k]);
        assert kb[i] == k;
      }
    }
  }

  /** The keys `valueSort` yields list every key of the map once, and
      rebuilding the pairs in that order gives back the sorted pairs. */
  lemma SortedPairsEnumerate<T(!new)>(m: map<string, T>, order: seq<string>, f: (T, T) -> bool)
    requires IsEnumeration(order, m.Keys)
    ensures var s := ValueSort(MakeSortable(m, order), f).Stable();
            IsEnumeration(s.Result(), m.Keys) && MakeSortable(m, s.Result()) == s.a
  {
    var s := ValueSort(MakeSortable(m, order), f).Stable();
    PermutedPairsEnumerate(m, order, s.a);
    assert MakeSortable(m, s.Result()) == s.a;
  }
}
