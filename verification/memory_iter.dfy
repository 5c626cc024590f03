/**
 * The in-memory iterator of memory_iter.go: a cursor over a key list and a
 * value map, with a link to the iterator it was derived from.
 *
 * Every operation is a function from the old iterator to the new one (and
 * its result). Where the Go code changes the receiver as a side effect (the
 * cursor walked by `Filter`, `GetAll` and `GetAllKeys`, the key list sorted
 * in place by `SortKeys`) the changed receiver is returned as well.
 */
module MemoryIter {
  import opened Wrappers
  import opened Errors
  import opened Sequences
  import opened GoMaps
  import StableSort
  import SortAdapters

  /** `MemoryIterator`: keys in iteration order, the value of each key, the
      cursor (-1 before the first key), the released flag and the link. */
  datatype MemoryIterator<T> = MemoryIterator(
    keys: seq<string>,
    m: map<string, T>,
    pos: int,
    released: bool,
    prev: Option<MemoryIterator<T>>)

  /** The shape every iterator of this engine has: the key list enumerates
      the map, a released iterator holds nothing, the cursor of a live one
      never passes one-past-the-end, and the same holds down the chain. */
  ghost predicate Wf<T>(it: MemoryIterator<T>)
    decreases it
  {
    && IsEnumeration(it.keys, it.m.Keys)
    && (it.released ==> it.keys == [] && it.m == map[])
    && (it.released || it.pos <= |it.keys|)
    && (it.prev.Some? ==> Wf(it.prev.value))
  }

  /** Every iterator down the chain is released and empty. */
  ghost predicate AllReleased<T>(it: MemoryIterator<T>)
    decreases it
  {
    && it.released && it.keys == [] && it.m == map[]
    && (it.prev.Some? ==> AllReleased(it.prev.value))
  }

  /** The number of iterators in the chain, this one included. */
  function ChainLength<T>(it: MemoryIterator<T>): nat
    decreases it
  {
    if it.prev.Some? then 1 + ChainLength(it.prev.value) else 1
  }

  function Count<T>(it: MemoryIterator<T>): nat {
    |it.keys|
  }

  /** `newMemoryIterator`: the given key list if it is non-empty, otherwise
      every key of the map in the order `order` of a `range` over it. */
  function NewMemoryIterator<T>(m: map<string, T>, k: seq<string>, prev: Option<MemoryIterator<T>>,
                                order: seq<string>): (r: MemoryIterator<T>)
    requires k == [] ==> IsEnumeration(order, m.Keys)
    ensures r.pos == -1 && !r.released && r.m == m && r.prev == prev
    ensures k != [] ==> r.keys == k
    ensures k == [] ==> IsEnumeration(r.keys, m.Keys) && Count(r) == |m|
  {
    if |k| > 0 then MemoryIterator(k, m, -1, false, prev)
    else
      EnumerationLength(order, m.Keys);
      MemoryIterator(order, m, -1, false, prev)
  }

  /** `reset`: back to before the first key. */
  function Reset<T>(it: MemoryIterator<T>): MemoryIterator<T> {
    it.(pos := -1)
  }

  function First<T>(it: MemoryIterator<T>): (r: (MemoryIterator<T>, bool))
    ensures r.1 <==> !it.released
    ensures r.1 ==> r.0 == it.(pos := 0)
    ensures !r.1 ==> r.0 == it
  {
    if it.released then (it, false) else (it.(pos := 0), true)
  }

  function Last<T>(it: MemoryIterator<T>): (r: (MemoryIterator<T>, bool))
    ensures r.1 <==> !it.released
    ensures r.1 ==> r.0 == it.(pos := Count(it) - 1)
    ensures !r.1 ==> r.0 == it
  {
    if it.released then (it, false) else (it.(pos := |it.keys| - 1), true)
  }

  /** `Next` as written: it advances while `pos + 1 <= Count`, so the cursor
      can reach `Count`, one past the last key. */
  function Next<T>(it: MemoryIterator<T>): (r: (MemoryIterator<T>, bool))
    ensures r.1 <==> !it.released && it.pos + 1 <= Count(it)
    ensures r.1 ==> r.0 == it.(pos := it.pos + 1)
    ensures !r.1 ==> r.0 == it
  {
    if it.released then (it, false)
    else if it.pos + 1 <= |it.keys| then (it.(pos := it.pos + 1), true)
    else (it, false)
  }

  /** `Prev` as written: it steps back only when the cursor is at or before
      the first key, and otherwise stays and reports true. */
  function Prev<T>(it: MemoryIterator<T>): (r: (MemoryIterator<T>, bool))
    ensures r.0.pos <= it.pos
    ensures r.1 <==> !it.released && it.pos > 0
    ensures r.1 || it.released ==> r.0 == it
    ensures !r.1 && !it.released ==> r.0 == it.(pos := it.pos - 1)
  {
    if it.released then (it, false)
    else if it.pos > 0 then (it, true)
    else (it.(pos := it.pos - 1), false)
  }

  /** `Key` as written. `None` stands for the index-out-of-range panic: the
      guard lets `pos == Count` through to the slice index. */
  function Key<T>(it: MemoryIterator<T>): (r: Option<string>)
    ensures r == None <==> !it.released && it.pos == Count(it)
    ensures it.released || it.pos < 0 || it.pos > Count(it) ==> r == Some("")
    ensures !it.released && 0 <= it.pos < Count(it) ==> r == Some(it.keys[it.pos])
  {
    if it.pos < 0 || it.pos > |it.keys| || it.released then Some("")
    else if it.pos == |it.keys| then None
    else Some(it.keys[it.pos])
  }

  /** `Value`: the map's value for the current key (the zero value when the
      key is absent); it never reports an error, and panics where `Key` does. */
  function Value<T>(it: MemoryIterator<T>, zero: T): (r: Option<(T, Outcome)>)
    ensures r == None <==> Key(it) == None
    ensures r.Some? ==> r.value.1 == Pass
    ensures !it.released && 0 <= it.pos < Count(it) && Wf(it) ==> r == Some((it.m[it.keys[it.pos]], Pass))
  {
    match Key(it)
    case None => None
    case Some(key) => Some((Lookup(it.m, key, zero), Pass))
  }

  /** `Get`: key and value of the current position, or `Released`. */
  function Get<T>(it: MemoryIterator<T>, zero: T): (r: Option<(string, T, Outcome)>)
    ensures it.released ==> r == Some(("", Lookup(it.m, "", zero), Fail(Released)))
    ensures !it.released ==> (r == None <==> Key(it) == None)
    ensures !it.released && 0 <= it.pos < Count(it) && Wf(it) ==>
              r == Some((it.keys[it.pos], it.m[it.keys[it.pos]], Pass))
  {
    if it.released then Some(("", Lookup(it.m, "", zero), Fail(Released)))
    else
      match Key(it)
      case None => None
      case Some(key) => Some((key, Lookup(it.m, key, zero), Pass))
  }

  /** `Release`: empties this iterator, marks it released and releases the
      iterator it was derived from, and so on to the head of the chain. */
  function Release<T>(it: MemoryIterator<T>): (r: MemoryIterator<T>)
    ensures AllReleased(r) && Wf(r)
    ensures ChainLength(r) == ChainLength(it)
    decreases it
  {
    MemoryIterator([], map[], it.pos, true,
                   if it.prev.Some? then Some(Release(it.prev.value)) else None)
  }

  /** Once released, navigation reports false and moves nothing, `Get`
      reports `Released`, and `Key` reports the empty key. */
  lemma ReleasedIsInert<T>(it: MemoryIterator<T>, zero: T)
    requires it.released && Wf(it)
    ensures First(it) == (it, false) && Last(it) == (it, false)
    ensures Next(it) == (it, false) && Prev(it) == (it, false)
    ensures Key(it) == Some("") && Count(it) == 0
    ensures Get(it, zero) == Some(("", zero, Fail(Released)))
  {
  }

  /** Navigation keeps the iterator well formed: in particular the cursor
      of a live iterator never passes `Count`. */
  lemma NavigationKeepsShape<T>(it: MemoryIterator<T>)
    requires Wf(it)
    ensures Wf(First(it).0) && Wf(Last(it).0) && Wf(Next(it).0) && Wf(Prev(it).0)
    ensures !it.released ==> Next(it).0.pos <= Count(it)
  {
  }

  /** The interface says `First` and `Last` report false when there is no
      such document; on an empty live iterator both report true, and `Key`
      after `First` indexes past the end. */
  lemma FirstLastOnEmpty<T>(it: MemoryIterator<T>)
    requires !it.released && Count(it) == 0
    ensures First(it).1 && Last(it).1
    ensures Key(First(it).0) == None
    ensures Key(Last(it).0) == Some("")
  {
  }

  // ---------------------------------------------------------------------
  // The bounds of the cursor, as written and as intended

  /** `n` successive calls of `Next`, and whether every one returned true. */
  function NextN<T>(it: MemoryIterator<T>, n: nat): (MemoryIterator<T>, bool)
    decreases n
  {
    if n == 0 then (it, true)
    else
      var (it', ok) := Next(it);
      var (last, rest) := NextN(it', n - 1);
      (last, ok && rest)
  }

  lemma {:induction false} NextWalks<T>(it: MemoryIterator<T>, n: nat)
    requires !it.released && -1 <= it.pos && it.pos + n <= Count(it)
    ensures NextN(it, n) == (it.(pos := it.pos + n), true)
    decreases n
  {
    if n > 0 {
      NextWalks(it.(pos := it.pos + 1), n - 1);
    }
  }

  /** The loop `for i.Next() { … i.Key() … }` of `Filter`, `GetAll` and
      `GetAllKeys` runs its body `Count + 1` times, and on the last run the
      cursor sits at `Count`, where `Key` indexes past the end of the list:
      for every live iterator, the empty one included. */
  lemma LoopReachesOutOfRange<T>(it: MemoryIterator<T>)
    requires !it.released
    ensures NextN(Reset(it), Count(it) + 1).1
    ensures Key(NextN(Reset(it), Count(it) + 1).0) == None
  {
    NextWalks(Reset(it), Count(it) + 1);
  }

  /** The evidently intended `Next`: advances only onto a key. */
  function NextChecked<T>(it: MemoryIterator<T>): (r: (MemoryIterator<T>, bool))
    ensures r.1 <==> !it.released && it.pos + 1 < Count(it)
    ensures r.1 ==> r.0 == it.(pos := it.pos + 1)
    ensures !r.1 ==> r.0 == it
  {
    if !it.released && it.pos + 1 < |it.keys| then (it.(pos := it.pos + 1), true) else (it, false)
  }

  /** The evidently intended `Prev`: steps back onto the previous key, and
      reports false when there is none. */
  function PrevChecked<T>(it: MemoryIterator<T>): (r: (MemoryIterator<T>, bool))
    ensures r.1 <==> !it.released && it.pos > 0
    ensures r.1 ==> r.0 == it.(pos := it.pos - 1)
    ensures !r.1 ==> r.0 == it
  {
    if !it.released && it.pos > 0 then (it.(pos := it.pos - 1), true) else (it, false)
  }

  /** `Prev` as written does not undo `Next`: from any key but the last,
      `Next` then `Prev` leaves the cursor on the following key. */
  lemma PrevDoesNotUndoNext<T>(it: MemoryIterator<T>)
    requires !it.released && 0 <= it.pos && it.pos + 1 < Count(it)
    ensures Prev(Next(it).0) == (it.(pos := it.pos + 1), true)
  {
  }

  /** ... and it walks the cursor below the before-first position. */
  lemma PrevPassesStart<T>(it: MemoryIterator<T>)
    requires !it.released && it.pos == -1
    ensures Prev(it) == (it.(pos := -2), false)
  {
  }

  /** The intended `Prev` undoes a `Next` from one key onto the following key. */
  lemma PrevCheckedUndoesNext<T>(it: MemoryIterator<T>)
    requires !it.released && 0 <= it.pos && it.pos + 1 < Count(it)
    ensures PrevChecked(Next(it).0) == (it, true)
  {
  }

  /** The intended `Prev` keeps the cursor within [-1, Count]. */
  lemma PrevCheckedKeepsBounds<T>(it: MemoryIterator<T>)
    requires -1 <= it.pos <= Count(it)
    ensures -1 <= PrevChecked(it).0.pos <= Count(it)
  {
  }

  // ---------------------------------------------------------------------
  // Bulk retrieval. The loops below visit the positions 0 .. Count-1, the
  // evident intent of the Go loops (see LoopReachesOutOfRange for the code
  // as written).

  /** `GetAll`: every key with its value, independent of the cursor. */
  method GetAll<T>(it: MemoryIterator<T>, zero: T) returns (src: MemoryIterator<T>, all: map<string, T>, err: Outcome)
    ensures it.released ==> src == it && all == map[] && err == Fail(Released)
    ensures !it.released ==> err == Pass && src == it.(pos := Count(it) - 1)
    ensures !it.released ==> forall k :: k in all <==> k in it.keys
    ensures !it.released ==> forall k | k in all :: all[k] == Lookup(it.m, k, zero)
    ensures !it.released && Wf(it) ==> all == it.m
  {
    all := map[];
    if it.released {
      return it, all, Fail(Released);
    }
    src := Reset(it);
    while src.pos + 1 < Count(src)
      invariant src == it.(pos := src.pos)
      invariant -1 <= src.pos < Count(it) || (src.pos == -1 && Count(it) == 0)
      invariant forall k :: k in all <==> k in it.keys[..src.pos + 1]
      invariant forall k | k in all :: all[k] == Lookup(it.m, k, zero)
      decreases Count(src) - src.pos
    {
      src := NextChecked(src).0;
      var got := Get(src, zero);
      var (key, value, _) := got.value;
      all := all[key := value];
      assert it.keys[..src.pos + 1] == it.keys[..src.pos] + [key];
    }
    assert it.keys[..src.pos + 1] == it.keys;
    err := Pass;
  }

  /** `GetAllKeys`: the key list, independent of the cursor. */
  method GetAllKeys<T>(it: MemoryIterator<T>) returns (src: MemoryIterator<T>, keys: seq<string>)
    ensures it.released ==> src == it && keys == []
    ensures !it.released ==> keys == it.keys && src == it.(pos := Count(it) - 1)
  {
    keys := [];
    if it.released {
      return it, keys;
    }
    src := Reset(it);
    while src.pos + 1 < Count(src)
      invariant src == it.(pos := src.pos)
      invariant -1 <= src.pos < Count(it) || (src.pos == -1 && Count(it) == 0)
      invariant keys == it.keys[..src.pos + 1]
      decreases Count(src) - src.pos
    {
      src := NextChecked(src).0;
      keys := keys + [Key(src).value];
    }
  }

  // ---------------------------------------------------------------------
  // Filter

  /** A sequence whose elements occur in `b` in the same order. */
  ghost predicate IsSubsequence(a: seq<string>, b: seq<string>)
    decreases |b|
  {
    a == [] || (b != [] && ((a[0] == b[0] && IsSubsequence(a[1..], b[1..])) || IsSubsequence(a, b[1..])))
  }

  /** The keys of `keys` whose (key, value) pair passes `f`, in their order. */
  function Select<T>(keys: seq<string>, m: map<string, T>, f: (string, T) -> bool, zero: T): (r: seq<string>)
    ensures forall k :: k in r <==> k in keys && f(k, Lookup(m, k, zero))
  {
    if keys == [] then []
    else
      var rest := Select(keys[1..], m, f, zero);
      if f(keys[0], Lookup(m, keys[0], zero)) then [keys[0]] + rest else rest
  }

  /** `Select` keeps the kept keys in their original order. */
  lemma {:induction false} SelectIsSubsequence<T>(keys: seq<string>, m: map<string, T>, f: (string, T) -> bool, zero: T)
    ensures IsSubsequence(Select(keys, m, f, zero), keys)
  {
    if keys != [] {
      SelectIsSubsequence(keys[1..], m, f, zero);
      var rest := Select(keys[1..], m, f, zero);
      if f(keys[0], Lookup(m, keys[0], zero)) {
        assert ([keys[0]] + rest)[1..] == rest;
      }
    }
  }

  /** `Select` never repeats a key the input does not repeat. */
  lemma {:induction false} SelectDistinct<T>(keys: seq<string>, m: map<string, T>, f: (string, T) -> bool, zero: T)
    requires Distinct(keys)
    ensures Distinct(Select(keys, m, f, zero))
  {
    if keys != [] {
      SelectDistinct(keys[1..], m, f, zero);
      assert keys[0] !in keys[1..];
    }
  }

  lemma {:induction false} SelectSnoc<T>(keys: seq<string>, x: string, m: map<string, T>, f: (string, T) -> bool, zero: T)
    ensures Select(keys + [x], m, f, zero)
         == Select(keys, m, f, zero) + (if f(x, Lookup(m, x, zero)) then [x] else [])
  {
    if keys == [] {
      assert [x][1..] == [];
    } else {
      assert (keys + [x])[1..] == keys[1..] + [x];
      SelectSnoc(keys[1..], x, m, f, zero);
    }
  }

  /** The loop of `Filter`: walks the cursor over every key and collects the
      passing keys, in order, with their values. */
  method FilterLoop<T>(it: MemoryIterator<T>, f: (string, T) -> bool, zero: T)
    returns (src: MemoryIterator<T>, k: seq<string>, m: map<string, T>)
    requires !it.released
    ensures src == it.(pos := Count(it) - 1)
    ensures k == Select(it.keys, it.m, f, zero)
    ensures forall key :: key in m <==> key in k
    ensures forall key | key in m :: m[key] == Lookup(it.m, key, zero)
  {
    k, m := [], map[];
    src := Reset(it);
    while src.pos + 1 < Count(src)
      invariant src == it.(pos := src.pos)
      invariant -1 <= src.pos < Count(it) || (src.pos == -1 && Count(it) == 0)
      invariant k == Select(it.keys[..src.pos + 1], it.m, f, zero)
      invariant forall key :: key in m <==> key in k
      invariant forall key | key in m :: m[key] == Lookup(it.m, key, zero)
      decreases Count(src) - src.pos
    {
      src := NextChecked(src).0;
      var key, value := src.keys[src.pos], Lookup(src.m, src.keys[src.pos], zero);
      assert Get(src, zero) == Some((key, value, Pass));
      assert it.keys[..src.pos + 1] == it.keys[..src.pos] + [key];
      SelectSnoc(it.keys[..src.pos], key, it.m, f, zero);
      if f(key, value) {
        k := k + [key];
        m := m[key := value];
      }
    }
    assert it.keys[..src.pos + 1] == it.keys;
  }

  /** `Filter`: a new iterator, linked to this one, over the keys whose
      (key, value) pair passes `f`, in their order here, with the map cut
      down to those keys. A released iterator is returned as it is. */
  method Filter<T>(it: MemoryIterator<T>, f: (string, T) -> bool, zero: T) returns (src: MemoryIterator<T>, r: MemoryIterator<T>)
    ensures it.released ==> src == it && r == it
    ensures !it.released ==> src == it.(pos := Count(it) - 1)
    ensures !it.released ==> r.pos == -1 && !r.released && r.prev == Some(src)
    ensures !it.released ==> r.keys == Select(it.keys, it.m, f, zero)
    ensures !it.released ==> r.m == map k | k in r.keys :: Lookup(it.m, k, zero)
    ensures Wf(it) ==> Wf(r)
  {
    if it.released {
      return it, it;
    }
    var k: seq<string>, m: map<string, T>;
    src, k, m := FilterLoop(it, f, zero);
    assert m == map key | key in k :: Lookup(it.m, key, zero);
    r := NewMemoryIterator(m, k, Some(src), []);
    if Wf(it) {
      SelectDistinct(it.keys, it.m, f, zero);
    }
  }

  // ---------------------------------------------------------------------
  // Sort and SortKeys

  /** `Sort`: a new iterator, linked to this one and sharing its map, whose
      keys are the map's pairs stably sorted by value. `order` is the order
      in which `makeSortable`'s `range` visits the map. */
  function Sort<T(!new)>(it: MemoryIterator<T>, f: (T, T) -> bool, order: seq<string>): (r: MemoryIterator<T>)
    requires IsEnumeration(order, it.m.Keys)
    ensures it.released ==> r == it
    ensures !it.released ==> r.m == it.m && r.prev == Some(it) && r.pos == -1 && !r.released
    ensures !it.released ==> IsEnumeration(r.keys, it.m.Keys)
    ensures Wf(it) ==> Wf(r)
    ensures !it.released && StableSort.StrictWeakOrder(f) ==>
              StableSort.IsStableSortOf(SortAdapters.ByValue(f),
                                        SortAdapters.MakeSortable(it.m, order),
                                        SortAdapters.MakeSortable(it.m, r.keys))
  {
    if it.released then it
    else
      var s := SortAdapters.ValueSort(SortAdapters.MakeSortable(it.m, order), f).Stable();
      SortAdapters.SortedPairsEnumerate(it.m, order, f);
      SortAdapters.ByValueOrder(f);
      NewMemoryIterator(it.m, s.Result(), Some(it), order)
  }

  /** The keys `Sort` yields are ordered by their values. */
  lemma SortOrdersValues<T(!new)>(it: MemoryIterator<T>, f: (T, T) -> bool, order: seq<string>)
    requires IsEnumeration(order, it.m.Keys) && !it.released && StableSort.StrictWeakOrder(f)
    ensures var r := Sort(it, f, order);
            forall i, j :: 0 <= i < j < Count(r) ==> !f(it.m[r.keys[j]], it.m[r.keys[i]])
  {
    var r := Sort(it, f, order);
    var pairs := SortAdapters.MakeSortable(it.m, r.keys);
    forall i, j | 0 <= i < j < Count(r) ensures !f(it.m[r.keys[j]], it.m[r.keys[i]]) {
      assert !SortAdapters.ByValue(f)(pairs[j], pairs[i]);
    }
  }

  /** `SortKeys` as written: the key list is stably sorted IN PLACE, so the
      source comes back with the sorted list too, and the new iterator,
      linked to it, shares that list and the source's map. */
  function SortKeys<T>(it: MemoryIterator<T>, f: (string, string) -> bool, order: seq<string>)
    : (r: (MemoryIterator<T>, MemoryIterator<T>))
    requires !it.released && it.keys == [] ==> IsEnumeration(order, it.m.Keys)
    ensures it.released ==> r == (it, it)
    ensures !it.released ==> r.0 == it.(keys := r.0.keys)
    ensures !it.released ==> multiset(r.0.keys) == multiset(it.keys)
    ensures !it.released && StableSort.StrictWeakOrder(f) ==> StableSort.IsStableSortOf(f, it.keys, r.0.keys)
    ensures !it.released ==> r.1.m == it.m && r.1.prev == Some(r.0) && r.1.pos == -1 && !r.1.released
    ensures !it.released && it.keys != [] ==> r.1.keys == r.0.keys
    ensures !it.released && it.keys == [] ==> IsEnumeration(r.1.keys, it.m.Keys)
    ensures Wf(it) ==> Wf(r.0) && Wf(r.1)
  {
    if it.released then (it, it)
    else
      var k := SortAdapters.KeySort(it.keys, f).Stable().Result();
      RearrangedKeysEnumerate(it.keys, k, it.m.Keys);
      var src := it.(keys := k);
      (src, NewMemoryIterator(it.m, k, Some(src), order))
  }

  /** The interface promises that the previous iterator is not affected;
      `SortKeys` as written changes its key list. */
  lemma SortKeysChangesSource()
    ensures var it := MemoryIterator(["bb", "a"], map["a" := 0, "bb" := 1], -1, false, None);
            SortKeys(it, (x: string, y: string) => |x| < |y|, []).0 != it
  {
    var it := MemoryIterator(["bb", "a"], map["a" := 0, "bb" := 1], -1, false, None);
    var f := (x: string, y: string) => |x| < |y|;
    assert StableSort.Sort(f, ["a"]) == ["a"];
    assert StableSort.Sort(f, ["bb", "a"]) == ["a", "bb"];
  }

  lemma RearrangedKeysEnumerate(s: seq<string>, t: seq<string>, keys: set<string>)
    requires multiset(t) == multiset(s)
    ensures IsEnumeration(s, keys) ==> IsEnumeration(t, keys)
  {
    if IsEnumeration(s, keys) {
      PermutationKeepsEnumeration(s, t, keys);
    }
  }

  /** `SortKeys` as intended: the new iterator gets a sorted copy of the key
      list, and the source is linked unchanged. */
  function SortKeysCopy<T>(it: MemoryIterator<T>, f: (string, string) -> bool, order: seq<string>): (r: MemoryIterator<T>)
    requires !it.released && it.keys == [] ==> IsEnumeration(order, it.m.Keys)
    ensures it.released ==> r == it
    ensures !it.released ==> r.prev == Some(it) && r.m == it.m && r.pos == -1 && !r.released
    ensures !it.released && it.keys != [] && StableSort.StrictWeakOrder(f) ==> StableSort.IsStableSortOf(f, it.keys, r.keys)
    ensures !it.released && Wf(it) ==> Wf(r)
  {
    if it.released then it
    else
      var k := SortAdapters.KeySort(it.keys, f).Stable().Result();
      RearrangedKeysEnumerate(it.keys, k, it.m.Keys);
      NewMemoryIterator(it.m, k, Some(it), order)
  }
}
