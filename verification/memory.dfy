/**
 * The in-memory collection of memory.go: a map, an open flag and an
 * optional nested collection that writes go through to and that `Open`
 * reloads from.
 *
 * The nested collection is represented by its contents alone. Whatever it
 * answers to a call (`Open`, `Close`, `Put`, `Delete`, and the `GetAll` of
 * its iterator) is a parameter `reply`: the model covers every answer,
 * success or failure, that it might give. When it accepts a `Put` or
 * `Delete` its contents change accordingly.
 */
module MemoryStore {
  import opened Wrappers
  import opened Errors
  import opened GoMaps
  import Keys
  import MemoryIter

  /** `MemoryCollection`: the nested collection's contents if there is one,
      the local map, and whether the collection is open. */
  datatype MemoryCollection<T> = MemoryCollection(backend: Option<map<string, T>>, m: map<string, T>, open: bool)

  /** The local map holds exactly what the nested collection holds. */
  ghost predicate Synced<T>(c: MemoryCollection<T>) {
    c.backend.Some? ==> c.backend.value == c.m
  }

  /** `Memory`: a closed, empty collection over an optional nested one. */
  function Memory<T>(backend: Option<map<string, T>>): (c: MemoryCollection<T>)
    ensures !c.open && c.m == map[] && c.backend == backend
  {
    MemoryCollection(backend, map[], false)
  }

  /** `Open`: without a nested collection, start empty; with one, open it and
      load all of its contents. Either of its failures leaves this
      collection as it was. */
  function Open<T>(c: MemoryCollection<T>, openReply: Outcome, iterReply: Outcome)
    : (r: (MemoryCollection<T>, Outcome))
    ensures r.1 == Pass <==> c.backend.None? || (openReply == Pass && iterReply == Pass)
    ensures r.1 != Pass ==> r.0 == c && (r.1 == openReply || r.1 == iterReply)
    ensures c.backend.Some? && openReply.Fail? ==> r == (c, openReply)
    ensures r.1 == Pass ==> r.0.open && r.0.backend == c.backend && Synced(r.0)
    ensures c.backend.None? ==> r.0.m == map[]
  {
    match c.backend
    case None => (c.(m := map[], open := true), Pass)
    case Some(data) =>
      if openReply.Fail? then (c, openReply)
      else if iterReply.Fail? then (c, iterReply)
      else (c.(m := data, open := true), Pass)
  }

  /** `Close`: with a nested collection, only that one is closed and its
      answer returned; this collection keeps its map and stays open.
      Without one, the map is dropped and the collection closes. */
  function Close<T>(c: MemoryCollection<T>, reply: Outcome): (r: (MemoryCollection<T>, Outcome))
    ensures c.backend.Some? ==> r == (c, reply)
    ensures c.backend.None? ==> r.1 == Pass && !r.0.open && r.0.m == map[] && r.0.backend == None
  {
    if c.backend.Some? then (c, reply)
    else (c.(m := map[], open := false), Pass)
  }

  /** `Put`: refused when closed, then for the empty key, then when the
      nested collection refuses it; otherwise stores the value in both. */
  function Put<T>(c: MemoryCollection<T>, key: string, value: T, reply: Outcome)
    : (r: (MemoryCollection<T>, Outcome))
    ensures r.1 == Pass <==> c.open && key != "" && (c.backend.None? || reply == Pass)
    ensures !c.open ==> r == (c, Fail(Closed))
    ensures c.open && key == "" ==> r == (c, Fail(InvalidKey))
    ensures r.1 != Pass ==> r.0 == c
    ensures c.open && key != "" && c.backend.Some? && reply != Pass ==> r.1 == reply
    ensures r.1 == Pass ==> r.0.open && r.0.m == c.m[key := value]
    ensures r.1 == Pass && c.backend.Some? ==> r.0.backend == Some(c.backend.value[key := value])
    ensures r.1 == Pass && c.backend.None? ==> r.0.backend == None
    ensures "" in r.0.m ==> "" in c.m
  {
    if !c.open then (c, Fail(Closed))
    else
      var valid := Keys.ValidateKey(key);
      if valid.Fail? then (c, valid)
      else
        match c.backend
        case Some(data) =>
          if reply.Fail? then (c, reply)
          else (c.(backend := Some(data[key := value]), m := c.m[key := value]), Pass)
        case None => (c.(m := c.m[key := value]), Pass)
  }

  /** `Delete`: refused when closed, then when the nested collection refuses
      it; otherwise removes the key from both, present or not. */
  function Delete<T>(c: MemoryCollection<T>, key: string, reply: Outcome): (r: (MemoryCollection<T>, Outcome))
    ensures r.1 == Pass <==> c.open && (c.backend.None? || reply == Pass)
    ensures !c.open ==> r == (c, Fail(Closed))
    ensures r.1 != Pass ==> r.0 == c
    ensures c.open && c.backend.Some? && reply != Pass ==> r.1 == reply
    ensures r.1 == Pass ==> r.0.open && r.0.m == c.m - {key}
    ensures r.1 == Pass && c.backend.Some? ==> r.0.backend == Some(c.backend.value - {key})
    ensures r.1 == Pass && c.backend.None? ==> r.0.backend == None
  {
    if !c.open then (c, Fail(Closed))
    else
      match c.backend
      case Some(data) =>
        if reply.Fail? then (c, reply)
        else (c.(backend := Some(data - {key}), m := c.m - {key}), Pass)
      case None => (c.(m := c.m - {key}), Pass)
  }

  /** `Get`: the stored value, or `NotFound`, or `Closed`. On failure the
      value is `m[""]`, which is the zero value unless the empty key was
      loaded from the nested collection. */
  function Get<T>(c: MemoryCollection<T>, key: string, zero: T): (r: (T, Outcome))
    ensures r.1 == Pass <==> c.open && key in c.m
    ensures r.1 == Pass ==> r.0 == c.m[key]
    ensures r.1 != Pass ==> r.0 == Lookup(c.m, "", zero) && r.1 == (if c.open then Fail(NotFound) else Fail(Closed))
  {
    if !c.open then (Lookup(c.m, "", zero), Fail(Closed))
    else if key in c.m then (c.m[key], Pass)
    else (Lookup(c.m, "", zero), Fail(NotFound))
  }

  /** `Has`: whether the key is stored, or `Closed`. */
  function Has<T>(c: MemoryCollection<T>, key: string): (r: (bool, Outcome))
    ensures r.1 == Pass <==> c.open
    ensures !c.open ==> r.1 == Fail(Closed)
    ensures r.0 <==> c.open && key in c.m
  {
    if !c.open then (false, Fail(Closed)) else (key in c.m, Pass)
  }

  /** `Iter`: an iterator over every stored key, in the order `order` of a
      `range` over the map, with no predecessor; released at once when the
      collection is closed. */
  function Iter<T>(c: MemoryCollection<T>, order: seq<string>): (r: MemoryIter.MemoryIterator<T>)
    requires IsEnumeration(order, c.m.Keys)
    ensures MemoryIter.Wf(r)
    ensures c.open ==> !r.released && r.pos == -1 && r.prev == None && r.m == c.m
    ensures c.open ==> IsEnumeration(r.keys, c.m.Keys) && MemoryIter.Count(r) == |c.m|
    ensures !c.open ==> MemoryIter.AllReleased(r) && MemoryIter.Count(r) == 0
  {
    var it := MemoryIter.NewMemoryIterator(c.m, [], None, order);
    if c.open then it else MemoryIter.Release(it)
  }

  // ---------------------------------------------------------------------
  // Properties across calls

  /** A closed collection refuses every read and write and stays as it is. */
  lemma ClosedRefusesAll<T>(c: MemoryCollection<T>, key: string, value: T, reply: Outcome, zero: T)
    requires !c.open
    ensures Put(c, key, value, reply) == (c, Fail(Closed))
    ensures Delete(c, key, reply) == (c, Fail(Closed))
    ensures Get(c, key, zero) == (Lookup(c.m, "", zero), Fail(Closed))
    ensures Has(c, key) == (false, Fail(Closed))
  {
  }

  /** After a successful `Put`, the key reads back as the value written. */
  lemma PutThenRead<T>(c: MemoryCollection<T>, key: string, value: T, reply: Outcome, zero: T)
    requires Put(c, key, value, reply).1 == Pass
    ensures Get(Put(c, key, value, reply).0, key, zero) == (value, Pass)
    ensures Has(Put(c, key, value, reply).0, key) == (true, Pass)
  {
  }

  /** `Put` of one key, successful or not, changes what no other key reads. */
  lemma PutLeavesOtherKeys<T>(c: MemoryCollection<T>, key: string, value: T, reply: Outcome, other: string, zero: T)
    requires other != key
    ensures Get(Put(c, key, value, reply).0, other, zero) == Get(c, other, zero)
    ensures Has(Put(c, key, value, reply).0, other) == Has(c, other)
  {
  }

  /** `Put` of the empty key on an open collection fails with `InvalidKey`
      whatever the nested collection would say, and `""` stays absent. */
  lemma PutEmptyKeyRefused<T>(c: MemoryCollection<T>, value: T, reply: Outcome)
    requires c.open && "" !in c.m
    ensures Put(c, "", value, reply) == (c, Fail(InvalidKey))
    ensures Has(Put(c, "", value, reply).0, "") == (false, Pass)
  {
  }

  /** After a successful `Delete` the key is gone. */
  lemma DeleteThenRead<T>(c: MemoryCollection<T>, key: string, reply: Outcome, zero: T)
    requires Delete(c, key, reply).1 == Pass
    ensures Has(Delete(c, key, reply).0, key) == (false, Pass)
    ensures Get(Delete(c, key, reply).0, key, zero).1 == Fail(NotFound)
  {
  }

  /** `Delete` of one key changes what no other key reads, as long as the
      empty key (whose value `Get` returns on failure) is not the one removed. */
  lemma DeleteLeavesOtherKeys<T>(c: MemoryCollection<T>, key: string, reply: Outcome, other: string, zero: T)
    requires other != key && key != ""
    ensures Get(Delete(c, key, reply).0, other, zero) == Get(c, other, zero)
    ensures Has(Delete(c, key, reply).0, other) == Has(c, other)
  {
  }

  /** Write-through: once the local map mirrors the nested collection, every
      write, delete, close and reopen keeps it so, whatever the nested
      collection answers. */
  lemma WriteThroughKeepsSynced<T>(c: MemoryCollection<T>, key: string, value: T,
                                   reply: Outcome, openReply: Outcome, iterReply: Outcome)
    requires Synced(c)
    ensures Synced(Put(c, key, value, reply).0)
    ensures Synced(Delete(c, key, reply).0)
    ensures Synced(Close(c, reply).0)
    ensures Synced(Open(c, openReply, iterReply).0)
  {
  }

  /** `Close` over a nested collection leaves this one open: it keeps
      answering reads from its map after a successful close. */
  lemma CloseWithBackendStaysOpen<T>(c: MemoryCollection<T>, key: string, zero: T)
    requires c.open && c.backend.Some? && key in c.m
    ensures Close(c, Pass) == (c, Pass)
    ensures Get(Close(c, Pass).0, key, zero) == (c.m[key], Pass)
  {
  }

  /** Without a nested collection, closing and reopening loses every document. */
  lemma ReopenWithoutBackendIsEmpty<T>(c: MemoryCollection<T>, reply: Outcome, openReply: Outcome, iterReply: Outcome)
    requires c.backend.None?
    ensures Open(Close(c, reply).0, openReply, iterReply) == (MemoryCollection(None, map[], true), Pass)
  {
  }
}
