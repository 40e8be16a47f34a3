/**
 The pre-flight verdict cache (src/preflight.ts): a JavaScript `Map`, modelled as the sequence of its
 entries in insertion order, which is the order the eviction loop and the purge loop iterate in.
 */
module VerdictCache {
  import opened Wrappers

  datatype Verdict = Admissible(fee: nat) | Blocked(reason: string) | Undetermined

  datatype Entry = Entry(verdict: Verdict, ledger: int, expiresAt: int)

  datatype Item = Item(key: string, entry: Entry)

  type Cache = seq<Item>

  ghost predicate Distinct(c: Cache) {
    forall i, j :: 0 <= i < j < |c| ==> c[i].key != c[j].key
  }

  function KeysOf(c: Cache): (ks: seq<string>)
    ensures |ks| == |c| && forall i :: 0 <= i < |c| ==> ks[i] == c[i].key
  {
    seq(|c|, i requires 0 <= i < |c| => c[i].key)
  }

  // ---------------------------------------------------------------- Map operations

  function Get(c: Cache, key: string): (r: Option<Entry>)
    ensures r.None? <==> forall i :: 0 <= i < |c| ==> c[i].key != key
    ensures r.Some? ==> exists i :: 0 <= i < |c| && c[i] == Item(key, r.value)
  {
    if c == [] then None
    else if c[0].key == key then Some(c[0].entry)
    else Get(c[1..], key)
  }

  function Delete(c: Cache, key: string): Cache {
    if c == [] then []
    else if c[0].key == key then Delete(c[1..], key)
    else [c[0]] + Delete(c[1..], key)
  }

  /** `Map.set`: an existing key keeps its place, a new one goes to the end. */
  function Put(c: Cache, key: string, e: Entry): Cache {
    if c == [] then [Item(key, e)]
    else if c[0].key == key then [Item(key, e)] + c[1..]
    else [c[0]] + Put(c[1..], key, e)
  }

  lemma {:induction false} DeleteContents(c: Cache, key: string)
    ensures var r := Delete(c, key);
            && |r| <= |c|
            && (forall x :: x in r <==> x in c && x.key != key)
            && (Distinct(c) ==> Distinct(r))
  {
    if c != [] {
      DeleteContents(c[1..], key);
      var rest := Delete(c[1..], key);
      assert forall x :: x in c <==> x == c[0] || x in c[1..];
      assert forall i :: 0 <= i < |rest| ==> rest[i] in c[1..];
    }
  }

  lemma {:induction false} PutFresh(c: Cache, key: string, e: Entry)
    requires Get(c, key).None?
    ensures Put(c, key, e) == c + [Item(key, e)]
  {
    if c != [] {
      assert c[0].key != key;
      assert forall i :: 0 <= i < |c| - 1 ==> c[1..][i] == c[i + 1];
      PutFresh(c[1..], key, e);
    }
  }

  lemma {:induction false} PutContents(c: Cache, key: string, e: Entry)
    ensures var r := Put(c, key, e);
            && Item(key, e) in r
            && (forall x :: x in r ==> x == Item(key, e) || x in c)
            && (Distinct(c) ==> Distinct(r))
            && |r| == if Get(c, key).Some? then |c| else |c| + 1
  {
    if c != [] && c[0].key != key {
      PutContents(c[1..], key, e);
      var rest := Put(c[1..], key, e);
      assert forall i :: 0 <= i < |rest| ==> rest[i] in rest;
      assert Put(c, key, e) == [c[0]] + rest;
    } else if c != [] {
      assert Put(c, key, e) == [Item(key, e)] + c[1..];
    }
  }

  // ---------------------------------------------------------------- cache policy

  function Touch(maxEntries: Option<nat>, c: Cache, key: string, e: Entry): Cache {
    if maxEntries.None? then c else Put(Delete(c, key), key, e)
  }

  /** Dropping the oldest entries until one more fits. */
  function Evict(c: Cache, n: nat): (r: Cache)
    requires n > 0
    ensures |r| < n && |r| <= |c| && r == c[|c| - |r|..]
    ensures |c| < n ==> r == c
    ensures |c| >= n ==> |r| == n - 1
  {
    if |c| >= n then c[|c| - n + 1..] else c
  }

  function StoreEntry(maxEntries: Option<nat>, c: Cache, key: string, e: Entry): Cache
    requires maxEntries.Some? ==> maxEntries.value > 0
  {
    match maxEntries
    case None => Put(c, key, e)
    case Some(n) => Put(Evict(Delete(c, key), n), key, e)
  }

  predicate Fresh(x: Item, ledger: int, now: int) {
    x.entry.ledger == ledger && x.entry.expiresAt > now
  }

  /** The purge made by every successful ledger read. */
  function Purge(c: Cache, ledger: int, now: int): Cache {
    if c == [] then []
    else if Fresh(c[0], ledger, now) then [c[0]] + Purge(c[1..], ledger, now)
    else Purge(c[1..], ledger, now)
  }

  lemma {:induction false} PurgeContents(c: Cache, ledger: int, now: int)
    ensures var r := Purge(c, ledger, now);
            && |r| <= |c|
            && (forall x :: x in r <==> x in c && x.entry.ledger == ledger && now < x.entry.expiresAt)
            && (Distinct(c) ==> Distinct(r))
  {
    if c != [] {
      PurgeContents(c[1..], ledger, now);
      var rest := Purge(c[1..], ledger, now);
      assert forall x :: x in c <==> x == c[0] || x in c[1..];
      assert forall i :: 0 <= i < |rest| ==> rest[i] in c[1..];
    }
  }

  lemma PurgeNext(c: Cache, i: nat, ledger: int, now: int)
    requires i < |c|
    ensures c[..i] + Purge(c[i..], ledger, now)
         == (if Fresh(c[i], ledger, now) then c[..i + 1] else c[..i]) + Purge(c[i + 1..], ledger, now)
  {
    assert c[i..][1..] == c[i + 1..] && c[..i + 1] == c[..i] + [c[i]];
  }

  lemma PurgeNothing(c: Cache, ledger: int, now: int)
    ensures c[..|c|] + Purge(c[|c|..], ledger, now) == c
  {
  }

  predicate StartsWith(s: string, prefix: string) {
    prefix <= s
  }

  function DropPrefix(c: Cache, prefix: string): Cache {
    if c == [] then []
    else if StartsWith(c[0].key, prefix) then DropPrefix(c[1..], prefix)
    else [c[0]] + DropPrefix(c[1..], prefix)
  }

  lemma DropNext(c: Cache, i: nat, prefix: string)
    requires i < |c|
    ensures c[..i] + DropPrefix(c[i..], prefix)
         == (if StartsWith(c[i].key, prefix) then c[..i] else c[..i + 1]) + DropPrefix(c[i + 1..], prefix)
  {
    assert c[i..][1..] == c[i + 1..] && c[..i + 1] == c[..i] + [c[i]];
  }

  lemma DropNothing(c: Cache, prefix: string)
    ensures c[..|c|] + DropPrefix(c[|c|..], prefix) == c
  {
  }

  lemma {:induction false} DropPrefixContents(c: Cache, prefix: string)
    ensures var r := DropPrefix(c, prefix);
            && |r| <= |c|
            && (forall x :: x in r <==> x in c && !(prefix <= x.key))
            && (Distinct(c) ==> Distinct(r))
  {
    if c != [] {
      DropPrefixContents(c[1..], prefix);
      var rest := DropPrefix(c[1..], prefix);
      assert forall x :: x in c <==> x == c[0] || x in c[1..];
      assert forall i :: 0 <= i < |rest| ==> rest[i] in c[1..];
    }
  }

  /** The answer of one cache consultation and the cache it leaves behind. */
  datatype Lookup = Lookup(cache: Cache, hit: Option<Verdict>)

  function LookUp(maxEntries: Option<nat>, c: Cache, key: string, ledger: int, now: int): Lookup {
    match Get(c, key)
    case None => Lookup(c, None)
    case Some(e) =>
      if Fresh(Item(key, e), ledger, now) then Lookup(Touch(maxEntries, c, key, e), Some(e.verdict))
      else Lookup(Delete(c, key), None)
  }

  lemma {:induction false} GetExactly(c: Cache, key: string, e: Entry)
    requires Distinct(c)
    ensures Get(c, key) == Some(e) <==> Item(key, e) in c
  {
    if c != [] {
      GetExactly(c[1..], key, e);
      assert Item(key, e) in c <==> c[0] == Item(key, e) || Item(key, e) in c[1..];
    }
  }

  /**
   A consultation serves exactly the verdict cached under the key for this ledger and still alive, and drops nothing
   but an entry of that key that is neither.
   */
  lemma {:induction false} LookUpExactly(maxEntries: Option<nat>, c: Cache, key: string, ledger: int, now: int)
    requires Distinct(c)
    ensures var r := LookUp(maxEntries, c, key, ledger, now);
            && (forall v :: r.hit == Some(v) <==>
                  exists e :: Item(key, e) in c && e.ledger == ledger && now < e.expiresAt && e.verdict == v)
            && (forall x :: x in r.cache <==>
                  x in c && (x.key == key ==> x.entry.ledger == ledger && now < x.entry.expiresAt))
            && Distinct(r.cache)
  {
    hide Delete, Put, Get;
    forall e
      ensures Get(c, key) == Some(e) <==> Item(key, e) in c
    {
      GetExactly(c, key, e);
    }
    DeleteContents(c, key);
    if Get(c, key).Some? {
      PutDeleted(c, key, Get(c, key).value);
    }
  }

  lemma PutDeleted(c: Cache, key: string, e: Entry)
    requires Distinct(c)
    ensures var r := Put(Delete(c, key), key, e);
            Distinct(r) && forall x :: x in r <==> x == Item(key, e) || (x in c && x.key != key)
  {
    hide Delete, Put;
    DeleteContents(c, key);
    PutFresh(Delete(c, key), key, e);
    PutContents(Delete(c, key), key, e);
  }

  /** Storing replaces the entry of the key; only a bounded cache gives up others for it. */
  lemma StoreExactly(maxEntries: Option<nat>, c: Cache, key: string, e: Entry)
    requires Distinct(c) && (maxEntries.Some? ==> maxEntries.value > 0)
    ensures var r := StoreEntry(maxEntries, c, key, e);
            && Distinct(r) && Item(key, e) in r
            && (forall x :: x in r ==> x == Item(key, e) || (x in c && x.key != key))
            && (maxEntries.None? ==> forall x :: x in c && x.key != key ==> x in r)
  {
    hide Put, Delete;
    match maxEntries
    case None =>
      PutExactly(c, key, e);
      PutContents(c, key, e);
    case Some(n) =>
      DeleteContents(c, key);
      var kept := Evict(Delete(c, key), n);
      assert Distinct(kept) && forall x :: x in kept ==> x in Delete(c, key);
      PutExactly(kept, key, e);
      PutContents(kept, key, e);
  }

  lemma {:induction false} PutExactly(c: Cache, key: string, e: Entry)
    requires Distinct(c)
    ensures var r := Put(c, key, e); forall x :: x in r <==> x == Item(key, e) || (x in c && x.key != key)
  {
    if c != [] {
      PutExactly(c[1..], key, e);
      assert forall x :: x in c <==> x == c[0] || x in c[1..];
      var r := Put(c, key, e);
      if c[0].key == key {
        assert forall x :: x in r <==> x == Item(key, e) || x in c[1..];
        assert forall x :: x in c[1..] ==> x.key != key;
      } else {
        assert forall x :: x in r <==> x == c[0] || x in Put(c[1..], key, e);
      }
    }
  }

  // ---------------------------------------------------------------- the fields of PreFlightInterceptor

  lemma {:induction false} DeleteAppend(c: Cache, d: Cache, key: string)
    ensures Delete(c + d, key) == Delete(c, key) + Delete(d, key)
  {
    if c == [] {
      assert c + d == d;
    } else {
      assert (c + d)[1..] == c[1..] + d;
      DeleteAppend(c[1..], d, key);
    }
  }

  ghost predicate Absent(c: Cache, key: string) {
    forall i :: 0 <= i < |c| ==> c[i].key != key
  }

  lemma {:induction false} DeleteAbsent(c: Cache, key: string)
    requires Absent(c, key)
    ensures Delete(c, key) == c
  {
    if c != [] {
      assert forall i :: 0 <= i < |c| - 1 ==> c[1..][i] == c[i + 1];
      DeleteAbsent(c[1..], key);
    }
  }

  /** Deleting the key of item i of a cache with distinct keys removes just that item. */
  lemma {:induction false} DeleteAt(c: Cache, i: nat)
    requires Distinct(c) && i < |c|
    ensures Delete(c, c[i].key) == c[..i] + c[i + 1..]
  {
    hide Delete, Distinct;
    var front, back := c[..i], c[i + 1..];
    KeyIsUnique(c, i);
    DeleteAbsent(front, c[i].key);
    DeleteAbsent(back, c[i].key);
    DeleteHead(c[i], back);
    DeleteAppend(front, [c[i]] + back, c[i].key);
    assert c == front + ([c[i]] + back);
  }

  lemma KeyIsUnique(c: Cache, i: nat)
    requires Distinct(c) && i < |c|
    ensures Absent(c[..i], c[i].key) && Absent(c[i + 1..], c[i].key)
  {
  }

  lemma DeleteHead(x: Item, rest: Cache)
    ensures Delete([x] + rest, x.key) == Delete(rest, x.key)
  {
    assert ([x] + rest)[1..] == rest;
  }

  class Interceptor {
    const maxEntries: Option<nat>
    var cache: Cache
    var hits: nat
    var misses: nat
    var invalidations: nat

    ghost predicate Valid()
      reads this
    {
      && Distinct(cache)
      && (maxEntries.Some? ==> maxEntries.value > 0 && |cache| <= maxEntries.value)
    }

    constructor (maxEntries: Option<nat>)
      requires maxEntries.Some? ==> maxEntries.value > 0
      ensures Valid() && cache == [] && this.maxEntries == maxEntries
      ensures hits == misses == invalidations == 0
    {
      this.maxEntries, cache, hits, misses, invalidations := maxEntries, [], 0, 0, 0;
    }

    /** storeCacheEntry: drop the old occurrence, evict from the head while full, append. */
    method StoreCacheEntry(key: string, e: Entry)
      requires Valid()
      modifies `cache
      ensures Valid() && cache == StoreEntry(maxEntries, old(cache), key, e)
      ensures forall x :: x in cache ==> x == Item(key, e) || (x in old(cache) && x.key != key)
      ensures Item(key, e) in cache
      ensures maxEntries.None? ==> forall x :: x in old(cache) && x.key != key ==> x in cache
    {
      StoreExactly(maxEntries, cache, key, e);
      if maxEntries.Some? {
        DeleteContents(cache, key);
        cache := Delete(cache, key);
        ghost var start := cache;
        while |cache| >= maxEntries.value
          invariant Distinct(cache) && Evict(cache, maxEntries.value) == Evict(start, maxEntries.value)
        {
          DeleteAt(cache, 0);
          cache := Delete(cache, cache[0].key);
        }
      }
      PutContents(cache, key, e);
      cache := Put(cache, key, e);
    }

    /** Removing item i of the cache, as the purge and invalidation loops do. */
    method DeleteItem(i: nat)
      requires Valid() && i < |cache|
      modifies `cache
      ensures Valid() && cache == old(cache[..i] + cache[i + 1..])
    {
      DeleteAt(cache, i);
      DeleteContents(cache, cache[i].key);
      cache := Delete(cache, cache[i].key);
    }

    /** The purge loop of cacheContext; deleting while iterating a Map visits every entry once. */
    method PurgeStale(ledger: int, now: int)
      requires Valid()
      modifies `cache
      ensures Valid() && cache == Purge(old(cache), ledger, now)
      ensures forall x :: x in cache <==> x in old(cache) && x.entry.ledger == ledger && now < x.entry.expiresAt
    {
      hide Purge, Distinct;
      var i := 0;
      while i < |cache|
        invariant 0 <= i <= |cache| && Valid()
        invariant cache[..i] + Purge(cache[i..], ledger, now) == Purge(old(cache), ledger, now)
        decreases |cache| - i
      {
        PurgeNext(cache, i, ledger, now);
        if Fresh(cache[i], ledger, now) {
          i := i + 1;
        } else {
          label before:
          DeleteItem(i);
          assert cache[..i] == old@before(cache[..i]) && cache[i..] == old@before(cache[i + 1..]);
        }
      }
      PurgeNothing(cache, ledger, now);
      PurgeContents(old(cache), ledger, now);
    }

    /** The cache consultation in `check`, after cacheContext has produced the key and the ledger. */
    method Consult(key: string, ledger: int, now: int) returns (served: Option<Verdict>)
      requires Valid()
      modifies `cache, `hits, `misses
      ensures Valid()
      ensures Lookup(cache, served) == LookUp(maxEntries, old(cache), key, ledger, now)
      ensures forall v :: served == Some(v) <==>
                exists e :: Item(key, e) in old(cache) && e.ledger == ledger && now < e.expiresAt && e.verdict == v
      ensures forall x :: x in cache <==>
                x in old(cache) && (x.key == key ==> x.entry.ledger == ledger && now < x.entry.expiresAt)
      ensures hits == old(hits) + (if served.Some? then 1 else 0)
      ensures misses == old(misses) + (if served.Some? then 0 else 1)
    {
      LookUpExactly(maxEntries, cache, key, ledger, now);
      var cached := Get(cache, key);
      if cached.Some? {
        if cached.value.ledger == ledger && cached.value.expiresAt > now {
          TouchEntry(key, cached.value);
          hits := hits + 1;
          return Some(cached.value.verdict);
        }
        DeleteContents(cache, key);
        cache := Delete(cache, key);
      }
      misses := misses + 1;
      served := None;
    }

    method TouchEntry(key: string, e: Entry)
      requires Valid() && Get(cache, key) == Some(e)
      modifies `cache
      ensures Valid() && cache == Touch(maxEntries, old(cache), key, e)
    {
      if maxEntries.None? {
        return;
      }
      ghost var i :| 0 <= i < |cache| && cache[i] == Item(key, e);
      DeleteAt(cache, i);
      DeleteContents(cache, key);
      cache := Delete(cache, key);
      PutContents(cache, key, e);
      cache := Put(cache, key, e);
    }

    /** invalidate(): every entry, or only those of one call, given by the key prefix it owns. */
    method Invalidate(prefix: Option<string>)
      requires Valid()
      modifies `cache, `invalidations
      ensures Valid()
      ensures cache == if prefix.None? then [] else DropPrefix(old(cache), prefix.value)
      ensures forall x :: x in cache <==> x in old(cache) && prefix.Some? && !(prefix.value <= x.key)
      ensures invalidations == old(invalidations) + |old(cache)| - |cache|
    {
      hide DropPrefix;
      if prefix.None? {
        invalidations := invalidations + |cache|;
        cache := [];
        return;
      }
      var cleared := 0;
      var i := 0;
      while i < |cache|
        invariant 0 <= i <= |cache| && |cache| + cleared == |old(cache)| && Valid()
        invariant cache[..i] + DropPrefix(cache[i..], prefix.value) == DropPrefix(old(cache), prefix.value)
        invariant invalidations == old(invalidations)
        decreases |cache| - i
      {
        DropNext(cache, i, prefix.value);
        if StartsWith(cache[i].key, prefix.value) {
          label before:
          DeleteItem(i);
          assert cache[..i] == old@before(cache[..i]) && cache[i..] == old@before(cache[i + 1..]);
          cleared := cleared + 1;
        } else {
          i := i + 1;
        }
      }
      DropNothing(cache, prefix.value);
      invalidations := invalidations + cleared;
      DropPrefixContents(old(cache), prefix.value);
    }
  }
}
