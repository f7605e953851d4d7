/** The MTU cache and the search for the path MTU (mtu/discovery.go). */
module MtuDiscovery {

  const MIN_MTU := 576
  const MAX_MTU := 9000

  datatype Entry = Entry(mtu: int, accessCount: nat, lastAccess: int, createdAt: int)

  type Cache = map<string, Entry>

  /** The order of the eviction sort: least used first, then longest unused. */
  predicate Before(a: Entry, b: Entry) {
    a.accessCount < b.accessCount || (a.accessCount == b.accessCount && a.lastAccess < b.lastAccess)
  }

  function Live(cache: Cache, now: int, expiry: int): Cache {
    map key | key in cache && now - cache[key].createdAt <= expiry :: cache[key]
  }

  /** What eviction may leave: the sort is not stable, so equally ranked entries are interchangeable. */
  ghost predicate Evicted(cache: Cache, now: int, expiry: int, maxSize: nat, rest: Cache) {
    var live := Live(cache, now, expiry);
    && (forall key :: key in rest ==> key in live && rest[key] == live[key])
    && (|live| <= maxSize ==> rest == live)
    && (|live| > maxSize ==>
          && |rest| == maxSize * 3 / 4
          && forall gone, kept :: gone in live && gone !in rest && kept in rest ==> !Before(live[kept], live[gone]))
  }

  /** No expired entry survives, and an unexpired one is dropped only when too many are left. */
  lemma EvictionIsJustified(cache: Cache, now: int, expiry: int, maxSize: nat, rest: Cache, key: string)
    requires Evicted(cache, now, expiry, maxSize, rest) && key in cache
    ensures now - cache[key].createdAt > expiry ==> key !in rest
    ensures now - cache[key].createdAt <= expiry && key !in rest ==> |Live(cache, now, expiry)| > maxSize
    ensures |rest| <= maxSize
  {
    assert key in Live(cache, now, expiry) <==> now - cache[key].createdAt <= expiry;
  }

  /** A dropped, unexpired entry was used no more often than any survivor and, if as often, no more recently. */
  lemma {:induction false} DroppedIsLeastUsed(
    cache: Cache, now: int, expiry: int, maxSize: nat, rest: Cache, gone: string, kept: string)
    requires Evicted(cache, now, expiry, maxSize, rest)
    requires gone in cache && now - cache[gone].createdAt <= expiry && gone !in rest && kept in rest
    ensures kept in cache && cache[gone].accessCount <= cache[kept].accessCount
    ensures cache[gone].accessCount == cache[kept].accessCount ==> cache[gone].lastAccess <= cache[kept].lastAccess
  {
    var live := Live(cache, now, expiry);
    assert gone in live && kept in live;
    assert !Before(live[kept], live[gone]);
  }

  lemma {:induction false} LeastExists(cache: Cache, rest: set<string>)
    requires rest != {} && rest <= cache.Keys
    ensures exists k :: k in rest && forall j :: j in rest ==> !Before(cache[j], cache[k])
    decreases rest
  {
    var x :| x in rest;
    if rest != {x} {
      LeastExists(cache, rest - {x});
      var k :| k in rest - {x} && forall j :: j in rest - {x} ==> !Before(cache[j], cache[k]);
      var least := if Before(cache[x], cache[k]) then x else k;
      assert forall j :: j in rest ==> !Before(cache[j], cache[least]);
    }
  }

  ghost predicate Sorted(cache: Cache, keys: seq<string>) {
    && (forall i :: 0 <= i < |keys| ==> keys[i] in cache)
    && (forall i, j :: 0 <= i < j < |keys| ==> keys[i] != keys[j] && !Before(cache[keys[j]], cache[keys[i]]))
  }

  /** sort.Slice: some order of the keys in which nothing stands behind a later-ranked entry. */
  method SortKeys(cache: Cache) returns (keys: seq<string>)
    ensures Sorted(cache, keys) && forall k :: k in keys <==> k in cache
    ensures |keys| == |cache|
  {
    keys := [];
    var rest := cache.Keys;
    while rest != {}
      invariant rest <= cache.Keys && Sorted(cache, keys)
      invariant forall k :: k in keys <==> k in cache && k !in rest
      invariant forall i, j :: 0 <= i < |keys| && j in rest ==> !Before(cache[j], cache[keys[i]])
      invariant |keys| + |rest| == |cache|
      decreases rest
    {
      LeastExists(cache, rest);
      var k :| k in rest && forall j :: j in rest ==> !Before(cache[j], cache[k]);
      keys := keys + [k];
      rest := rest - {k};
    }
  }

  /** Cutting a sorted listing in two: nothing that stays ranks before anything that goes. */
  lemma {:induction false} TailRanksHigher(cache: Cache, keys: seq<string>, rest: Cache, cut: nat)
    requires Sorted(cache, keys) && (forall k :: k in cache ==> k in keys)
    requires rest.Keys <= cache.Keys
    requires forall j :: 0 <= j < |keys| ==> (keys[j] in rest <==> cut <= j)
    ensures forall gone, kept :: gone in cache && gone !in rest && kept in rest ==>
              !Before(cache[kept], cache[gone])
  {
    forall gone, kept | gone in cache && gone !in rest && kept in rest
      ensures !Before(cache[kept], cache[gone])
    {
      assert gone in keys && kept in keys;
      var g :| 0 <= g < |keys| && keys[g] == gone;
      var k :| 0 <= k < |keys| && keys[k] == kept;
      assert g < cut <= k;
    }
  }

  class MTUDiscoverer {
    var cache: Cache
    const cacheExpiry: int
    const maxCacheSize: nat

    constructor (expiry: int, maxSize: nat)
      ensures cache == map[] && cacheExpiry == expiry && maxCacheSize == maxSize
    {
      cache, cacheExpiry, maxCacheSize := map[], expiry, maxSize;
    }

    method EvictStaleEntries(now: int)
      modifies this
      ensures Evicted(old(cache), now, cacheExpiry, maxCacheSize, cache)
    {
      var expired := set key | key in cache && now - cache[key].createdAt > cacheExpiry;
      ghost var live := Live(cache, now, cacheExpiry);
      DeleteAll(expired);
      assert cache == live;
      if |cache| > maxCacheSize {
        EvictLeastUsed();
      }
    }

    method DeleteAll(keys: set<string>)
      modifies this
      ensures cache == old(cache) - keys
    {
      var todo := keys;
      while todo != {}
        invariant todo <= keys && cache == old(cache) - (keys - todo)
        decreases todo
      {
        var key :| key in todo;
        cache := cache - {key};
        todo := todo - {key};
      }
    }

    /** Keeps three quarters of the maximum size. */
    method EvictLeastUsed()
      requires |cache| > maxCacheSize
      modifies this
      ensures forall key :: key in cache ==> key in old(cache) && cache[key] == old(cache)[key]
      ensures |cache| == maxCacheSize * 3 / 4
      ensures forall gone, kept :: gone in old(cache) && gone !in cache && kept in cache ==>
                !Before(old(cache)[kept], old(cache)[gone])
    {
      ghost var before := cache;
      var entries := SortKeys(cache);
      var toRemove := |cache| - maxCacheSize * 3 / 4;
      DeleteFirst(entries, toRemove);
      TailRanksHigher(before, entries, cache, toRemove);
    }

    method DeleteFirst(entries: seq<string>, toRemove: nat)
      requires Sorted(cache, entries) && toRemove <= |entries|
      modifies this
      ensures cache.Keys <= old(cache).Keys && |cache| == |old(cache)| - toRemove
      ensures forall key :: key in cache ==> cache[key] == old(cache)[key]
      ensures forall j :: 0 <= j < |entries| ==> (entries[j] in cache <==> toRemove <= j)
    {
      var i := 0;
      while i < toRemove && i < |entries|
        invariant 0 <= i <= toRemove
        invariant cache.Keys <= old(cache).Keys && |cache| == |old(cache)| - i
        invariant forall key :: key in cache ==> cache[key] == old(cache)[key]
        invariant forall j :: 0 <= j < |entries| ==> (entries[j] in cache <==> i <= j)
      {
        assert (cache - {entries[i]}).Keys == cache.Keys - {entries[i]};
        cache := cache - {entries[i]};
        i := i + 1;
      }
    }
  }

  /**
   The binary search, for any answers of the probe: the result is a size that works, or the minimum when
   nothing was found to work, and the next larger size is known not to work, or is beyond the maximum.
   */
  method DiscoverPathMTU(probe: int -> bool) returns (best: int)
    ensures MIN_MTU <= best <= MAX_MTU
    ensures probe(best) || (best == MIN_MTU && !probe(MIN_MTU))
    ensures probe(best) ==> best == MAX_MTU || !probe(best + 1)
  {
    var low, high := MIN_MTU, MAX_MTU;
    best := MIN_MTU;
    while low <= high
      invariant MIN_MTU <= low <= high + 1 <= MAX_MTU + 1
      invariant if low == MIN_MTU then best == MIN_MTU else best == low - 1 && probe(best)
      invariant high == MAX_MTU || !probe(high + 1)
      decreases high - low
    {
      var mid := (low + high) / 2;
      if probe(mid) {
        best, low := mid, mid + 1;
      } else {
        high := mid - 1;
      }
    }
  }

  /** When every size up to the path MTU works and none above does, the search finds it. */
  lemma {:induction false} SearchIsExact(probe: int -> bool, pathMTU: int, best: int)
    requires forall size :: MIN_MTU <= size <= MAX_MTU ==> (probe(size) <==> size <= pathMTU)
    requires MIN_MTU <= best <= MAX_MTU
    requires probe(best) || (best == MIN_MTU && !probe(MIN_MTU))
    requires probe(best) ==> best == MAX_MTU || !probe(best + 1)
    ensures best == if pathMTU < MIN_MTU then MIN_MTU else if pathMTU > MAX_MTU then MAX_MTU else pathMTU
  {
    assert probe(best) <==> best <= pathMTU;
    if best < MAX_MTU {
      assert probe(best + 1) <==> best + 1 <= pathMTU;
    }
  }
}
