/**
 How large the sharded cache (cache/lru.go) gets. The limit of a shard is the capacity of its lru slice:
 evicting shrinks the slice, and the next append lets the runtime grow it again.
 */
module LruLimits {
  import opened Arithmetic
  import opened Bytes
  import opened CacheHash
  import opened LruCache

  // ---- A limit that is kept ----

  /** Without a new capacity from the runtime that differs, an operation leaves the capacity alone. */
  lemma {:induction false} ShardStepKeepsCapacity(c: Config, h: seq<Op>, s: Shard, op: Op, i: nat)
    requires ShardOk(c, h, s) && s.capacity > 0 && c.grow(s.capacity - 1) == s.capacity
    ensures ShardStep(c, s, op, i).capacity == s.capacity
  {
    if op.Set? && op.key in s.data {
      KeepDropsOne(h, s.lru, op.key);
    }
  }

  lemma {:induction false} KeepDropsOne(h: seq<Op>, lru: seq<Key>, key: Key)
    requires InSetOrder(h, lru) && key in lru
    ensures |Keep(lru, {key})| < |lru|
  {
    if lru[0] == key {
      KeepMembers(lru[1..], {key}, key);
    } else {
      KeepDropsOne(h, lru[1..], key);
    }
  }

  lemma {:induction false} CapacityIsKept(c: Config, capacity: nat, h: seq<Op>, i: nat)
    requires c.Valid() && i < c.shardCount && capacity > 0 && c.grow(capacity - 1) == capacity
    ensures Run(c, Fresh(c, capacity), h)[i].capacity == capacity
  {
    if h != [] {
      var n := |h| - 1;
      CapacityIsKept(c, capacity, h[..n], i);
      StepKeepsCapacity(c, Fresh(c, capacity), h[..n], h[n], i);
    }
  }

  /** Whatever the capacity has become, it bounds the entries. */
  lemma {:induction false} EntriesFit(c: Config, start: Cache, h: seq<Op>, i: nat)
    requires c.Valid() && Empty(c, start) && i < c.shardCount
    ensures |Run(c, start, h)[i].data| <= Run(c, start, h)[i].capacity
  {
    RunKeepsOk(c, start, h);
    assert ShardOk(c, h, Run(c, start, h)[i]);
  }

  lemma {:induction false} StepKeepsCapacity(c: Config, start: Cache, h: seq<Op>, op: Op, i: nat)
    requires c.Valid() && Empty(c, start) && i < c.shardCount
    requires var s := Run(c, start, h)[i]; s.capacity > 0 && c.grow(s.capacity - 1) == s.capacity
    ensures Step(c, Run(c, start, h), op)[i].capacity == Run(c, start, h)[i].capacity
  {
    var before := Run(c, start, h);
    RunKeepsOk(c, start, h);
    StepIsShardStep(c, before, op, i);
    ShardStepKeepsCapacity(c, h, before[i], op, i);
  }

  // ---- Runs of new keys in one shard ----

  /** Different keys that all live in shard i. */
  ghost predicate Crowd(c: Config, i: nat, keys: nat -> Key) {
    (forall n :: c.place(keys(n)) == i) && (forall m, n :: m < n ==> keys(m) != keys(n))
  }

  ghost function Sets(keys: nat -> Key, n: nat): (h: seq<Op>)
    ensures |h| == n
  {
    if n == 0 then [] else Sets(keys, n - 1) + [Set(keys(n - 1), 0, 0)]
  }

  /** Entries and capacity of a shard after n new keys. */
  datatype Level = Level(entries: nat, capacity: nat)

  function NextLevel(grow: nat -> nat, level: Level): Level {
    if level.entries < level.capacity then Level(level.entries + 1, level.capacity)
    else if level.capacity == 0 then Level(1, grow(0))
    else Level(level.capacity, grow(level.capacity - 1))
  }

  function LevelAfter(grow: nat -> nat, capacity: nat, n: nat): Level {
    if n == 0 then Level(0, capacity) else NextLevel(grow, LevelAfter(grow, capacity, n - 1))
  }

  ghost predicate AtLevel(s: Shard, level: Level, keys: nat -> Key, n: nat) {
    && |s.data| == level.entries && s.capacity == level.capacity
    && forall m {:trigger keys(m)} :: m >= n ==> keys(m) !in s.data
  }

  lemma {:induction false} NewKeyWithRoom(s: Shard, key: Key, e: Entry, grow: nat -> nat)
    requires key !in s.data && |s.lru| == |s.data| < s.capacity
    ensures var s' := SetIn(s, key, e, grow);
            s'.data == s.data[key := e] && |s'.data| == |s.data| + 1 && s'.capacity == s.capacity
  {
    AppendedMap(s, key, e);
  }

  lemma {:induction false} NewKeyWithoutRoom(c: Config, h: seq<Op>, s: Shard, key: Key, e: Entry)
    requires ShardOk(c, h, s) && key !in s.data && |s.data| == s.capacity
    ensures var s' := SetIn(s, key, e, c.grow);
            && s'.data == EvictOldest(s).data[key := e]
            && |s'.data| == (if s.capacity == 0 then 1 else s.capacity)
            && s'.capacity == c.grow(if s.capacity == 0 then 0 else s.capacity - 1)
  {
    EvictKeepsOk(c, h, s);
    AppendedMap(EvictOldest(s), key, e);
  }

  lemma {:induction false} NewKeyLevel(c: Config, h: seq<Op>, s: Shard, key: Key, e: Entry)
    requires ShardOk(c, h, s) && key !in s.data
    ensures var s' := SetIn(s, key, e, c.grow);
            && (forall k :: k in s'.data ==> k in s.data || k == key)
            && Level(|s'.data|, s'.capacity) == NextLevel(c.grow, Level(|s.data|, s.capacity))
  {
    if |s.data| < s.capacity {
      NewKeyWithRoom(s, key, e, c.grow);
    } else {
      NewKeyWithoutRoom(c, h, s, key, e);
    }
  }

  lemma {:induction false} SetsReachLevel(c: Config, capacity: nat, i: nat, keys: nat -> Key, n: nat)
    requires c.Valid() && i < c.shardCount && Crowd(c, i, keys)
    ensures AtLevel(Run(c, Fresh(c, capacity), Sets(keys, n))[i], LevelAfter(c.grow, capacity, n), keys, n)
  {
    if n > 0 {
      var h, op := Sets(keys, n - 1), Set(keys(n - 1), 0, 0);
      SetsReachLevel(c, capacity, i, keys, n - 1);
      RunKeepsOk(c, Fresh(c, capacity), h);
      var before := Run(c, Fresh(c, capacity), h);
      assert (h + [op])[..n - 1] == h;
      assert Run(c, Fresh(c, capacity), Sets(keys, n)) == Step(c, before, op);
      StepIsShardStep(c, before, op, i);
      SetReachesLevel(c, h, before[i], LevelAfter(c.grow, capacity, n - 1), i, keys, n - 1);
    }
  }

  lemma {:induction false} SetReachesLevel(
    c: Config, h: seq<Op>, s: Shard, level: Level, i: nat, keys: nat -> Key, n: nat)
    requires ShardOk(c, h, s) && Crowd(c, i, keys) && AtLevel(s, level, keys, n)
    ensures AtLevel(SetIn(s, keys(n), Entry(0, c.ttl), c.grow), NextLevel(c.grow, level), keys, n + 1)
  {
    NewKeyLevel(c, h, s, keys(n), Entry(0, c.ttl));
  }

  lemma {:induction false} FirstKeysFit(grow: nat -> nat, capacity: nat, n: nat)
    requires n <= capacity
    ensures LevelAfter(grow, capacity, n) == Level(n, capacity)
  {
    if n > 0 {
      FirstKeysFit(grow, capacity, n - 1);
    }
  }

  lemma {:induction false} LevelExceeds(grow: nat -> nat, capacity: nat)
    requires capacity == 0 || grow(capacity - 1) > capacity
    ensures LevelAfter(grow, capacity, if capacity == 0 then 1 else capacity + 2).entries == capacity + 1
  {
    FirstKeysFit(grow, capacity, capacity);
    if capacity > 0 {
      assert LevelAfter(grow, capacity, capacity + 1) == Level(capacity, grow(capacity - 1));
    } else {
      assert LevelAfter(grow, 0, 1) == NextLevel(grow, Level(0, 0));
    }
  }

  /** The run that exceeds the limit: one key more than fit without a limit, or two keys more than fit. */
  lemma {:induction false} LimitIsExceeded(c: Config, capacity: nat, i: nat, keys: nat -> Key)
    requires c.Valid() && i < c.shardCount && Crowd(c, i, keys)
    requires capacity == 0 || c.grow(capacity - 1) != capacity
    ensures var n := if capacity == 0 then 1 else capacity + 2;
            |Run(c, Fresh(c, capacity), Sets(keys, n))[i].data| == capacity + 1
  {
    SetsReachLevel(c, capacity, i, keys, if capacity == 0 then 1 else capacity + 2);
    LevelExceeds(c.grow, capacity);
  }

  /**
   A shard created with a capacity stays within it in every run exactly when the capacity is positive and
   the runtime grows a full slice of one less back to it.
   */
  lemma {:induction false} LimitIsKeptIff(c: Config, capacity: nat, i: nat, keys: nat -> Key)
    requires c.Valid() && i < c.shardCount && Crowd(c, i, keys)
    ensures (forall h :: |Run(c, Fresh(c, capacity), h)[i].data| <= capacity)
            <==> capacity > 0 && c.grow(capacity - 1) == capacity
  {
    if capacity > 0 && c.grow(capacity - 1) == capacity {
      forall h ensures |Run(c, Fresh(c, capacity), h)[i].data| <= capacity {
        CapacityIsKept(c, capacity, h, i);
        EntriesFit(c, Fresh(c, capacity), h, i);
      }
    } else {
      LimitIsExceeded(c, capacity, i, keys);
    }
  }

  // ---- The whole cache ----

  ghost function Count(cache: Cache): nat {
    if cache == [] then 0 else Count(cache[..|cache| - 1]) + |cache[|cache| - 1].data|
  }

  lemma {:induction false} CountAtMost(cache: Cache, limit: nat)
    requires forall i :: 0 <= i < |cache| ==> |cache[i].data| <= limit
    ensures Count(cache) <= Times(|cache|, limit)
  {
    if cache != [] {
      CountAtMost(cache[..|cache| - 1], limit);
    }
  }

  lemma {:induction false} CountAtLeast(cache: Cache, n: nat)
    requires n <= |cache| && forall i :: 0 <= i < n ==> cache[i].data != map[]
    ensures Count(cache) >= n
    decreases |cache|
  {
    if cache != [] {
      var last := |cache| - 1;
      CountAtLeast(cache[..last], if n <= last then n else last);
      if n == |cache| {
        assert cache[last].data != map[];
        assert |cache[last].data| > 0;
      }
    }
  }

  lemma {:induction false} CountHoldsShard(cache: Cache, i: nat)
    requires i < |cache|
    ensures Count(cache) >= |cache[i].data|
    decreases |cache|
  {
    if i < |cache| - 1 {
      CountHoldsShard(cache[..|cache| - 1], i);
    }
  }

  /** Where every eviction is followed by real growth, a single shard grows beyond any number. */
  lemma {:induction false} LevelsGrow(grow: nat -> nat, capacity: nat, m: nat)
    requires capacity > 0 && forall n {:trigger grow(n)} :: n >= capacity - 1 ==> grow(n) >= n + 2
    ensures var level := LevelAfter(grow, capacity, 2 * m);
            level.entries >= m && capacity <= level.capacity && level.entries <= level.capacity
  {
    if m > 0 {
      LevelsGrow(grow, capacity, m - 1);
      var before := LevelAfter(grow, capacity, 2 * m - 2);
      var middle := LevelAfter(grow, capacity, 2 * m - 1);
      assert middle == NextLevel(grow, before);
    }
  }

  /** What the Go runtime does to a slice of strings: 0, 1, 2, then at least two more. */
  ghost predicate GoGrowth(grow: nat -> nat) {
    grow(0) == 1 && grow(1) == 2 && forall n {:trigger grow(n)} :: n >= 2 ==> grow(n) >= n + 2
  }

  /** Keys of n zero bytes: they all have the hash 0. */
  function ZeroKey(n: nat): Key {
    seq(n, _ => 0)
  }

  lemma {:induction false} ZeroKeysCollide(n: nat)
    ensures HashString(ZeroKey(n)) == 0
  {
    if n > 0 {
      ZeroKeysCollide(n - 1);
      assert ZeroKey(n)[..n - 1] == ZeroKey(n - 1);
    }
  }

  lemma {:induction false} ZeroKeysCrowd(c: Config, maxSize: int)
    requires c == CodeConfig(maxSize, c.grow, c.ttl)
    ensures Crowd(c, 0, ZeroKey)
  {
    forall n ensures c.place(ZeroKey(n)) == 0 {
      ZeroKeysCollide(n);
    }
    forall m, n | m < n ensures ZeroKey(m) != ZeroKey(n) {
      assert |ZeroKey(m)| != |ZeroKey(n)|;
    }
  }

  /** One-byte keys below 16 are spread over the shards. */
  function ByteKey(n: nat): Key {
    [n % 256]
  }

  lemma {:induction false} ByteKeyShard(c: Config, maxSize: int, n: nat)
    requires c == CodeConfig(maxSize, c.grow, c.ttl) && n < 16
    ensures c.place(ByteKey(n)) == n
  {
    assert ByteKey(n)[..0] == [];
    assert HashString(ByteKey(n)) == n;
    assert n % 16 == n % 32 == n % 64 == n;
  }

  /** A Set leaves its own key in its shard, and all keys in the others. */
  lemma {:induction false} SetAddsOne(c: Config, cache: Cache, op: Op, i: nat, key: Key)
    requires c.Valid() && |cache| == c.shardCount && i < |cache| && op.Set?
    requires if c.place(op.key) == i then op.key == key else key in cache[i].data
    ensures key in Step(c, cache, op)[i].data
  {
    StepIsShardStep(c, cache, op, i);
  }

  lemma {:induction false} SpreadFills(c: Config, maxSize: int, capacity: nat, n: nat)
    requires c == CodeConfig(maxSize, c.grow, c.ttl) && c.Valid() && n <= 16
    ensures forall i :: 0 <= i < n ==> ByteKey(i) in Run(c, Fresh(c, capacity), Sets(ByteKey, n))[i].data
  {
    if n > 0 {
      var h, op := Sets(ByteKey, n - 1), Set(ByteKey(n - 1), 0, 0);
      var before := Run(c, Fresh(c, capacity), h);
      SpreadFills(c, maxSize, capacity, n - 1);
      ByteKeyShard(c, maxSize, n - 1);
      assert (h + [op])[..n - 1] == h;
      assert Run(c, Fresh(c, capacity), Sets(ByteKey, n)) == Step(c, before, op);
      assert |before| == c.shardCount >= 16;
      forall i | 0 <= i < n ensures ByteKey(i) in Step(c, before, op)[i].data {
        SetAddsOne(c, before, op, i, ByteKey(i));
      }
    }
  }

  lemma {:induction false} SmallCacheOverflows(c: Config, maxSize: int)
    requires c == CodeConfig(maxSize, c.grow, c.ttl) && c.Valid() && -16 < maxSize < 16
    ensures exists h :: Count(Run(c, Fresh(c, ShardCapacity(maxSize)), h)) > maxSize
  {
    var n := if maxSize < 0 then 0 else maxSize + 1;
    var h := Sets(ByteKey, n);
    var after := Run(c, Fresh(c, ShardCapacity(maxSize)), h);
    SpreadFills(c, maxSize, ShardCapacity(maxSize), n);
    CountAtLeast(after, n);
  }

  lemma {:induction false} LargeCacheOverflows(c: Config, maxSize: int)
    requires c == CodeConfig(maxSize, c.grow, c.ttl) && c.Valid() && GoGrowth(c.grow) && maxSize >= 48
    ensures exists h :: Count(Run(c, Fresh(c, ShardCapacity(maxSize)), h)) > maxSize
  {
    var capacity := ShardCapacity(maxSize);
    assert capacity >= 3;
    var h := Sets(ZeroKey, 2 * (maxSize + 1));
    ZeroKeysCrowd(c, maxSize);
    LevelsGrow(c.grow, capacity, maxSize + 1);
    SetsReachLevel(c, capacity, 0, ZeroKey, 2 * (maxSize + 1));
    CountHoldsShard(Run(c, Fresh(c, capacity), h), 0);
  }

  lemma {:induction false} MediumCacheFits(c: Config, maxSize: int, h: seq<Op>)
    requires c == CodeConfig(maxSize, c.grow, c.ttl) && c.Valid() && GoGrowth(c.grow) && 16 <= maxSize < 48
    ensures Count(Run(c, Fresh(c, ShardCapacity(maxSize)), h)) <= maxSize
  {
    var capacity := ShardCapacity(maxSize);
    var after := Run(c, Fresh(c, capacity), h);
    forall i | 0 <= i < |after| ensures |after[i].data| <= capacity {
      CapacityIsKept(c, capacity, h, i);
      EntriesFit(c, Fresh(c, capacity), h, i);
    }
    CountAtMost(after, capacity);
    TimesIsProduct(16, capacity);
  }

  /**
   A cache made for maxSize entries never holds more, in any run, exactly when maxSize is at least 16 and
   below 48. Smaller ones put one entry into each of 16 shards; in larger ones a single shard outgrows maxSize.
   */
  lemma {:induction false} MaxSizeIsKeptIff(c: Config, maxSize: int)
    requires maxSize > -16 && c == CodeConfig(maxSize, c.grow, c.ttl) && c.Valid() && GoGrowth(c.grow)
    ensures (forall h :: Count(Run(c, Fresh(c, ShardCapacity(maxSize)), h)) <= maxSize) <==> 16 <= maxSize < 48
  {
    if maxSize < 16 {
      SmallCacheOverflows(c, maxSize);
    } else if maxSize >= 48 {
      LargeCacheOverflows(c, maxSize);
    } else {
      forall h ensures Count(Run(c, Fresh(c, ShardCapacity(maxSize)), h)) <= maxSize {
        MediumCacheFits(c, maxSize, h);
      }
    }
  }
}
