/**
 The sharded cache (cache/lru.go) against a history of operations. A shard is a map, the lru slice and the
 capacity of that slice, which decides when to evict; how far an append grows a full slice is up to the
 runtime, so the growth is any function of the old capacity. Locks make each operation one step.
 Keys are byte strings; the cache never looks into values, here integers.
 */
module LruCache {
  import opened Bytes
  import opened CacheHash

  datatype Entry = Entry(value: int, expiresAt: int)

  datatype Shard = Shard(data: map<Key, Entry>, lru: seq<Key>, capacity: nat)

  /**
   place is the index of the shard that a key's hash selects, and grow the capacity of a slice after an append
   to a full one: any hash and any growth will do.
   */
  datatype Config = Config(place: Key -> nat, shardCount: nat, grow: nat -> nat, ttl: int) {
    ghost predicate Valid() {
      (forall key :: place(key) < shardCount) && (forall n :: grow(n) > n)
    }
  }

  type Cache = seq<Shard>

  datatype Op =
    | Set(key: Key, value: int, now: int)
    | Get(key: Key, now: int)
    | Delete(key: Key)
    | Clear
    | Cleanup(now: int)

  // ---- One shard ----

  /** lru without the dead keys. */
  function Keep(lru: seq<Key>, dead: set<Key>): seq<Key> {
    if lru == [] then [] else (if lru[0] in dead then [] else [lru[0]]) + Keep(lru[1..], dead)
  }

  function EvictOldest(s: Shard): Shard {
    if s.lru == [] then s
    else Shard(s.data - {s.lru[0]}, s.lru[1..], if s.capacity == 0 then 0 else s.capacity - 1)
  }

  function Append(s: Shard, key: Key, grow: nat -> nat): Shard {
    s.(lru := s.lru + [key], capacity := if |s.lru| < s.capacity then s.capacity else grow(s.capacity))
  }

  function MakeRoom(s: Shard): Shard {
    if |s.data| >= s.capacity then EvictOldest(s) else s
  }

  function SetIn(s: Shard, key: Key, e: Entry, grow: nat -> nat): Shard {
    if key in s.data then Append(s.(data := s.data[key := e], lru := Keep(s.lru, {key})), key, grow)
    else
      var room := MakeRoom(s);
      Append(room.(data := room.data[key := e]), key, grow)
  }

  function RemoveFrom(s: Shard, key: Key): Shard {
    if key in s.data then Drop(s, {key}) else s
  }

  function GetFrom(s: Shard, key: Key, now: int): (Shard, Option<int>) {
    if key !in s.data then (s, None)
    else if now > s.data[key].expiresAt then (RemoveFrom(s, key), None)
    else (s, Some(s.data[key].value))
  }

  function ExpiredKeys(s: Shard, now: int): set<Key> {
    set key | key in s.data && now > s.data[key].expiresAt
  }

  /** The shard without the dead keys. */
  function Drop(s: Shard, dead: set<Key>): Shard {
    s.(data := s.data - dead, lru := Keep(s.lru, dead))
  }

  function CleanupIn(s: Shard, now: int): Shard {
    Drop(s, ExpiredKeys(s, now))
  }

  // ---- The history ----

  /** The last Set of the key that no Delete of the key and no Clear has undone. */
  function LastSet(h: seq<Op>, key: Key): (i: Option<nat>)
    ensures i.Some? ==> i.value < |h| && h[i.value].Set? && h[i.value].key == key
  {
    if h == [] then None
    else
      var n := |h| - 1;
      match h[n]
      case Set(k, _, _) => if k == key then Some(n) else LastSet(h[..n], key)
      case Delete(k) => if k == key then None else LastSet(h[..n], key)
      case Clear => None
      case Get(_, _) => LastSet(h[..n], key)
      case Cleanup(_) => LastSet(h[..n], key)
  }

  /** Strictly ordered by last Set, so in particular without duplicates. */
  ghost predicate InSetOrder(h: seq<Op>, lru: seq<Key>) {
    lru == [] ||
    (&& LastSet(h, lru[0]).Some?
     && InSetOrder(h, lru[1..])
     && forall k {:trigger k in lru[1..]} :: k in lru[1..] ==>
          LastSet(h, k).Some? && LastSet(h, lru[0]).value < LastSet(h, k).value)
  }

  /** lru lists exactly the keys of the map, once each, in order of their last Set. */
  ghost predicate ShardOk(c: Config, h: seq<Op>, s: Shard) {
    && InSetOrder(h, s.lru) && (forall key :: key in s.lru <==> key in s.data)
    && |s.lru| <= s.capacity && |s.lru| == |s.data|
    && (forall key {:trigger EntryOk(c, h, key, s.data[key])} :: key in s.data ==> EntryOk(c, h, key, s.data[key]))
  }

  ghost predicate EntryOk(c: Config, h: seq<Op>, key: Key, e: Entry) {
    LastSet(h, key).Some? &&
    var op := h[LastSet(h, key).value];
    e == Entry(op.value, op.now + c.ttl)
  }

  lemma {:induction false} LastSetAfter(h: seq<Op>, op: Op, key: Key)
    ensures LastSet(h + [op], key) ==
            (match op
             case Set(k, _, _) => if k == key then Some(|h|) else LastSet(h, key)
             case Delete(k) => if k == key then None else LastSet(h, key)
             case Clear => None
             case Get(_, _) => LastSet(h, key)
             case Cleanup(_) => LastSet(h, key))
  {
    assert (h + [op])[..|h|] == h;
  }

  lemma {:induction false} KeepMembers(lru: seq<Key>, dead: set<Key>, k: Key)
    ensures k in Keep(lru, dead) <==> k in lru && k !in dead
    ensures |Keep(lru, dead)| <= |lru|
  {
    if lru != [] {
      KeepMembers(lru[1..], dead, k);
    }
  }

  lemma {:induction false} KeepOrder(h: seq<Op>, lru: seq<Key>, dead: set<Key>)
    requires InSetOrder(h, lru)
    ensures InSetOrder(h, Keep(lru, dead))
  {
    if lru != [] {
      KeepOrder(h, lru[1..], dead);
      forall k | k in Keep(lru[1..], dead) ensures k in lru[1..] {
        KeepMembers(lru[1..], dead, k);
      }
      if lru[0] in dead {
        assert Keep(lru, dead) == Keep(lru[1..], dead);
      } else {
        assert Keep(lru, dead)[1..] == Keep(lru[1..], dead);
      }
    }
  }

  /** An operation that leaves the stamps of these keys alone leaves them in order. */
  lemma {:induction false} FrameOrder(h: seq<Op>, op: Op, lru: seq<Key>)
    requires InSetOrder(h, lru) && forall k :: k in lru ==> LastSet(h + [op], k) == LastSet(h, k)
    ensures InSetOrder(h + [op], lru)
  {
    if lru != [] {
      FrameOrder(h, op, lru[1..]);
    }
  }

  lemma {:induction false} AppendOrder(h: seq<Op>, lru: seq<Key>, key: Key)
    requires InSetOrder(h, lru) && LastSet(h, key).Some?
    requires forall k :: k in lru ==> LastSet(h, k).Some? && LastSet(h, k).value < LastSet(h, key).value
    ensures InSetOrder(h, lru + [key])
  {
    if lru == [] {
      assert (lru + [key])[1..] == [];
    } else {
      AppendOrder(h, lru[1..], key);
      assert (lru + [key])[1..] == lru[1..] + [key];
    }
  }

  lemma {:induction false} OrderIsDistinct(h: seq<Op>, lru: seq<Key>, data: set<Key>)
    requires InSetOrder(h, lru) && forall k :: k in lru <==> k in data
    ensures |lru| == |data|
  {
    if lru == [] {
      assert data == {};
    } else {
      var tail := lru[1..];
      assert lru[0] !in tail;
      OrderIsDistinct(h, tail, data - {lru[0]});
    }
  }

  // ---- Every operation keeps a shard in step with the history ----

  lemma {:induction false} DropKeepsOk(c: Config, h: seq<Op>, s: Shard, dead: set<Key>)
    requires ShardOk(c, h, s)
    ensures ShardOk(c, h, Drop(s, dead))
  {
    var s' := Drop(s, dead);
    KeepOrder(h, s.lru, dead);
    forall k ensures k in s'.lru <==> k in s'.data {
      KeepMembers(s.lru, dead, k);
    }
    KeepMembers(s.lru, dead, []);
    OrderIsDistinct(h, s'.lru, s'.data.Keys);
  }

  lemma {:induction false} EvictKeepsOk(c: Config, h: seq<Op>, s: Shard)
    requires ShardOk(c, h, s)
    ensures ShardOk(c, h, EvictOldest(s))
  {
    if s.lru != [] {
      var s' := EvictOldest(s);
      assert s.lru[0] !in s.lru[1..];
      assert forall k :: k in s'.lru <==> k in s'.data;
      OrderIsDistinct(h, s'.lru, s'.data.Keys);
    }
  }

  /** An operation on other keys leaves the shard in step. */
  lemma {:induction false} FrameShard(c: Config, h: seq<Op>, op: Op, s: Shard)
    requires ShardOk(c, h, s) && !op.Clear? && (op.Set? || op.Delete? ==> op.key !in s.data)
    ensures ShardOk(c, h + [op], s)
  {
    forall k | k in s.data ensures LastSet(h + [op], k) == LastSet(h, k) && EntryOk(c, h + [op], k, s.data[k]) {
      LastSetAfter(h, op, k);
      assert EntryOk(c, h, k, s.data[k]);
    }
    FrameOrder(h, op, s.lru);
  }

  /** Appending the key just set to a shard that does not hold it. */
  lemma {:induction false} AppendKeepsOk(c: Config, h: seq<Op>, op: Op, s: Shard, e: Entry)
    requires c.Valid() && op.Set? && ShardOk(c, h, s) && op.key !in s.data && e == Entry(op.value, op.now + c.ttl)
    ensures ShardOk(c, h + [op], Append(s.(data := s.data[op.key := e]), op.key, c.grow))
  {
    var h' := h + [op];
    LastSetAfter(h, op, op.key);
    FrameShard(c, h, op, s);
    NewestComesLast(c, h, op, s);
    AppendedMap(s, op.key, e);
    assert EntryOk(c, h', op.key, e);
    var s' := Append(s.(data := s.data[op.key := e]), op.key, c.grow);
    forall k | k in s'.data ensures EntryOk(c, h', k, s'.data[k]) {
      if k != op.key {
        assert EntryOk(c, h', k, s.data[k]);
      }
    }
  }

  lemma {:induction false} NewestComesLast(c: Config, h: seq<Op>, op: Op, s: Shard)
    requires op.Set? && ShardOk(c, h, s) && InSetOrder(h + [op], s.lru)
    requires LastSet(h + [op], op.key) == Some(|h|) && op.key !in s.data
    ensures InSetOrder(h + [op], s.lru + [op.key])
  {
    forall k | k in s.lru ensures LastSet(h + [op], k).Some? && LastSet(h + [op], k).value < |h| {
      LastSetAfter(h, op, k);
      assert EntryOk(c, h, k, s.data[k]);
    }
    AppendOrder(h + [op], s.lru, op.key);
  }

  lemma {:induction false} AppendedMap(s: Shard, key: Key, e: Entry)
    requires key !in s.data
    ensures s.data[key := e].Keys == s.data.Keys + {key} && |s.data[key := e]| == |s.data| + 1
  {
    assert s.data[key := e].Keys == s.data.Keys + {key};
  }

  lemma {:induction false} SetKeepsOk(c: Config, h: seq<Op>, op: Op, s: Shard)
    requires c.Valid() && op.Set? && ShardOk(c, h, s)
    ensures ShardOk(c, h + [op], SetIn(s, op.key, Entry(op.value, op.now + c.ttl), c.grow))
  {
    var e := Entry(op.value, op.now + c.ttl);
    if op.key in s.data {
      ResetKeepsOk(c, h, op, s, e);
    } else {
      EvictKeepsOk(c, h, s);
      AppendKeepsOk(c, h, op, MakeRoom(s), e);
    }
  }

  lemma {:induction false} ResetKeepsOk(c: Config, h: seq<Op>, op: Op, s: Shard, e: Entry)
    requires c.Valid() && op.Set? && ShardOk(c, h, s) && op.key in s.data && e == Entry(op.value, op.now + c.ttl)
    ensures ShardOk(c, h + [op], SetIn(s, op.key, e, c.grow))
  {
    DropKeepsOk(c, h, s, {op.key});
    AppendKeepsOk(c, h, op, Drop(s, {op.key}), e);
    ResetIsDropAndAppend(s, op.key, e, c.grow);
  }

  lemma {:induction false} ResetIsDropAndAppend(s: Shard, key: Key, e: Entry, grow: nat -> nat)
    requires key in s.data
    ensures var s' := Drop(s, {key});
            SetIn(s, key, e, grow) == Append(s'.(data := s'.data[key := e]), key, grow)
  {
    assert Drop(s, {key}).data[key := e] == s.data[key := e];
  }

  lemma {:induction false} RemoveKeepsOk(c: Config, h: seq<Op>, op: Op, s: Shard)
    requires ShardOk(c, h, s) && (op.Get? || op.Delete?)
    ensures ShardOk(c, h + [op], RemoveFrom(s, op.key))
  {
    if op.key in s.data {
      DropKeepsOk(c, h, s, {op.key});
      FrameShard(c, h, op, Drop(s, {op.key}));
    } else {
      FrameShard(c, h, op, s);
    }
  }

  lemma {:induction false} GetKeepsOk(c: Config, h: seq<Op>, op: Op, s: Shard)
    requires ShardOk(c, h, s) && op.Get?
    ensures ShardOk(c, h + [op], GetFrom(s, op.key, op.now).0)
  {
    RemoveKeepsOk(c, h, op, s);
    FrameShard(c, h, op, s);
  }

  lemma {:induction false} CleanupKeepsOk(c: Config, h: seq<Op>, op: Op, s: Shard)
    requires ShardOk(c, h, s) && op.Cleanup?
    ensures ShardOk(c, h + [op], CleanupIn(s, op.now))
  {
    DropKeepsOk(c, h, s, ExpiredKeys(s, op.now));
    FrameShard(c, h, op, Drop(s, ExpiredKeys(s, op.now)));
  }

  // ---- The whole cache ----

  function Step(c: Config, cache: Cache, op: Op): Cache
    requires c.Valid() && |cache| == c.shardCount
  {
    match op
    case Set(key, value, now) =>
      var i := c.place(key);
      cache[i := SetIn(cache[i], key, Entry(value, now + c.ttl), c.grow)]
    case Get(key, now) =>
      var i := c.place(key);
      cache[i := GetFrom(cache[i], key, now).0]
    case Delete(key) =>
      var i := c.place(key);
      cache[i := RemoveFrom(cache[i], key)]
    case Clear => seq(|cache|, i requires 0 <= i < |cache| => Shard(map[], [], cache[i].capacity))
    case Cleanup(now) => seq(|cache|, i requires 0 <= i < |cache| => CleanupIn(cache[i], now))
  }

  function Lookup(c: Config, cache: Cache, key: Key, now: int): Option<int>
    requires c.Valid() && |cache| == c.shardCount
  {
    GetFrom(cache[c.place(key)], key, now).1
  }

  ghost predicate Homed(c: Config, s: Shard, i: nat)
    requires c.Valid()
  {
    forall key :: key in s.data ==> c.place(key) == i
  }

  /** The cache is in step with the history of its operations. */
  ghost predicate CacheOk(c: Config, h: seq<Op>, cache: Cache)
    requires c.Valid()
  {
    && |cache| == c.shardCount
    && (forall i :: 0 <= i < |cache| ==> ShardOk(c, h, cache[i]) && Homed(c, cache[i], i))
  }

  /** What an operation does to shard i. */
  function ShardStep(c: Config, s: Shard, op: Op, i: nat): Shard {
    match op
    case Set(key, value, now) =>
      if c.place(key) == i then SetIn(s, key, Entry(value, now + c.ttl), c.grow) else s
    case Get(key, now) => if c.place(key) == i then GetFrom(s, key, now).0 else s
    case Delete(key) => if c.place(key) == i then RemoveFrom(s, key) else s
    case Clear => Shard(map[], [], s.capacity)
    case Cleanup(now) => CleanupIn(s, now)
  }

  lemma {:induction false} StepIsShardStep(c: Config, cache: Cache, op: Op, i: nat)
    requires c.Valid() && |cache| == c.shardCount && i < |cache|
    ensures Step(c, cache, op)[i] == ShardStep(c, cache[i], op, i)
  {
  }

  lemma {:induction false} OwnShardKeepsOk(c: Config, h: seq<Op>, s: Shard, op: Op, i: nat)
    requires c.Valid() && ShardOk(c, h, s) && (op.Set? || op.Get? || op.Delete?) && c.place(op.key) == i
    ensures ShardOk(c, h + [op], ShardStep(c, s, op, i))
  {
    match op
    case Set(_, _, _) =>
      SetKeepsOk(c, h, op, s);
      assert ShardStep(c, s, op, i) == SetIn(s, op.key, Entry(op.value, op.now + c.ttl), c.grow);
    case Get(_, _) =>
      GetKeepsOk(c, h, op, s);
      assert ShardStep(c, s, op, i) == GetFrom(s, op.key, op.now).0;
    case Delete(_) =>
      RemoveKeepsOk(c, h, op, s);
      assert ShardStep(c, s, op, i) == RemoveFrom(s, op.key);
  }

  lemma {:induction false} EmptyShardOk(c: Config, h: seq<Op>, capacity: nat)
    ensures ShardOk(c, h, Shard(map[], [], capacity))
  {
  }

  lemma {:induction false} ShardStepKeepsOk(c: Config, h: seq<Op>, s: Shard, op: Op, i: nat)
    requires c.Valid() && ShardOk(c, h, s) && Homed(c, s, i)
    ensures ShardOk(c, h + [op], ShardStep(c, s, op, i))
  {
    if op.Clear? {
      EmptyShardOk(c, h + [op], s.capacity);
    } else if op.Cleanup? {
      CleanupKeepsOk(c, h, op, s);
    } else if c.place(op.key) == i {
      OwnShardKeepsOk(c, h, s, op, i);
    } else {
      FrameShard(c, h, op, s);
    }
  }

  lemma {:induction false} ShardStepKeepsHome(c: Config, s: Shard, op: Op, i: nat)
    requires c.Valid() && Homed(c, s, i)
    ensures Homed(c, ShardStep(c, s, op, i), i)
  {
  }

  lemma {:induction false} StepKeepsShard(c: Config, h: seq<Op>, cache: Cache, op: Op, i: nat)
    requires c.Valid() && CacheOk(c, h, cache) && i < |cache|
    ensures ShardOk(c, h + [op], Step(c, cache, op)[i]) && Homed(c, Step(c, cache, op)[i], i)
  {
    assert ShardOk(c, h, cache[i]) && Homed(c, cache[i], i);
    StepIsShardStep(c, cache, op, i);
    ShardStepKeepsOk(c, h, cache[i], op, i);
    ShardStepKeepsHome(c, cache[i], op, i);
  }

  lemma {:induction false} StepKeepsOk(c: Config, h: seq<Op>, cache: Cache, op: Op)
    requires c.Valid() && CacheOk(c, h, cache)
    ensures CacheOk(c, h + [op], Step(c, cache, op))
  {
    forall i | 0 <= i < |cache|
      ensures ShardOk(c, h + [op], Step(c, cache, op)[i]) && Homed(c, Step(c, cache, op)[i], i)
    {
      StepKeepsShard(c, h, cache, op, i);
    }
  }

  ghost function Run(c: Config, cache: Cache, h: seq<Op>): (r: Cache)
    requires c.Valid() && |cache| == c.shardCount
    ensures |r| == c.shardCount
  {
    if h == [] then cache else Step(c, Run(c, cache, h[..|h| - 1]), h[|h| - 1])
  }

  ghost predicate Empty(c: Config, cache: Cache) {
    |cache| == c.shardCount && forall i :: 0 <= i < |cache| ==> cache[i].data == map[] && cache[i].lru == []
  }

  lemma {:induction false} RunKeepsOk(c: Config, cache: Cache, h: seq<Op>)
    requires c.Valid() && Empty(c, cache)
    ensures CacheOk(c, h, Run(c, cache, h))
  {
    if h != [] {
      var n := |h| - 1;
      RunKeepsOk(c, cache, h[..n]);
      StepKeepsOk(c, h[..n], Run(c, cache, h[..n]), h[n]);
      assert h[..n] + [h[n]] == h;
    }
  }

  /**
   After any run, a hit returns the value of the last Set of that key, which nothing has deleted or cleared
   since and which has not expired.
   */
  lemma HitIsLastSet(c: Config, cache: Cache, h: seq<Op>, key: Key, now: int)
    requires c.Valid() && Empty(c, cache)
    ensures var hit := Lookup(c, Run(c, cache, h), key, now);
            hit.Some? ==>
              && LastSet(h, key).Some?
              && var op := h[LastSet(h, key).value];
              hit.value == op.value && now <= op.now + c.ttl
  {
    RunKeepsOk(c, cache, h);
    var s := Run(c, cache, h)[c.place(key)];
    if key in s.data {
      assert EntryOk(c, h, key, s.data[key]);
    }
  }

  /** What was just set is found until it expires. */
  lemma SetIsFound(c: Config, h: seq<Op>, cache: Cache, op: Op, now: int)
    requires c.Valid() && CacheOk(c, h, cache) && op.Set?
    ensures Lookup(c, Step(c, cache, op), op.key, now)
            == if now <= op.now + c.ttl then Some(op.value) else None
  {
  }

  /** After any run a lookup finds exactly the keys that are held and have not expired, with their last value. */
  lemma {:induction false} FoundIff(c: Config, cache: Cache, h: seq<Op>, key: Key, now: int)
    requires c.Valid() && Empty(c, cache)
    ensures var s := Run(c, cache, h)[c.place(key)];
            key in s.data ==> LastSet(h, key).Some?
    ensures var s := Run(c, cache, h)[c.place(key)];
            Lookup(c, Run(c, cache, h), key, now)
            == if key in s.data && now <= h[LastSet(h, key).value].now + c.ttl
               then Some(h[LastSet(h, key).value].value) else None
  {
    RunKeepsOk(c, cache, h);
    var s := Run(c, cache, h)[c.place(key)];
    if key in s.data {
      assert EntryOk(c, h, key, s.data[key]);
    }
  }

  /** A clean-up leaves nothing that has expired, and everything that has not. */
  lemma {:induction false} CleanupIsExact(c: Config, cache: Cache, now: int, i: nat, key: Key)
    requires c.Valid() && |cache| == c.shardCount && i < |cache|
    ensures key in Step(c, cache, Cleanup(now))[i].data
            <==> key in cache[i].data && now <= cache[i].data[key].expiresAt
    ensures key in Step(c, cache, Cleanup(now))[i].data ==>
              Step(c, cache, Cleanup(now))[i].data[key] == cache[i].data[key]
  {
    StepIsShardStep(c, cache, Cleanup(now), i);
  }

  /** A lookup of an expired entry removes it, and no other lookup changes anything. */
  lemma {:induction false} GetRemovesExpired(c: Config, cache: Cache, key: Key, now: int)
    requires c.Valid() && |cache| == c.shardCount
    ensures var s := cache[c.place(key)];
            if key in s.data && now > s.data[key].expiresAt
            then key !in Step(c, cache, Get(key, now))[c.place(key)].data
            else Step(c, cache, Get(key, now)) == cache
  {
    var i := c.place(key);
    StepIsShardStep(c, cache, Get(key, now), i);
    assert cache[i := cache[i]] == cache;
  }

  /** The key was held until the k-th operation of the run, which lost it. */
  ghost predicate LostAt(c: Config, cache: Cache, h: seq<Op>, k: nat, key: Key)
    requires c.Valid() && |cache| == c.shardCount
  {
    && k < |h| && key in Run(c, cache, h[..k])[c.place(key)].data
    && key !in Step(c, Run(c, cache, h[..k]), h[k])[c.place(key)].data
  }

  /** A key that was set is held until some later operation loses it; LossIsExplained says which can. */
  lemma {:induction false} HeldUntilLost(c: Config, cache: Cache, h: seq<Op>, key: Key)
    requires c.Valid() && Empty(c, cache) && LastSet(h, key).Some?
    requires key !in Run(c, cache, h)[c.place(key)].data
    ensures exists k: nat :: k > LastSet(h, key).value && LostAt(c, cache, h, k, key)
  {
    var n := |h| - 1;
    var before := Run(c, cache, h[..n]);
    assert Run(c, cache, h) == Step(c, before, h[n]);
    if h[n].Set? && h[n].key == key {
      StepIsShardStep(c, before, h[n], c.place(key));
    } else if key in before[c.place(key)].data {
      assert LostAt(c, cache, h, n, key);
    } else {
      HeldUntilLost(c, cache, h[..n], key);
      var k: nat :| k > LastSet(h[..n], key).value && LostAt(c, cache, h[..n], k, key);
      assert h[..n][..k] == h[..k];
      assert LostAt(c, cache, h, k, key);
    }
  }

  ghost predicate SetEarlier(h: seq<Op>, a: Key, b: Key) {
    LastSet(h, a).Some? && LastSet(h, b).Some? && LastSet(h, a).value < LastSet(h, b).value
  }

  /** A Set drops a key only for capacity, and then the least recently set key of the shard. */
  lemma EvictsLeastRecentlySet(c: Config, h: seq<Op>, cache: Cache, op: Op, gone: Key)
    requires c.Valid() && CacheOk(c, h, cache) && op.Set?
    requires gone in cache[c.place(op.key)].data
    requires gone !in Step(c, cache, op)[c.place(op.key)].data
    ensures var s := cache[c.place(op.key)];
            && op.key !in s.data && |s.data| == s.capacity
            && forall k :: k in s.data && k != gone ==> SetEarlier(h, gone, k)
  {
    var s := cache[c.place(op.key)];
    assert ShardOk(c, h, s);
    assert gone == s.lru[0];
    assert forall k :: k in s.lru ==> k == s.lru[0] || k in s.lru[1..];
  }

  /** Nothing else makes a key disappear: it was deleted, cleared, had expired, or was evicted as the oldest. */
  lemma {:induction false} LossIsExplained(c: Config, h: seq<Op>, cache: Cache, op: Op, gone: Key)
    requires c.Valid() && CacheOk(c, h, cache)
    requires gone in cache[c.place(gone)].data && gone !in Step(c, cache, op)[c.place(gone)].data
    ensures var s := cache[c.place(gone)];
            match op
            case Delete(key) => key == gone
            case Clear => true
            case Get(key, now) => key == gone && now > s.data[gone].expiresAt
            case Cleanup(now) => now > s.data[gone].expiresAt
            case Set(key, _, _) =>
              && key != gone && c.place(key) == c.place(gone) && |s.data| == s.capacity
              && forall k :: k in s.data && k != gone ==> SetEarlier(h, gone, k)
  {
    StepIsShardStep(c, cache, op, c.place(gone));
    if op.Set? && c.place(op.key) == c.place(gone) {
      EvictsLeastRecentlySet(c, h, cache, op, gone);
    }
  }

  // ---- The configuration that the code sets up ----

  /** Shards and capacity on both sides of the two sizes at which the number of shards doubles. */
  lemma {:induction false} ShardsByHand()
    ensures NumShards(10000) == 16 && ShardCapacity(10000) == 625
    ensures NumShards(10001) == 32 && ShardCapacity(10001) == 312
    ensures NumShards(100000) == 32 && ShardCapacity(100000) == 3125
    ensures NumShards(100001) == 64 && ShardCapacity(100001) == 1562
  {
  }

  function NumShards(maxSize: int): (n: nat)
    ensures n > 0
  {
    if maxSize > 100000 then 64 else if maxSize > 10000 then 32 else 16
  }

  /** The capacity of each shard: Go's division truncates, and a negative capacity would panic. */
  function ShardCapacity(maxSize: int): nat
    requires maxSize > -16
  {
    if maxSize < 0 then 0 else maxSize / NumShards(maxSize)
  }

  /** The number of shards is a power of two, so masking the hash is taking it modulo that number. */
  function CodeConfig(maxSize: int, grow: nat -> nat, ttl: int): Config {
    Config((key: Key) => HashString(key) % NumShards(maxSize), NumShards(maxSize), grow, ttl)
  }

  function Fresh(c: Config, capacity: nat): Cache {
    seq(c.shardCount, _ => Shard(map[], [], capacity))
  }

  // ---- The cache object ----

  class LRUCache {
    const config: Config
    var shards: Cache
    ghost var history: seq<Op>

    ghost predicate Valid()
      reads this
    {
      config.Valid() && CacheOk(config, history, shards)
    }

    constructor (maxSize: int, ttl: int, grow: nat -> nat)
      requires maxSize > -16 && forall n :: grow(n) > n
      ensures Valid() && history == []
      ensures config == CodeConfig(maxSize, grow, ttl)
      ensures shards == Fresh(config, ShardCapacity(maxSize))
    {
      config := CodeConfig(maxSize, grow, ttl);
      shards := Fresh(CodeConfig(maxSize, grow, ttl), ShardCapacity(maxSize));
      history := [];
    }

    method Set(key: Key, value: int, now: int)
      requires Valid()
      modifies this
      ensures Valid() && history == old(history) + [Op.Set(key, value, now)]
      ensures shards == Step(config, old(shards), Op.Set(key, value, now))
    {
      StepKeepsOk(config, history, shards, Op.Set(key, value, now));
      ListsAreDistinct(config, history, shards, config.place(key));
      Store(config.place(key), key, Entry(value, now + config.ttl));
      history := history + [Op.Set(key, value, now)];
    }

    method Store(i: nat, key: Key, e: Entry)
      requires i < |shards| && Distinct(shards[i].lru)
      modifies this`shards
      ensures shards == old(shards)[i := SetIn(old(shards)[i], key, e, config.grow)]
    {
      var shard := SetInShard(shards[i], key, e, config.grow);
      shards := shards[i := shard];
    }

    /** An expired entry is removed on the way. */
    method Get(key: Key, now: int) returns (r: Option<int>)
      requires Valid()
      modifies this
      ensures Valid() && history == old(history) + [Op.Get(key, now)]
      ensures shards == Step(config, old(shards), Op.Get(key, now))
      ensures r == Lookup(config, old(shards), key, now)
    {
      StepKeepsOk(config, history, shards, Op.Get(key, now));
      var i := config.place(key);
      ListsAreDistinct(config, history, shards, i);
      var shard;
      shard, r := GetFromShard(shards[i], key, now);
      shards := shards[i := shard];
      history := history + [Op.Get(key, now)];
    }

    method Delete(key: Key) returns (existed: bool)
      requires Valid()
      modifies this
      ensures Valid() && history == old(history) + [Op.Delete(key)]
      ensures shards == Step(config, old(shards), Op.Delete(key))
      ensures existed <==> key in old(shards)[config.place(key)].data
    {
      StepKeepsOk(config, history, shards, Op.Delete(key));
      var i := config.place(key);
      ListsAreDistinct(config, history, shards, i);
      existed := key in shards[i].data;
      if existed {
        var shard := DeleteFromShard(shards[i], key);
        shards := shards[i := shard];
      } else {
        assert shards[i := shards[i]] == shards;
      }
      history := history + [Op.Delete(key)];
    }

    method Clear()
      requires Valid()
      modifies this
      ensures Valid() && history == old(history) + [Op.Clear]
      ensures shards == Step(config, old(shards), Op.Clear) && Empty(config, shards)
    {
      StepKeepsOk(config, history, shards, Op.Clear);
      ghost var cleared := Step(config, shards, Op.Clear);
      for i := 0 to |shards|
        invariant |shards| == |cleared| && config.shardCount == |shards|
        invariant forall k :: 0 <= k < |shards| ==> shards[k] == if k < i then cleared[k] else old(shards)[k]
        invariant history == old(history)
      {
        shards := shards[i := Shard(map[], [], shards[i].capacity)];
      }
      assert shards == cleared;
      history := history + [Op.Clear];
    }

    method Cleanup(now: int)
      requires Valid()
      modifies this
      ensures Valid() && history == old(history) + [Op.Cleanup(now)]
      ensures shards == Step(config, old(shards), Op.Cleanup(now))
    {
      StepKeepsOk(config, history, shards, Op.Cleanup(now));
      forall i | 0 <= i < |shards| ensures Distinct(shards[i].lru) {
        ListsAreDistinct(config, history, shards, i);
      }
      CleanupShards(now);
      assert shards == Step(config, old(shards), Op.Cleanup(now));
      history := history + [Op.Cleanup(now)];
    }

    method CleanupShards(now: int)
      requires forall i :: 0 <= i < |shards| ==> Distinct(shards[i].lru)
      modifies this`shards
      ensures |shards| == |old(shards)|
      ensures forall i :: 0 <= i < |shards| ==> shards[i] == CleanupIn(old(shards)[i], now)
    {
      for i := 0 to |shards|
        invariant |shards| == |old(shards)|
        invariant forall k :: 0 <= k < i ==> shards[k] == CleanupIn(old(shards)[k], now)
        invariant forall k :: i <= k < |shards| ==> shards[k] == old(shards)[k]
      {
        var shard := CleanupShard(shards[i], now);
        shards := shards[i := shard];
      }
    }
  }

  // ---- Shard methods ----

  ghost predicate Distinct(lru: seq<Key>) {
    forall a, b :: 0 <= a < b < |lru| ==> lru[a] != lru[b]
  }

  lemma {:induction false} ListsAreDistinct(c: Config, h: seq<Op>, cache: Cache, i: nat)
    requires c.Valid() && CacheOk(c, h, cache) && i < |cache|
    ensures Distinct(cache[i].lru)
  {
    assert ShardOk(c, h, cache[i]);
    OrderMeansDistinct(h, cache[i].lru);
  }

  lemma {:induction false} OrderMeansDistinct(h: seq<Op>, lru: seq<Key>)
    requires InSetOrder(h, lru)
    ensures Distinct(lru)
  {
    if lru != [] {
      OrderMeansDistinct(h, lru[1..]);
      assert lru[0] !in lru[1..];
      assert forall a :: 0 < a < |lru| ==> lru[a] == lru[1..][a - 1];
    }
  }

  lemma {:induction false} KeepAll(lru: seq<Key>, dead: set<Key>)
    requires forall k :: k in lru ==> k !in dead
    ensures Keep(lru, dead) == lru
  {
    if lru != [] {
      KeepAll(lru[1..], dead);
    }
  }

  lemma {:induction false} KeepCut(lru: seq<Key>, i: nat)
    requires Distinct(lru) && i < |lru|
    ensures Keep(lru, {lru[i]}) == lru[..i] + lru[i + 1..]
  {
    if i == 0 {
      KeepAll(lru[1..], {lru[0]});
    } else {
      KeepCut(lru[1..], i - 1);
      assert lru[1..][..i - 1] == lru[1..i] && lru[1..][i..] == lru[i + 1..];
      assert lru[..i] == [lru[0]] + lru[1..i];
    }
  }

  lemma {:induction false} KeepTwice(lru: seq<Key>, a: set<Key>, b: set<Key>)
    ensures Keep(Keep(lru, a), b) == Keep(lru, a + b)
  {
    if lru != [] {
      KeepTwice(lru[1..], a, b);
      if lru[0] in a {
        assert Keep(lru, a) == Keep(lru[1..], a);
      } else {
        assert Keep(lru, a)[1..] == Keep(lru[1..], a);
      }
    }
  }

  lemma {:induction false} KeepDistinct(lru: seq<Key>, dead: set<Key>)
    requires Distinct(lru)
    ensures Distinct(Keep(lru, dead))
  {
    if lru != [] {
      KeepDistinct(lru[1..], dead);
      KeepMembers(lru[1..], dead, lru[0]);
      assert lru[0] !in lru[1..];
      if lru[0] in dead {
        assert Keep(lru, dead) == Keep(lru[1..], dead);
      }
    }
  }

  /** The linear scan that cuts a key out of the slice. */
  method RemoveLRU(lru: seq<Key>, key: Key) returns (r: seq<Key>)
    requires Distinct(lru)
    ensures r == Keep(lru, {key})
  {
    for i := 0 to |lru|
      invariant forall k :: 0 <= k < i ==> lru[k] != key
    {
      if lru[i] == key {
        KeepCut(lru, i);
        return lru[..i] + lru[i + 1..];
      }
    }
    KeepAll(lru, {key});
    return lru;
  }

  method SetInShard(s: Shard, key: Key, e: Entry, grow: nat -> nat) returns (r: Shard)
    requires Distinct(s.lru)
    ensures r == SetIn(s, key, e, grow)
  {
    if key in s.data {
      var lru := RemoveLRU(s.lru, key);
      return Append(Shard(s.data[key := e], lru, s.capacity), key, grow);
    }
    r := s;
    if |r.data| >= r.capacity {
      r := EvictOldest(r);
    }
    r := Append(r.(data := r.data[key := e]), key, grow);
  }

  method DeleteFromShard(s: Shard, key: Key) returns (r: Shard)
    requires Distinct(s.lru) && key in s.data
    ensures r == RemoveFrom(s, key)
  {
    var lru := RemoveLRU(s.lru, key);
    r := Shard(s.data - {key}, lru, s.capacity);
  }

  method GetFromShard(s: Shard, key: Key, now: int) returns (r: Shard, hit: Option<int>)
    requires Distinct(s.lru)
    ensures (r, hit) == GetFrom(s, key, now)
  {
    if key !in s.data {
      return s, None;
    }
    if now > s.data[key].expiresAt {
      r := DeleteFromShard(s, key);
      return r, None;
    }
    return s, Some(s.data[key].value);
  }

  /** Ranges over the map in an arbitrary order, deleting expired keys on the way. */
  method CleanupShard(s: Shard, now: int) returns (r: Shard)
    requires Distinct(s.lru)
    ensures r == CleanupIn(s, now)
  {
    r := s;
    ghost var gone: set<Key> := {};
    KeepAll(s.lru, {});
    var todo := s.data.Keys;
    while todo != {}
      invariant todo <= s.data.Keys && gone !! todo && r == Drop(s, gone) && Distinct(r.lru)
      invariant forall k :: k in s.data && k !in todo ==> (k in gone <==> now > s.data[k].expiresAt)
      invariant gone <= s.data.Keys
      decreases todo
    {
      var key :| key in todo;
      if now > r.data[key].expiresAt {
        KeepTwice(s.lru, gone, {key});
        KeepDistinct(r.lru, {key});
        r := DeleteFromShard(r, key);
        gone := gone + {key};
      }
      todo := todo - {key};
    }
    assert gone == ExpiredKeys(s, now);
  }
}
