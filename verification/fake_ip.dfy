/**
 The DNS hijacker (dns/hijacker.go): a forward map from domains to fake addresses, the reverse map used
 to route traffic, and a cyclic allocator over 254 addresses with eviction and expiry. InterceptDNS and
 the clean-up body are one atomic step each. Go's random map order shows up in one place, the choice of
 the evicted domain among equally old ones; an event names the choice and Enabled says which are possible.
 */
module FakeIP {
  import opened Bytes
  import opened Strings

  const RANGE_SIZE := 254

  type Addr = seq<Byte>

  /** maxMappings <= 0 means no limit. */
  datatype Config = Config(maxMappings: int, timeout: int)

  datatype Mapping = Mapping(ip: Addr, createdAt: int)

  datatype State = State(
    domainToFake: map<string, Mapping>, fakeToDomain: map<Addr, string>, ipCounter: nat,
    hits: nat, issued: nat, expired: nat)

  datatype Event = Intercept(domain: string, now: int, victim: string) | Sweep(now: int)

  /** 198.51.100.(k + 1) */
  function FakeAddr(k: nat): Addr
    requires k < RANGE_SIZE
  {
    [198, 51, 100, k + 1]
  }

  predicate IsFakeIP(ip: Addr) {
    |ip| == 4 && ip[0] == 198 && ip[1] == 51 && ip[2] == 100
  }

  /** The k-th pool position in cyclic order from the counter. */
  function At(counter: nat, k: nat): (r: nat)
    requires counter < RANGE_SIZE && k <= RANGE_SIZE
    ensures r < RANGE_SIZE
  {
    if counter + k < RANGE_SIZE then counter + k else counter + k - RANGE_SIZE
  }

  lemma {:induction false} NextAt(counter: nat, k: nat)
    requires counter < RANGE_SIZE && k < RANGE_SIZE
    ensures (At(counter, k) + 1) % RANGE_SIZE == At(counter, k + 1)
  {
  }

  function FirstFree(used: map<Addr, string>, counter: nat, k: nat): (r: nat)
    requires counter < RANGE_SIZE && k <= RANGE_SIZE
    ensures k <= r <= RANGE_SIZE
    ensures r < RANGE_SIZE ==> FakeAddr(At(counter, r)) !in used
    ensures forall i :: k <= i < r ==> FakeAddr(At(counter, i)) in used
    decreases RANGE_SIZE - k
  {
    if k == RANGE_SIZE || FakeAddr(At(counter, k)) !in used then k else FirstFree(used, counter, k + 1)
  }

  /** Pool position of the address handed out; a full circle ends where it began and reuses. */
  function Allocated(s: State): (k: nat)
    requires s.ipCounter < RANGE_SIZE
    ensures k < RANGE_SIZE
  {
    At(s.ipCounter, FirstFree(s.fakeToDomain, s.ipCounter, 0))
  }

  predicate Full(c: Config, s: State) {
    c.maxMappings > 0 && |s.domainToFake| >= c.maxMappings
  }

  predicate IsOldest(s: State, d: string) {
    d in s.domainToFake
    && forall e :: e in s.domainToFake ==> s.domainToFake[d].createdAt <= s.domainToFake[e].createdAt
  }

  function Remove(s: State, d: string): State
    requires d in s.domainToFake
  {
    s.(domainToFake := s.domainToFake - {d}, fakeToDomain := s.fakeToDomain - {s.domainToFake[d].ip},
       expired := s.expired + 1)
  }

  function Insert(s: State, d: string, now: int): State
    requires s.ipCounter < RANGE_SIZE
  {
    var ip := FakeAddr(Allocated(s));
    s.(domainToFake := s.domainToFake[d := Mapping(ip, now)], fakeToDomain := s.fakeToDomain[ip := d],
       ipCounter := At(Allocated(s), 1), issued := s.issued + 1)
  }

  function Stale(c: Config, s: State, now: int): set<string> {
    set d | d in s.domainToFake && now - s.domainToFake[d].createdAt > c.timeout
  }

  function AddressesOf(s: State, dead: set<string>): set<Addr>
    requires dead <= s.domainToFake.Keys
  {
    set d | d in dead :: s.domainToFake[d].ip
  }

  function RemoveAll(s: State, dead: set<string>): State
    requires dead <= s.domainToFake.Keys
  {
    s.(domainToFake := s.domainToFake - dead, fakeToDomain := s.fakeToDomain - AddressesOf(s, dead),
       expired := s.expired + |dead|)
  }

  /**
   Names that reach the hijacker come out of a parsed question: they end in a dot, and the root is ".".
   Inside a label any byte may stand, a dot or an unprintable one in escaped form.
   */
  predicate FullyQualified(d: string) {
    d != "" && d[|d| - 1] == '.'
  }

  predicate Enabled(c: Config, s: State, e: Event) {
    e.Intercept? ==> FullyQualified(e.domain) && (e.domain !in s.domainToFake && Full(c, s) ==> IsOldest(s, e.victim))
  }

  function MakeRoom(c: Config, s: State, victim: string): State
    requires Full(c, s) ==> victim in s.domainToFake
  {
    if Full(c, s) then Remove(s, victim) else s
  }

  function Step(c: Config, s: State, e: Event): State
    requires s.ipCounter < RANGE_SIZE && Enabled(c, s, e)
  {
    match e
    case Intercept(d, now, victim) =>
      if d in s.domainToFake then s.(hits := s.hits + 1) else Insert(MakeRoom(c, s, victim), d, now)
    case Sweep(now) => RemoveAll(s, Stale(c, s, now))
  }

  const Initial := State(map[], map[], 0, 0, 0, 0)

  // ---- Invariants ----

  /** Reverse lookup is never stale. */
  ghost predicate ReverseIsFresh(s: State) {
    forall ip :: ip in s.fakeToDomain ==>
      s.fakeToDomain[ip] in s.domainToFake && s.domainToFake[s.fakeToDomain[ip]].ip == ip
  }

  /** The other half: every mapped domain is found again under its address. */
  ghost predicate ForwardIsTracked(s: State) {
    forall d :: d in s.domainToFake ==>
      s.domainToFake[d].ip in s.fakeToDomain && s.fakeToDomain[s.domainToFake[d].ip] == d
  }

  ghost predicate InPool(ip: Addr) {
    exists k: nat :: k < RANGE_SIZE && ip == FakeAddr(k)
  }

  /** What holds for every limit, and whatever has been reused. */
  ghost predicate Inv(c: Config, s: State) {
    && s.ipCounter < RANGE_SIZE && "" !in s.domainToFake
    && ReverseIsFresh(s)
    && (forall d :: d in s.domainToFake ==> InPool(s.domainToFake[d].ip))
    && (forall ip :: ip in s.fakeToDomain ==> InPool(ip))
    && (c.maxMappings > 0 ==> |s.domainToFake| <= c.maxMappings)
    && s.issued == |s.domainToFake| + s.expired
  }

  lemma RemoveAllKeepsInv(c: Config, s: State, dead: set<string>)
    requires Inv(c, s) && dead <= s.domainToFake.Keys
    ensures Inv(c, RemoveAll(s, dead))
    ensures ForwardIsTracked(s) ==> ForwardIsTracked(RemoveAll(s, dead))
  {
    assert RemoveAll(s, dead).domainToFake.Keys == s.domainToFake.Keys - dead;
  }

  lemma RemoveIsRemoveAll(s: State, d: string)
    requires d in s.domainToFake
    ensures Remove(s, d) == RemoveAll(s, {d})
  {
    assert AddressesOf(s, {d}) == {s.domainToFake[d].ip};
  }

  lemma MakeRoomKeepsInv(c: Config, s: State, victim: string)
    requires Inv(c, s) && (Full(c, s) ==> victim in s.domainToFake)
    ensures var s' := MakeRoom(c, s, victim);
            && Inv(c, s') && s'.domainToFake.Keys <= s.domainToFake.Keys
            && (c.maxMappings > 0 ==> |s'.domainToFake| < c.maxMappings)
            && (ForwardIsTracked(s) ==> ForwardIsTracked(s'))
  {
    if Full(c, s) {
      RemoveIsRemoveAll(s, victim);
      RemoveAllKeepsInv(c, s, {victim});
      assert RemoveAll(s, {victim}).domainToFake.Keys == s.domainToFake.Keys - {victim};
    }
  }

  lemma {:induction false} InsertKeepsReverse(s: State, d: string, now: int)
    requires s.ipCounter < RANGE_SIZE && ReverseIsFresh(s) && d !in s.domainToFake
    ensures ReverseIsFresh(Insert(s, d, now))
  {
  }

  lemma {:induction false} InsertKeepsInv(c: Config, s: State, d: string, now: int)
    requires Inv(c, s) && d != "" && d !in s.domainToFake
    requires c.maxMappings > 0 ==> |s.domainToFake| < c.maxMappings
    ensures Inv(c, Insert(s, d, now))
  {
    InsertKeepsReverse(s, d, now);
    InsertKeepsPool(c, s, d, now);
    InsertAddsOne(s, d, now);
  }

  lemma {:induction false} InsertAddsOne(s: State, d: string, now: int)
    requires s.ipCounter < RANGE_SIZE && d !in s.domainToFake
    ensures var s' := Insert(s, d, now);
            && s'.domainToFake.Keys == s.domainToFake.Keys + {d} && |s'.domainToFake| == |s.domainToFake| + 1
            && s'.ipCounter < RANGE_SIZE && s'.issued == s.issued + 1 && s'.expired == s.expired
  {
    var s' := Insert(s, d, now);
    assert s'.domainToFake.Keys == s.domainToFake.Keys + {d};
    assert |s'.domainToFake.Keys| == |s.domainToFake.Keys| + 1;
  }

  lemma {:induction false} InsertKeepsPool(c: Config, s: State, d: string, now: int)
    requires Inv(c, s)
    ensures forall e :: e in Insert(s, d, now).domainToFake ==> InPool(Insert(s, d, now).domainToFake[e].ip)
    ensures forall ip :: ip in Insert(s, d, now).fakeToDomain ==> InPool(ip)
  {
    assert InPool(FakeAddr(Allocated(s)));
  }

  /** For any limit, including none, and also after reuse. */
  lemma StepKeepsInv(c: Config, s: State, e: Event)
    requires Inv(c, s) && Enabled(c, s, e)
    ensures Inv(c, Step(c, s, e))
  {
    match e
    case Sweep(now) => RemoveAllKeepsInv(c, s, Stale(c, s, now));
    case Intercept(d, now, victim) =>
      if d !in s.domainToFake {
        MakeRoomKeepsInv(c, s, victim);
        InsertKeepsInv(c, MakeRoom(c, s, victim), d, now);
      }
  }

  // ---- Limits up to the pool size: the two maps are inverses and the reuse branch is dead ----

  function Pool(n: nat): set<Addr>
    requires n <= RANGE_SIZE
  {
    if n == 0 then {} else Pool(n - 1) + {FakeAddr(n - 1)}
  }

  lemma {:induction false} PoolSize(n: nat)
    requires n <= RANGE_SIZE
    ensures |Pool(n)| == n
    ensures forall ip :: ip in Pool(n) ==> |ip| == 4 && ip[3] <= n
  {
    if n > 0 {
      PoolSize(n - 1);
      assert FakeAddr(n - 1) !in Pool(n - 1);
    }
  }

  lemma {:induction false} PoolWithin(n: nat, used: set<Addr>)
    requires n <= RANGE_SIZE && forall k: nat :: k < n ==> FakeAddr(k) in used
    ensures Pool(n) <= used
  {
    if n > 0 {
      PoolWithin(n - 1, used);
    }
  }

  lemma SubsetIsSmaller<T>(a: set<T>, b: set<T>)
    requires a <= b
    ensures |a| <= |b|
  {
    assert b == a + (b - a);
  }

  /** Pigeonhole: with fewer than 254 addresses in use, the scan finds one that is not. */
  lemma ScanFindsFree(s: State)
    requires s.ipCounter < RANGE_SIZE && |s.fakeToDomain| < RANGE_SIZE
    ensures FirstFree(s.fakeToDomain, s.ipCounter, 0) < RANGE_SIZE
    ensures FakeAddr(Allocated(s)) !in s.fakeToDomain
  {
    if FirstFree(s.fakeToDomain, s.ipCounter, 0) == RANGE_SIZE {
      PoolSize(RANGE_SIZE);
      forall k: nat | k < RANGE_SIZE ensures FakeAddr(k) in s.fakeToDomain {
        var i := if k >= s.ipCounter then k - s.ipCounter else k - s.ipCounter + RANGE_SIZE;
        assert At(s.ipCounter, i) == k;
      }
      PoolWithin(RANGE_SIZE, s.fakeToDomain.Keys);
      SubsetIsSmaller(Pool(RANGE_SIZE), s.fakeToDomain.Keys);
    }
  }

  lemma {:induction false} InversesHaveOneSize(forward: map<string, Mapping>, reverse: map<Addr, string>)
    requires forall d :: d in forward ==> forward[d].ip in reverse && reverse[forward[d].ip] == d
    requires forall ip :: ip in reverse ==> reverse[ip] in forward && forward[reverse[ip]].ip == ip
    ensures |forward| == |reverse|
    decreases forward.Keys
  {
    if forward.Keys == {} {
      assert reverse.Keys == {} && |forward.Keys| == |reverse.Keys|;
    } else {
      var d :| d in forward.Keys;
      var ip := forward[d].ip;
      InversesHaveOneSize(forward - {d}, reverse - {ip});
      assert (forward - {d}).Keys == forward.Keys - {d} && (reverse - {ip}).Keys == reverse.Keys - {ip};
      assert |forward.Keys| == |(forward - {d}).Keys| + 1 && |reverse.Keys| == |(reverse - {ip}).Keys| + 1;
    }
  }

  ghost predicate Inverse(s: State) {
    ReverseIsFresh(s) && ForwardIsTracked(s)
  }

  /**
   With 0 < maxMappings <= 254 a step keeps the maps exact inverses, and a miss gets an address that
   nobody holds: the branch for an exhausted pool is never taken.
   */
  lemma StepKeepsInverse(c: Config, s: State, e: Event)
    requires 0 < c.maxMappings <= RANGE_SIZE
    requires Inv(c, s) && Inverse(s) && Enabled(c, s, e)
    ensures Inv(c, Step(c, s, e)) && Inverse(Step(c, s, e))
    ensures e.Intercept? && e.domain !in s.domainToFake ==>
              var room := MakeRoom(c, s, e.victim);
              && FirstFree(room.fakeToDomain, room.ipCounter, 0) < RANGE_SIZE
              && Step(c, s, e).domainToFake[e.domain].ip !in room.fakeToDomain
  {
    StepKeepsInv(c, s, e);
    match e
    case Sweep(now) => RemoveAllKeepsInv(c, s, Stale(c, s, now));
    case Intercept(d, now, victim) =>
      if d !in s.domainToFake {
        MakeRoomKeepsInv(c, s, victim);
        var room := MakeRoom(c, s, victim);
        InversesHaveOneSize(room.domainToFake, room.fakeToDomain);
        ScanFindsFree(room);
      }
  }

  // ---- Whole runs ----

  ghost predicate RunEnabled(c: Config, s: State, events: seq<Event>)
    decreases |events|
  {
    s.ipCounter < RANGE_SIZE &&
    (events != [] ==> Enabled(c, s, events[0]) && RunEnabled(c, Step(c, s, events[0]), events[1..]))
  }

  ghost function Run(c: Config, s: State, events: seq<Event>): State
    requires RunEnabled(c, s, events)
    decreases |events|
  {
    if events == [] then s else Run(c, Step(c, s, events[0]), events[1..])
  }

  lemma {:induction false} RunKeepsInv(c: Config, s: State, events: seq<Event>)
    requires RunEnabled(c, s, events) && Inv(c, s)
    ensures Inv(c, Run(c, s, events))
    ensures 0 < c.maxMappings <= RANGE_SIZE && Inverse(s) ==> Inverse(Run(c, s, events))
    decreases |events|
  {
    if events != [] {
      StepKeepsInv(c, s, events[0]);
      if 0 < c.maxMappings <= RANGE_SIZE && Inverse(s) {
        StepKeepsInverse(c, s, events[0]);
      }
      RunKeepsInv(c, Step(c, s, events[0]), events[1..]);
    }
  }

  /** The event removes a mapping: as an oldest one at the limit, or because it has expired. */
  ghost predicate Ends(c: Config, s: State, e: Event, d: string) {
    d in s.domainToFake &&
    match e
    case Intercept(domain, _, victim) => domain !in s.domainToFake && victim == d && Full(c, s) && IsOldest(s, d)
    case Sweep(now) => now - s.domainToFake[d].createdAt > c.timeout
  }

  lemma {:induction false} StepKeepsMapping(c: Config, s: State, e: Event, d: string)
    requires Inv(c, s) && Enabled(c, s, e) && d in s.domainToFake
    ensures if Ends(c, s, e, d) then d !in Step(c, s, e).domainToFake
            else d in Step(c, s, e).domainToFake && Step(c, s, e).domainToFake[d] == s.domainToFake[d]
  {
  }

  /** The k-th event of the run ends the mapping m of d, which it still had. */
  ghost predicate EndsAt(c: Config, s: State, events: seq<Event>, k: nat, d: string, m: Mapping) {
    && k < |events| && RunEnabled(c, s, events[..k])
    && var before := Run(c, s, events[..k]);
    Ends(c, before, events[k], d) && before.domainToFake[d] == m
  }

  lemma {:induction false} EndsLater(c: Config, s: State, events: seq<Event>, k: nat, d: string, m: Mapping)
    requires RunEnabled(c, s, events) && events != []
    requires EndsAt(c, Step(c, s, events[0]), events[1..], k, d, m)
    ensures EndsAt(c, s, events, k + 1, d, m)
  {
    var prefix := events[..k + 1];
    assert prefix[0] == events[0] && prefix[1..] == events[1..][..k];
  }

  /**
   Over any run, a mapped domain keeps its very mapping, or some event of the run evicted it as an oldest one
   at the limit or swept it after its timeout.
   */
  lemma {:induction false} MappingIsStable(c: Config, s: State, events: seq<Event>, d: string)
    requires RunEnabled(c, s, events) && Inv(c, s) && d in s.domainToFake
    ensures || (d in Run(c, s, events).domainToFake && Run(c, s, events).domainToFake[d] == s.domainToFake[d])
            || exists k :: EndsAt(c, s, events, k, d, s.domainToFake[d])
    decreases |events|
  {
    if events != [] {
      var e := events[0];
      StepKeepsMapping(c, s, e, d);
      StepKeepsInv(c, s, e);
      if Ends(c, s, e, d) {
        assert events[..0] == [];
        assert EndsAt(c, s, events, 0, d, s.domainToFake[d]);
      } else {
        var s' := Step(c, s, e);
        MappingIsStable(c, s', events[1..], d);
        if k :| EndsAt(c, s', events[1..], k, d, s.domainToFake[d]) {
          EndsLater(c, s, events, k, d, s.domainToFake[d]);
        }
      }
    }
  }

  // ---- Age ----

  /** A miss stores the time of the query; a hit stores nothing. */
  lemma {:induction false} MissStoresTime(c: Config, s: State, e: Event)
    requires Inv(c, s) && Enabled(c, s, e) && e.Intercept?
    ensures var s' := Step(c, s, e);
            if e.domain in s.domainToFake then s' == s.(hits := s.hits + 1)
            else
              && e.domain in s'.domainToFake && s'.domainToFake[e.domain].createdAt == e.now
              && s'.hits == s.hits && s'.issued == s.issued + 1
  {
  }

  /** The k-th event of the run is a query that evicts the mapping m of d at the limit. */
  ghost predicate EvictsAt(c: Config, s: State, events: seq<Event>, k: nat, d: string, m: Mapping) {
    EndsAt(c, s, events, k, d, m) && events[k].Intercept?
  }

  /**
   A domain first asked at time a is still mapped to the same address after every run whose sweeps come no later
   than a plus the timeout, unless it was evicted at the limit on the way.
   */
  lemma {:induction false} MappingLivesForTimeout(c: Config, s: State, e: Event, events: seq<Event>)
    requires Inv(c, s) && Enabled(c, s, e) && e.Intercept? && e.domain !in s.domainToFake
    requires RunEnabled(c, Step(c, s, e), events)
    requires forall i :: 0 <= i < |events| && events[i].Sweep? ==> events[i].now <= e.now + c.timeout
    ensures var s', d := Step(c, s, e), e.domain;
            && d in s'.domainToFake
            && (|| (d in Run(c, s', events).domainToFake && Run(c, s', events).domainToFake[d] == s'.domainToFake[d])
                || exists k: nat :: EvictsAt(c, s', events, k, d, s'.domainToFake[d]))
  {
    var s', d := Step(c, s, e), e.domain;
    MissStoresTime(c, s, e);
    StepKeepsInv(c, s, e);
    MappingIsStable(c, s', events, d);
    if k: nat :| EndsAt(c, s', events, k, d, s'.domainToFake[d]) {
      assert EvictsAt(c, s', events, k, d, s'.domainToFake[d]);
    }
  }

  // ---- Order of eviction ----

  lemma {:induction false} RunLast(c: Config, s: State, events: seq<Event>)
    requires RunEnabled(c, s, events) && events != []
    ensures var n := |events| - 1;
            && RunEnabled(c, s, events[..n]) && Run(c, s, events[..n]).ipCounter < RANGE_SIZE
            && Enabled(c, Run(c, s, events[..n]), events[n])
            && Run(c, s, events) == Step(c, Run(c, s, events[..n]), events[n])
    decreases |events|
  {
    var n := |events| - 1;
    if n > 0 {
      RunLast(c, Step(c, s, events[0]), events[1..]);
      assert events[1..][..n - 1] == events[1..n] && events[..n][1..] == events[1..n];
    } else {
      assert events[1..] == [] && events[..0] == [];
    }
  }

  /** The query of a run that issued the mapping a domain has at its end: the last one to miss. */
  ghost function Issue(c: Config, events: seq<Event>, d: string): (i: Option<nat>)
    requires RunEnabled(c, Initial, events)
    ensures i.Some? ==> i.value < |events| && events[i.value].Intercept? && events[i.value].domain == d
    decreases |events|
  {
    if events == [] then None
    else
      RunLast(c, Initial, events);
      var n := |events| - 1;
      if events[n].Intercept? && events[n].domain == d && d !in Run(c, Initial, events[..n]).domainToFake then Some(n)
      else Issue(c, events[..n], d)
  }

  /** Every mapping carries the time of the query that issued it. */
  lemma {:induction false} AgeIsTimeOfIssue(c: Config, events: seq<Event>, d: string)
    requires RunEnabled(c, Initial, events) && d in Run(c, Initial, events).domainToFake
    ensures Issue(c, events, d).Some?
    ensures Run(c, Initial, events).domainToFake[d].createdAt == events[Issue(c, events, d).value].now
    decreases |events|
  {
    if events != [] {
      var n := |events| - 1;
      RunLast(c, Initial, events);
      var s := Run(c, Initial, events[..n]);
      RunKeepsInv(c, Initial, events[..n]);
      if d in s.domainToFake {
        StepKeepsMapping(c, s, events[n], d);
        AgeIsTimeOfIssue(c, events[..n], d);
      } else {
        MissStoresTimeOnly(c, s, events[n], d);
      }
    }
  }

  lemma {:induction false} MissStoresTimeOnly(c: Config, s: State, e: Event, d: string)
    requires Inv(c, s) && Enabled(c, s, e) && d !in s.domainToFake && d in Step(c, s, e).domainToFake
    ensures e.Intercept? && e.domain == d && Step(c, s, e).domainToFake[d].createdAt == e.now
  {
  }

  ghost predicate OnTime(events: seq<Event>) {
    forall i, j :: 0 <= i < j < |events| ==> events[i].now <= events[j].now
  }

  /**
   Whatever the run, the domain evicted at the limit is the one whose issuing query is the earliest in the
   history; only a query at the very same reading of the clock may come before it.
   */
  lemma {:induction false} EvictsEarliestIssue(c: Config, events: seq<Event>, e: Event, d: string)
    requires RunEnabled(c, Initial, events) && OnTime(events) && Inv(c, Run(c, Initial, events))
    requires e.Intercept? && Ends(c, Run(c, Initial, events), e, e.victim)
    requires d in Run(c, Initial, events).domainToFake && d != e.victim
    ensures Issue(c, events, e.victim).Some? && Issue(c, events, d).Some?
    ensures var evicted, other := Issue(c, events, e.victim).value, Issue(c, events, d).value;
            && evicted != other
            && (evicted < other || events[evicted].now == events[other].now)
  {
    AgeIsTimeOfIssue(c, events, e.victim);
    AgeIsTimeOfIssue(c, events, d);
  }

  /** The position k places behind the counter on the circle. */
  function Position(counter: nat, k: nat): (p: nat)
    ensures p < RANGE_SIZE
  {
    (counter + k) % RANGE_SIZE
  }

  lemma {:induction false} AtIsPosition(counter: nat, k: nat)
    requires counter < RANGE_SIZE && k <= RANGE_SIZE
    ensures At(counter, k) == Position(counter, k) && At(At(counter, k), 1) == Position(counter, k + 1)
  {
  }

  /** The k addresses from the counter on are held, and the next one is free unless the circle is complete. */
  ghost predicate TakenAfter(s: State, k: nat) {
    && (forall i: nat :: i < k ==> FakeAddr(Position(s.ipCounter, i)) in s.fakeToDomain)
    && (k < RANGE_SIZE ==> FakeAddr(Position(s.ipCounter, k)) !in s.fakeToDomain)
  }

  lemma {:induction false} ScanTakesFirst(s: State)
    requires s.ipCounter < RANGE_SIZE
    ensures var k := FirstFree(s.fakeToDomain, s.ipCounter, 0);
            && TakenAfter(s, k) && Allocated(s) == Position(s.ipCounter, k)
            && At(Allocated(s), 1) == Position(s.ipCounter, k + 1)
  {
    var k := FirstFree(s.fakeToDomain, s.ipCounter, 0);
    AtIsPosition(s.ipCounter, k);
    forall i: nat | i < k ensures FakeAddr(Position(s.ipCounter, i)) in s.fakeToDomain {
      AtIsPosition(s.ipCounter, i);
    }
  }

  /** The address was issued k places behind the counter, which moves on behind it. */
  ghost predicate IssuedAt(room: State, s': State, d: string, k: nat) {
    && k <= RANGE_SIZE && TakenAfter(room, k) && d in s'.domainToFake
    && s'.domainToFake[d].ip == FakeAddr(Position(room.ipCounter, k))
    && s'.ipCounter == Position(room.ipCounter, k + 1)
  }

  /** A miss gets the first address behind the last one handed out that nobody holds. */
  lemma {:induction false} IssueIsRoundRobin(c: Config, s: State, e: Event)
    requires Inv(c, s) && Enabled(c, s, e) && e.Intercept? && e.domain !in s.domainToFake
    ensures var room := MakeRoom(c, s, e.victim);
            room.ipCounter == s.ipCounter && exists k: nat :: IssuedAt(room, Step(c, s, e), e.domain, k)
  {
    var room := MakeRoom(c, s, e.victim);
    ScanTakesFirst(room);
    assert IssuedAt(room, Step(c, s, e), e.domain, FirstFree(room.fakeToDomain, room.ipCounter, 0));
  }

  /** The range of fake addresses is the pool and the two addresses at its ends. */
  lemma {:induction false} FakeRangeIff(ip: Addr)
    ensures IsFakeIP(ip) <==> InPool(ip) || ip == [198, 51, 100, 0] || ip == [198, 51, 100, 255]
  {
    if IsFakeIP(ip) {
      assert ip == [198, 51, 100, ip[3]];
      if 0 < ip[3] < 255 {
        assert ip == FakeAddr(ip[3] - 1);
      }
    }
  }

  /** The answer to a query is a documentation-range address, the one now stored for the domain. */
  lemma AnswerIsFake(c: Config, s: State, e: Event)
    requires Inv(c, s) && Enabled(c, s, e) && e.Intercept?
    ensures var s' := Step(c, s, e);
            && e.domain in s'.domainToFake && IsFakeIP(s'.domainToFake[e.domain].ip)
            && (e.domain in s.domainToFake ==> s'.domainToFake[e.domain] == s.domainToFake[e.domain])
            && (e.domain !in s.domainToFake ==> s'.fakeToDomain[s'.domainToFake[e.domain].ip] == e.domain)
  {
    StepKeepsInv(c, s, e);
  }

  // ---- Any other limit: inversion is lost ----

  function Letter(k: nat): char {
    ('a' as int + k % 16) as char
  }

  /** 256 different names of one label with two letters: "aa.", "ab." and so on. */
  function Name(n: nat): (d: string)
    ensures FullyQualified(d)
  {
    [Letter(n / 16), Letter(n), '.']
  }

  lemma {:induction false} NamesDiffer(m: nat, n: nat)
    requires m < 256 && n < 256 && m != n
    ensures Name(m) != Name(n)
  {
    assert m / 16 < 16 && n / 16 < 16;
    if m / 16 == n / 16 {
      assert m % 16 != n % 16;
      assert Name(m)[1] != Name(n)[1];
    } else {
      assert Name(m)[0] != Name(n)[0];
    }
  }

  /** An ordinary host name: labels of 1 to 63 letters, each followed by a dot. */
  predicate IsHostName(d: string) {
    FullyQualified(d) && |d| <= 254 &&
    forall l :: l in Split(d[..|d| - 1], '.') ==> 1 <= |l| <= 63 && forall i :: 0 <= i < |l| ==> 'a' <= l[i] <= 'z'
  }

  predicate AsksForHost(e: Event) {
    e.Intercept? && IsHostName(e.domain)
  }

  lemma {:induction false} NamesAreHostNames(n: nat)
    ensures IsHostName(Name(n))
  {
    SplitPlain(Name(n)[..2], '.');
  }

  ghost function Fill(n: nat): seq<Event> {
    if n == 0 then [] else Fill(n - 1) + [Intercept(Name(n - 1), 0, "")]
  }

  ghost predicate NamesUpTo(forward: map<string, Mapping>, n: nat) {
    && n <= RANGE_SIZE && |forward| == n
    && (forall k: nat {:trigger Name(k)} :: n <= k <= RANGE_SIZE ==> Name(k) !in forward)
    && (forall k: nat :: k < n ==> Name(k) in forward && forward[Name(k)].ip == FakeAddr(k))
  }

  ghost predicate Filled(s: State, n: nat) {
    && s.ipCounter == (if n == RANGE_SIZE then 0 else n) && n <= RANGE_SIZE
    && NamesUpTo(s.domainToFake, n)
    && (forall k: nat :: k < RANGE_SIZE ==> (FakeAddr(k) in s.fakeToDomain <==> k < n))
  }

  lemma {:induction false} RunAppend(c: Config, s: State, events: seq<Event>, e: Event)
    requires RunEnabled(c, s, events) && Inv(c, s) && Enabled(c, Run(c, s, events), e)
    ensures RunEnabled(c, s, events + [e])
    ensures Run(c, s, events).ipCounter < RANGE_SIZE
    ensures Run(c, s, events + [e]) == Step(c, Run(c, s, events), e)
    decreases |events|
  {
    RunKeepsInv(c, s, events);
    if events == [] {
      StepKeepsInv(c, s, e);
      assert events + [e] == [e] && [e][1..] == [];
    } else {
      StepKeepsInv(c, s, events[0]);
      assert (events + [e])[1..] == events[1..] + [e];
      RunAppend(c, Step(c, s, events[0]), events[1..], e);
    }
  }

  lemma {:induction false} NextFill(s: State, n: nat)
    requires n < RANGE_SIZE && Filled(s, n)
    ensures Name(n) !in s.domainToFake
    ensures Insert(s, Name(n), 0)
            == s.(domainToFake := s.domainToFake[Name(n) := Mapping(FakeAddr(n), 0)],
                  fakeToDomain := s.fakeToDomain[FakeAddr(n) := Name(n)],
                  ipCounter := At(n, 1), issued := s.issued + 1)
  {
    assert At(n, 0) == n && FirstFree(s.fakeToDomain, n, 0) == 0;
  }

  lemma {:induction false} FillsAreDistinct(n: nat)
    requires n <= RANGE_SIZE
    ensures forall k: nat {:trigger Name(k)} :: k <= RANGE_SIZE && k != n ==> Name(k) != Name(n)
    ensures forall k: nat :: k < RANGE_SIZE && n < RANGE_SIZE && k != n ==> FakeAddr(k) != FakeAddr(n)
  {
    forall k: nat | k < RANGE_SIZE && n < RANGE_SIZE && k != n ensures FakeAddr(k) != FakeAddr(n) {
      assert FakeAddr(k)[3] != FakeAddr(n)[3];
    }
    forall k: nat | k <= RANGE_SIZE && k != n ensures Name(k) != Name(n) {
      NamesDiffer(k, n);
    }
  }

  lemma {:induction false} AddName(forward: map<string, Mapping>, n: nat)
    requires n < RANGE_SIZE && NamesUpTo(forward, n)
    ensures NamesUpTo(forward[Name(n) := Mapping(FakeAddr(n), 0)], n + 1)
  {
    FillsAreDistinct(n);
    var after := forward[Name(n) := Mapping(FakeAddr(n), 0)];
    assert Name(n) !in forward;
    assert after.Keys == forward.Keys + {Name(n)};
    forall k: nat | k < n + 1 ensures Name(k) in after && after[Name(k)].ip == FakeAddr(k) {
      assert k < n ==> Name(k) in forward && Name(k) != Name(n);
    }
  }

  lemma {:induction false} InsertFills(s: State, n: nat)
    requires n < RANGE_SIZE && Filled(s, n)
    ensures Name(n) !in s.domainToFake && Filled(Insert(s, Name(n), 0), n + 1)
  {
    AddName(s.domainToFake, n);
    NextFill(s, n);
    FillsAreDistinct(n);
    var reverse := Insert(s, Name(n), 0).fakeToDomain;
    forall k: nat | k < RANGE_SIZE ensures FakeAddr(k) in reverse <==> k < n + 1 {
      assert k != n ==> (FakeAddr(k) in s.fakeToDomain <==> k < n);
    }
  }

  lemma FillStep(c: Config, s: State, n: nat, e: Event)
    requires n < RANGE_SIZE && Filled(s, n) && !(0 < c.maxMappings <= RANGE_SIZE)
    requires e == Intercept(Name(n), 0, "")
    ensures Enabled(c, s, e) && Filled(Step(c, s, e), n + 1)
  {
    InsertFills(s, n);
    assert !Full(c, s);
  }

  lemma {:induction false} FillFills(c: Config, n: nat)
    requires n <= RANGE_SIZE && !(0 < c.maxMappings <= RANGE_SIZE)
    ensures RunEnabled(c, Initial, Fill(n)) && Filled(Run(c, Initial, Fill(n)), n)
  {
    if n > 0 {
      FillFills(c, n - 1);
      var e := Intercept(Name(n - 1), 0, "");
      assert Fill(n) == Fill(n - 1) + [e];
      FillStep(c, Run(c, Initial, Fill(n - 1)), n - 1, e);
      RunAppend(c, Initial, Fill(n - 1), e);
    }
  }

  /** 255 queries for different host names leave the first one without a reverse entry. */
  lemma {:induction false} OverflowRun(c: Config) returns (events: seq<Event>)
    requires !(0 < c.maxMappings <= RANGE_SIZE)
    ensures RunEnabled(c, Initial, events) && !Inverse(Run(c, Initial, events))
    ensures |events| == RANGE_SIZE + 1 && forall i :: 0 <= i < |events| ==> AsksForHost(events[i])
  {
    events := Fill(RANGE_SIZE + 1);
    OverflowBreaks(c);
    FillAt(RANGE_SIZE + 1, 0);
    forall i | 0 <= i < |events| ensures AsksForHost(events[i]) {
      FillAt(RANGE_SIZE + 1, i);
      NamesAreHostNames(i);
    }
  }

  lemma {:induction false} OverflowBreaks(c: Config)
    requires !(0 < c.maxMappings <= RANGE_SIZE)
    ensures RunEnabled(c, Initial, Fill(RANGE_SIZE + 1)) && !Inverse(Run(c, Initial, Fill(RANGE_SIZE + 1)))
  {
    FillFills(c, RANGE_SIZE);
    var s, e := Run(c, Initial, Fill(RANGE_SIZE)), Intercept(Name(RANGE_SIZE), 0, "");
    assert Name(RANGE_SIZE) !in s.domainToFake;
    RunAppend(c, Initial, Fill(RANGE_SIZE), e);
    OverflowBreaksInverse(s);
  }

  lemma {:induction false} FillAt(n: nat, i: nat)
    requires i < n
    ensures |Fill(n)| == n && Fill(n)[i] == Intercept(Name(i), 0, "")
  {
    if i < n - 1 {
      FillAt(n - 1, i);
    } else if n > 1 {
      FillAt(n - 1, 0);
    }
  }

  /** The limit guarantees inverse maps in every run exactly when it lies between 1 and the pool size. */
  lemma InverseInEveryRunIff(c: Config)
    ensures (forall events :: RunEnabled(c, Initial, events) ==> Inverse(Run(c, Initial, events)))
            <==> 0 < c.maxMappings <= RANGE_SIZE
  {
    if 0 < c.maxMappings <= RANGE_SIZE {
      forall events | RunEnabled(c, Initial, events) ensures Inverse(Run(c, Initial, events)) {
        RunKeepsInv(c, Initial, events);
      }
    } else {
      var events := OverflowRun(c);
    }
  }

  lemma OverflowBreaksInverse(s: State)
    requires Filled(s, RANGE_SIZE)
    ensures !ForwardIsTracked(Insert(s, Name(RANGE_SIZE), 0))
  {
    var s' := Insert(s, Name(RANGE_SIZE), 0);
    forall k: nat | k < RANGE_SIZE ensures FakeAddr(At(0, k)) in s.fakeToDomain {
    }
    assert FirstFree(s.fakeToDomain, 0, 0) == RANGE_SIZE;
    assert At(0, RANGE_SIZE) == 0 && s'.fakeToDomain[FakeAddr(0)] == Name(RANGE_SIZE);
    NamesDiffer(0, RANGE_SIZE);
    assert s'.domainToFake[Name(0)].ip == FakeAddr(0);
  }

  // ---- The hijacker object ----

  class Hijacker {
    const config: Config
    var domainToFake: map<string, Mapping>
    var fakeToDomain: map<Addr, string>
    var ipCounter: nat
    var hits: nat
    var issued: nat
    var expired: nat

    ghost function View(): State
      reads this
    {
      State(domainToFake, fakeToDomain, ipCounter, hits, issued, expired)
    }

    ghost predicate Valid()
      reads this
    {
      Inv(config, View())
    }

    constructor (c: Config)
      ensures config == c && View() == Initial && Valid()
    {
      config := c;
      domainToFake, fakeToDomain, ipCounter := map[], map[], 0;
      hits, issued, expired := 0, 0, 0;
    }

    method AllocateFakeIP() returns (ip: Addr)
      requires ipCounter < RANGE_SIZE
      modifies this`ipCounter
      ensures ip == FakeAddr(Allocated(old(View()))) && ipCounter == At(Allocated(old(View())), 1)
    {
      ghost var start := ipCounter;
      ghost var free := FirstFree(fakeToDomain, start, 0);
      for i := 0 to RANGE_SIZE
        invariant ipCounter == At(start, i) && i <= free
      {
        ip := FakeAddr(ipCounter);
        var inUse := ip in fakeToDomain;
        NextAt(start, i);
        ipCounter := (ipCounter + 1) % RANGE_SIZE;
        if !inUse {
          assert i == free && ipCounter == At(At(start, i), 1);
          return;
        }
      }
      assert ipCounter == start && free == RANGE_SIZE;
      ip := FakeAddr(ipCounter);
      ipCounter := (ipCounter + 1) % RANGE_SIZE;
    }

    method IssueFakeIP(domain: string, now: int) returns (ip: Addr)
      requires ipCounter < RANGE_SIZE
      modifies this
      ensures View() == Insert(old(View()), domain, now) && ip == domainToFake[domain].ip
    {
      ip := AllocateFakeIP();
      domainToFake := domainToFake[domain := Mapping(ip, now)];
      fakeToDomain := fakeToDomain[ip := domain];
      issued := issued + 1;
    }

    /** Ranges over the map in an arbitrary order and drops a mapping with the least creation time. */
    method EvictOldestMapping() returns (victim: string)
      requires "" !in domainToFake
      modifies this
      ensures old(domainToFake) == map[] ==> View() == old(View())
      ensures old(domainToFake) != map[] ==>
                IsOldest(old(View()), victim) && View() == Remove(old(View()), victim)
    {
      var oldestTime := 0;
      victim := "";
      var todo := domainToFake.Keys;
      while todo != {}
        invariant todo <= domainToFake.Keys
        invariant victim == "" ==> todo == domainToFake.Keys
        invariant victim != "" ==> victim in domainToFake && domainToFake[victim].createdAt == oldestTime
        invariant victim != "" ==>
          forall d :: d in domainToFake && d !in todo ==> oldestTime <= domainToFake[d].createdAt
        decreases todo
      {
        var d :| d in todo;
        if victim == "" || domainToFake[d].createdAt < oldestTime {
          victim, oldestTime := d, domainToFake[d].createdAt;
        }
        todo := todo - {d};
      }
      if victim != "" {
        DeleteMapping(victim);
      }
    }

    method InterceptDNS(domain: string, now: int) returns (ip: Addr, ghost victim: string)
      requires Valid() && FullyQualified(domain)
      modifies this
      ensures Enabled(config, old(View()), Intercept(domain, now, victim))
      ensures View() == Step(config, old(View()), Intercept(domain, now, victim))
      ensures Valid() && domain in domainToFake && ip == domainToFake[domain].ip
    {
      victim := "";
      if domain in domainToFake {
        hits := hits + 1;
        return domainToFake[domain].ip, victim;
      }
      if config.maxMappings > 0 && |domainToFake| >= config.maxMappings {
        victim := EvictOldestMapping();
      }
      ip := IssueFakeIP(domain, now);
      StepKeepsInv(config, old(View()), Intercept(domain, now, victim));
    }

    /** Collects the stale domains, then deletes them one by one. */
    method CleanupExpired(now: int)
      requires Valid()
      modifies this
      ensures View() == Step(config, old(View()), Sweep(now)) && Valid()
    {
      StepKeepsInv(config, View(), Sweep(now));
      var toDelete := set d | d in domainToFake && now - domainToFake[d].createdAt > config.timeout;
      DeleteMappings(toDelete, View());
    }

    method DeleteMappings(toDelete: set<string>, ghost s: State)
      requires s == View() && toDelete <= domainToFake.Keys
      modifies this
      ensures View() == RemoveAll(s, toDelete)
    {
      var todo := toDelete;
      RemoveNone(s);
      assert toDelete - todo == {};
      while todo != {}
        invariant todo <= toDelete && View() == RemoveAll(s, toDelete - todo)
        decreases todo
      {
        var d :| d in todo;
        RemoveOneMore(s, toDelete, todo, d);
        DeleteMapping(d);
        todo := todo - {d};
      }
      assert toDelete - todo == toDelete;
    }

    method DeleteMapping(d: string)
      requires d in domainToFake
      modifies this
      ensures View() == Remove(old(View()), d)
    {
      var mapping := domainToFake[d];
      domainToFake := domainToFake - {d};
      fakeToDomain := fakeToDomain - {mapping.ip};
      expired := expired + 1;
    }

    method GetDomainByFakeIP(ip: Addr) returns (domain: Option<string>)
      requires Valid()
      ensures domain.Some? ==> domain.value in domainToFake && domainToFake[domain.value].ip == ip
      ensures domain.None? ==> ip !in fakeToDomain
    {
      domain := if ip in fakeToDomain then Some(fakeToDomain[ip]) else None;
    }

    method GetFakeIPByDomain(domain: string) returns (ip: Option<Addr>)
      requires Valid()
      ensures ip.Some? <==> domain in domainToFake
      ensures ip.Some? ==> ip.value == domainToFake[domain].ip && IsFakeIP(ip.value)
    {
      ip := if domain in domainToFake then Some(domainToFake[domain].ip) else None;
    }
  }

  lemma {:induction false} RemoveNone(s: State)
    ensures RemoveAll(s, {}) == s
  {
    assert AddressesOf(s, {}) == {};
    assert s.domainToFake - {} == s.domainToFake && s.fakeToDomain - {} == s.fakeToDomain;
  }

  lemma {:induction false} RemoveOneMore(s: State, all: set<string>, todo: set<string>, d: string)
    requires todo <= all <= s.domainToFake.Keys && d in todo
    ensures d in RemoveAll(s, all - todo).domainToFake
    ensures RemoveAll(s, all - (todo - {d})) == Remove(RemoveAll(s, all - todo), d)
  {
    var gone := all - todo;
    assert all - (todo - {d}) == gone + {d};
    assert AddressesOf(s, gone + {d}) == AddressesOf(s, gone) + {s.domainToFake[d].ip};
  }
}
