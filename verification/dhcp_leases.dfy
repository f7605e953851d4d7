/**
 The DHCPv4 lease allocator (dhcp/server.go) with Smart DHCP off and no restored leases: two maps,
 MAC to lease and IP to MAC, kept in step by four message handlers and an expiry sweep.
 IPv4 addresses are their 32-bit values; each handler and each sweep is one atomic step.
 */
module LeaseAllocator {
  import opened Bytes
  import Addresses

  const ADDRESSES := 0x1_0000_0000

  type Mac = seq<Byte>
  type IPv4 = x: int | 0 <= x < ADDRESSES

  datatype Config = Config(
    first: IPv4, last: IPv4, netBase: IPv4, netSize: nat, reserved: set<IPv4>, leaseDuration: int)
  {
    /** net.IPNet.Contains for a prefix mask: see Addresses.BlockIsInterval. */
    predicate Contains(ip: IPv4) {
      netBase <= ip < netBase + netSize
    }

    /** A pool that starts inside a proper subnet; it may end outside, and is then cut there. */
    predicate Valid() {
      && first <= last && last - first + 1 < ADDRESSES
      && Contains(first) && netBase + netSize <= ADDRESSES && netSize < ADDRESSES
    }

    function PoolEnd(): int {
      if last < netBase + netSize then last else netBase + netSize - 1
    }

    function PoolSize(): int {
      PoolEnd() - first + 1
    }

    predicate InPool(ip: IPv4) {
      first <= ip <= PoolEnd()
    }

    /** The k-th address in cyclic order from start. */
    function PoolAt(start: IPv4, k: nat): (ip: IPv4)
      requires Valid() && InPool(start) && k <= PoolSize()
      ensures InPool(ip)
    {
      if start + k <= PoolEnd() then start + k else start + k - PoolSize()
    }
  }

  datatype Lease = Lease(ip: IPv4, expires: int)

  datatype Table = Table(leases: map<Mac, Lease>, ipIndex: map<IPv4, Mac>, nextIP: IPv4, leaseCount: int)

  datatype Message =
    | Discover(mac: Mac)
    | Request(mac: Mac, requestedOption: Option<seq<Byte>>, yourIP: seq<Byte>)
    | Release(mac: Mac)
    | Inform(mac: Mac)

  datatype Event = Packet(msg: Message, now: int) | Sweep(now: int)

  datatype Reply = NoReply | Offer(mac: Mac, ip: IPv4) | Ack(mac: Mac, ip: IPv4) | InformAck(mac: Mac) | NoAddress

  // ---- Specification ----

  predicate Free(c: Config, index: map<IPv4, Mac>, ip: IPv4) {
    ip !in c.reserved && ip !in index
  }

  /** The first offset at or after k whose address is free, or the pool size if there is none. */
  function FirstFree(c: Config, index: map<IPv4, Mac>, start: IPv4, k: nat): (r: nat)
    requires c.Valid() && c.InPool(start) && k <= c.PoolSize()
    ensures k <= r <= c.PoolSize()
    ensures r < c.PoolSize() ==> Free(c, index, c.PoolAt(start, r))
    ensures forall i :: k <= i < r ==> !Free(c, index, c.PoolAt(start, i))
    decreases c.PoolSize() - k
  {
    if k == c.PoolSize() || Free(c, index, c.PoolAt(start, k)) then k
    else FirstFree(c, index, start, k + 1)
  }

  function Allocate(c: Config, t: Table, mac: Mac, now: int): (Table, Option<IPv4>)
    requires c.Valid() && c.InPool(t.nextIP)
  {
    if mac in t.leases && now < t.leases[mac].expires then (t, Some(t.leases[mac].ip))
    else LegacyAllocate(c, t, mac, now)
  }

  function LegacyAllocate(c: Config, t: Table, mac: Mac, now: int): (Table, Option<IPv4>)
    requires c.Valid() && c.InPool(t.nextIP)
  {
    var index := if mac in t.leases then t.ipIndex - {t.leases[mac].ip} else t.ipIndex;
    var k := FirstFree(c, index, t.nextIP, 0);
    if k < c.PoolSize() then
      var ip := c.PoolAt(t.nextIP, k);
      (Table(t.leases[mac := Lease(ip, now + c.leaseDuration)], index[ip := mac],
             c.PoolAt(t.nextIP, k + 1), t.leaseCount + 1),
       Some(ip))
    else
      (t.(ipIndex := index), None)
  }

  /** The address a REQUEST asks for, as a 32-bit value; None when it is not an IPv4 address. */
  function Requested(m: Message): Option<IPv4>
    requires m.Request?
  {
    var bytes := if m.requestedOption.Some? then m.requestedOption.value else m.yourIP;
    match To4(bytes)
    case None => None
    case Some(v4) => ValueBound(v4); assert Pow256(4) == ADDRESSES; Some(Value(v4))
  }

  function Handle(c: Config, t: Table, m: Message, now: int): (Table, Reply)
    requires c.Valid() && c.InPool(t.nextIP)
  {
    match m
    case Discover(mac) =>
      var (t', ip) := Allocate(c, t, mac, now);
      (t', if ip.Some? then Offer(mac, ip.value) else NoAddress)
    case Request(mac, _, _) =>
      var want := Requested(m);
      if want.None? || !c.Contains(want.value) then (t, NoReply)
      else if mac in t.leases && t.leases[mac].ip == want.value then
        (t.(leases := t.leases[mac := Lease(want.value, now + c.leaseDuration)]), Ack(mac, want.value))
      else
        var (t', ip) := Allocate(c, t, mac, now);
        (t', if ip.Some? then Ack(mac, ip.value) else NoAddress)
    case Release(mac) =>
      if mac in t.leases then
        (t.(leases := t.leases - {mac}, ipIndex := t.ipIndex - {t.leases[mac].ip},
            leaseCount := t.leaseCount - 1), NoReply)
      else (t, NoReply)
    case Inform(mac) => (t, InformAck(mac))
  }

  function Expired(t: Table, now: int): set<Mac> {
    set mac | mac in t.leases && now > t.leases[mac].expires
  }

  function LeasedTo(t: Table, dead: set<Mac>): set<IPv4>
    requires dead <= t.leases.Keys
  {
    set mac | mac in dead :: t.leases[mac].ip
  }

  function Drop(t: Table, dead: set<Mac>): Table
    requires dead <= t.leases.Keys
  {
    Table(t.leases - dead, t.ipIndex - LeasedTo(t, dead), t.nextIP, t.leaseCount - |dead|)
  }

  function SweepTable(t: Table, now: int): Table {
    Drop(t, Expired(t, now))
  }

  function Step(c: Config, t: Table, e: Event): (Table, Reply)
    requires c.Valid() && c.InPool(t.nextIP)
  {
    match e
    case Packet(m, now) => Handle(c, t, m, now)
    case Sweep(now) => (SweepTable(t, now), NoReply)
  }

  function Initial(c: Config): Table {
    Table(map[], map[], c.first, 0)
  }

  // ---- The invariant ----

  /** leases and ipIndex are exact inverses, and every leased address is an unreserved pool address. */
  ghost predicate Inv(c: Config, t: Table) {
    && c.InPool(t.nextIP)
    && (forall mac {:trigger Held(c, t, mac)} :: mac in t.leases ==> Held(c, t, mac))
    && (forall ip {:trigger Owned(t, ip)} :: ip in t.ipIndex ==> Owned(t, ip))
    && t.leaseCount >= |t.leases|
  }

  ghost predicate Held(c: Config, t: Table, mac: Mac)
    requires mac in t.leases
  {
    var ip := t.leases[mac].ip;
    ip in t.ipIndex && t.ipIndex[ip] == mac && c.InPool(ip) && ip !in c.reserved
  }

  ghost predicate Owned(t: Table, ip: IPv4)
    requires ip in t.ipIndex
  {
    t.ipIndex[ip] in t.leases && t.leases[t.ipIndex[ip]].ip == ip
  }

  /** Every pool address is visited, at one offset only. */
  lemma CyclicOrderIsBijection(c: Config, start: IPv4, ip: IPv4)
    requires c.Valid() && c.InPool(start) && c.InPool(ip)
    ensures exists k :: 0 <= k < c.PoolSize() && c.PoolAt(start, k) == ip
    ensures forall i, j :: 0 <= i < j < c.PoolSize() ==> c.PoolAt(start, i) != c.PoolAt(start, j)
  {
    var k := if ip >= start then ip - start else ip - start + c.PoolSize();
    assert c.PoolAt(start, k) == ip;
  }

  /** The scan fails exactly when every pool address is reserved or indexed. */
  lemma ScanFailsIff(c: Config, index: map<IPv4, Mac>, start: IPv4)
    requires c.Valid() && c.InPool(start)
    ensures FirstFree(c, index, start, 0) == c.PoolSize()
            <==> forall ip: IPv4 :: c.InPool(ip) ==> ip in c.reserved || ip in index
  {
    var k := FirstFree(c, index, start, 0);
    if k == c.PoolSize() {
      forall ip: IPv4 | c.InPool(ip) ensures !Free(c, index, ip) {
        CyclicOrderIsBijection(c, start, ip);
      }
    } else {
      assert Free(c, index, c.PoolAt(start, k));
    }
  }

  /**
   Allocation fails exactly for a client without a lease when the pool is used up. A client that
   holds one, even an expired one, is always served: the address just dropped from the index is free.
   */
  lemma {:induction false} AllocateFailsIff(c: Config, t: Table, mac: Mac, now: int)
    requires c.Valid() && Inv(c, t)
    ensures Allocate(c, t, mac, now).1.None?
            <==> mac !in t.leases && forall ip: IPv4 :: c.InPool(ip) ==> ip in c.reserved || ip in t.ipIndex
  {
    ScanFailsIff(c, t.ipIndex, t.nextIP);
    if mac in t.leases {
      var own := t.leases[mac].ip;
      assert Held(c, t, mac);
      ScanFailsIff(c, t.ipIndex - {own}, t.nextIP);
      assert Free(c, t.ipIndex - {own}, own);
    }
  }

  lemma {:induction false} BindKeepsInv(c: Config, t: Table, index: map<IPv4, Mac>, mac: Mac, lease: Lease, next: IPv4)
    requires c.Valid() && Inv(c, t) && c.InPool(next)
    requires index == if mac in t.leases then t.ipIndex - {t.leases[mac].ip} else t.ipIndex
    requires c.InPool(lease.ip) && Free(c, index, lease.ip)
    ensures Inv(c, Table(t.leases[mac := lease], index[lease.ip := mac], next, t.leaseCount + 1))
  {
    var t' := Table(t.leases[mac := lease], index[lease.ip := mac], next, t.leaseCount + 1);
    assert t'.leases.Keys == t.leases.Keys + {mac};
    forall m | m in t'.leases ensures Held(c, t', m) {
      if m != mac {
        assert Held(c, t, m);
        assert mac in t.leases ==> Held(c, t, mac);
      }
    }
    forall ip | ip in t'.ipIndex ensures Owned(t', ip) {
      if ip != lease.ip {
        assert Owned(t, ip);
        assert mac in t.leases ==> Held(c, t, mac);
      }
    }
  }

  lemma {:induction false} AllocateKeepsInv(c: Config, t: Table, mac: Mac, now: int)
    requires c.Valid() && Inv(c, t)
    ensures var (t', ip) := Allocate(c, t, mac, now);
            && Inv(c, t')
            && (ip.None? ==> t' == t)
            && (ip.Some? ==> mac in t'.leases && t'.leases[mac].ip == ip.value)
            && (forall other :: other != mac && other in t.leases ==>
                  other in t'.leases && t'.leases[other] == t.leases[other])
  {
    AllocateFailsIff(c, t, mac, now);
    if !(mac in t.leases && now < t.leases[mac].expires) {
      LegacyAllocateKeepsInv(c, t, mac, now);
    }
  }

  lemma {:induction false} LegacyAllocateKeepsInv(c: Config, t: Table, mac: Mac, now: int)
    requires c.Valid() && Inv(c, t)
    requires LegacyAllocate(c, t, mac, now).1.None? ==> mac !in t.leases
    ensures var (t', ip) := LegacyAllocate(c, t, mac, now);
            && Inv(c, t')
            && (ip.None? ==> t' == t)
            && (ip.Some? ==> t'.leases == t.leases[mac := Lease(ip.value, now + c.leaseDuration)])
  {
    var (t', ip) := LegacyAllocate(c, t, mac, now);
    if ip.Some? {
      var index := if mac in t.leases then t.ipIndex - {t.leases[mac].ip} else t.ipIndex;
      BindKeepsInv(c, t, index, mac, t'.leases[mac], t'.nextIP);
    }
  }

  lemma {:induction false} DropKeepsInv(c: Config, t: Table, dead: set<Mac>)
    requires c.Valid() && Inv(c, t) && dead <= t.leases.Keys
    ensures Inv(c, Drop(t, dead))
  {
    var t' := Drop(t, dead);
    assert t'.leases.Keys == t.leases.Keys - dead;
    forall mac | mac in t'.leases ensures Held(c, t', mac) {
      assert Held(c, t, mac);
      assert forall other :: other in dead ==> Held(c, t, other);
    }
    forall ip | ip in t'.ipIndex ensures Owned(t', ip) {
      assert Owned(t, ip);
    }
  }

  lemma DropOneMore(t: Table, dead: set<Mac>, mac: Mac)
    requires dead + {mac} <= t.leases.Keys
    ensures Drop(t, dead + {mac}).leases == Drop(t, dead).leases - {mac}
    ensures Drop(t, dead + {mac}).ipIndex == Drop(t, dead).ipIndex - {t.leases[mac].ip}
  {
    assert LeasedTo(t, dead + {mac}) == LeasedTo(t, dead) + {t.leases[mac].ip};
  }

  lemma RenewKeepsInv(c: Config, t: Table, mac: Mac, expires: int)
    requires c.Valid() && Inv(c, t) && mac in t.leases
    ensures Inv(c, t.(leases := t.leases[mac := Lease(t.leases[mac].ip, expires)]))
  {
    var t' := t.(leases := t.leases[mac := Lease(t.leases[mac].ip, expires)]);
    assert t'.leases.Keys == t.leases.Keys;
    forall m | m in t'.leases ensures Held(c, t', m) {
      assert Held(c, t, m);
    }
    forall ip | ip in t'.ipIndex ensures Owned(t', ip) {
      assert Owned(t, ip);
    }
  }

  lemma ReleaseIsDrop(t: Table, mac: Mac)
    requires mac in t.leases
    ensures Drop(t, {mac}) == t.(leases := t.leases - {mac}, ipIndex := t.ipIndex - {t.leases[mac].ip},
                                 leaseCount := t.leaseCount - 1)
  {
    assert LeasedTo(t, {mac}) == {t.leases[mac].ip};
  }

  lemma {:induction false} SweepKeepsInv(c: Config, t: Table, now: int)
    requires c.Valid() && Inv(c, t)
    ensures Inv(c, SweepTable(t, now))
  {
    DropKeepsInv(c, t, Expired(t, now));
  }

  lemma {:induction false} StepKeepsInv(c: Config, t: Table, e: Event)
    requires c.Valid() && Inv(c, t)
    ensures Inv(c, Step(c, t, e).0)
  {
    match e
    case Sweep(now) => SweepKeepsInv(c, t, now);
    case Packet(Discover(mac), now) => AllocateKeepsInv(c, t, mac, now);
    case Packet(Request(mac, _, _), now) =>
      AllocateKeepsInv(c, t, mac, now);
      if mac in t.leases {
        RenewKeepsInv(c, t, mac, now + c.leaseDuration);
      }
    case Packet(Release(mac), now) =>
      if mac in t.leases {
        ReleaseIsDrop(t, mac);
        DropKeepsInv(c, t, {mac});
      }
    case Packet(Inform(_), _) =>
  }

  /** A fresh allocation takes the first free address in cyclic order and parks the cursor behind it. */
  lemma AllocationIsRoundRobin(c: Config, t: Table, mac: Mac, now: int)
    requires c.Valid() && Inv(c, t)
    requires mac !in t.leases || now >= t.leases[mac].expires
    requires Allocate(c, t, mac, now).1.Some?
    ensures var t' := Allocate(c, t, mac, now).0;
            exists k :: 0 <= k < c.PoolSize() && t'.leases[mac] == Lease(c.PoolAt(t.nextIP, k), now + c.leaseDuration)
              && t'.nextIP == (if t'.leases[mac].ip == c.PoolEnd() then c.first else t'.leases[mac].ip + 1)
              && (forall i :: 0 <= i < k ==>
                    var skipped := c.PoolAt(t.nextIP, i);
                    skipped in c.reserved || (skipped in t.ipIndex && t.ipIndex[skipped] != mac))
  {
    var index := if mac in t.leases then t.ipIndex - {t.leases[mac].ip} else t.ipIndex;
    var k := FirstFree(c, index, t.nextIP, 0);
    forall i | 0 <= i < k
      ensures var skipped := c.PoolAt(t.nextIP, i);
              skipped in c.reserved || (skipped in t.ipIndex && t.ipIndex[skipped] != mac)
    {
      var skipped := c.PoolAt(t.nextIP, i);
      assert !Free(c, index, skipped);
      assert skipped in t.ipIndex ==> Owned(t, skipped);
    }
  }

  /** Every address in an OFFER or in the ACK of a REQUEST is the one in that client's stored lease. */
  lemma ReplyMatchesLease(c: Config, t: Table, e: Event)
    requires c.Valid() && Inv(c, t)
    ensures var (t', r) := Step(c, t, e);
            r.Offer? || r.Ack? ==>
              && e.Packet? && r.mac == e.msg.mac
              && r.mac in t'.leases && t'.leases[r.mac].ip == r.ip
              && c.InPool(r.ip) && r.ip !in c.reserved
              && (c.leaseDuration > 0 ==> e.now < t'.leases[r.mac].expires)
  {
    StepKeepsInv(c, t, e);
    if e.Packet? && (e.msg.Discover? || e.msg.Request?) {
      AllocateKeepsInv(c, t, e.msg.mac, e.now);
      var t' := Step(c, t, e).0;
      assert e.msg.mac in t'.leases ==> Held(c, t', e.msg.mac);
    }
  }

  // ---- Every message gets its answer ----

  /** Every pool address is reserved or leased. */
  ghost predicate UsedUp(c: Config, t: Table) {
    forall ip: IPv4 :: c.InPool(ip) ==> ip in c.reserved || ip in t.ipIndex
  }

  /** A DISCOVER gets an OFFER, except exactly when the client has no lease and the pool is used up. */
  lemma {:induction false} DiscoverIsAnswered(c: Config, t: Table, mac: Mac, now: int)
    requires c.Valid() && Inv(c, t)
    ensures var (t', r) := Handle(c, t, Discover(mac), now);
            if mac !in t.leases && UsedUp(c, t) then r == NoAddress && t' == t
            else r.Offer? && r.mac == mac && mac in t'.leases && t'.leases[mac].ip == r.ip
    ensures mac in t.leases && now < t.leases[mac].expires ==>
              Handle(c, t, Discover(mac), now) == (t, Offer(mac, t.leases[mac].ip))
  {
    AllocateFailsIff(c, t, mac, now);
    AllocateKeepsInv(c, t, mac, now);
  }

  /** A REQUEST stays unanswered exactly when its address is missing or outside the network. */
  lemma {:induction false} RequestIsIgnoredIff(c: Config, t: Table, m: Message, now: int)
    requires c.Valid() && Inv(c, t) && m.Request?
    ensures Handle(c, t, m, now).1 == NoReply <==> Requested(m).None? || !c.Contains(Requested(m).value)
    ensures Handle(c, t, m, now).1 == NoReply ==> Handle(c, t, m, now).0 == t
  {
  }

  /** A REQUEST for the client's own address is acknowledged, and the lease runs from now. */
  lemma {:induction false} OwnAddressIsRenewed(c: Config, t: Table, m: Message, now: int)
    requires c.Valid() && Inv(c, t) && m.Request? && m.mac in t.leases
    requires Requested(m) == Some(t.leases[m.mac].ip)
    ensures var (t', r) := Handle(c, t, m, now);
            && r == Ack(m.mac, t.leases[m.mac].ip)
            && t'.leases == t.leases[m.mac := Lease(t.leases[m.mac].ip, now + c.leaseDuration)]
            && t'.ipIndex == t.ipIndex && t'.nextIP == t.nextIP
  {
    assert Held(c, t, m.mac);
  }

  /** Any other REQUEST within the network is acknowledged with the address a DISCOVER would offer. */
  lemma {:induction false} OtherRequestIsAnswered(c: Config, t: Table, m: Message, now: int)
    requires c.Valid() && Inv(c, t) && m.Request?
    requires Requested(m).Some? && c.Contains(Requested(m).value)
    requires m.mac in t.leases ==> t.leases[m.mac].ip != Requested(m).value
    ensures var (t', r) := Handle(c, t, m, now);
            && t' == Handle(c, t, Discover(m.mac), now).0
            && if m.mac !in t.leases && UsedUp(c, t) then r == NoAddress
               else
                 && m.mac in t'.leases && r == Ack(m.mac, t'.leases[m.mac].ip)
                 && Handle(c, t, Discover(m.mac), now).1 == Offer(m.mac, t'.leases[m.mac].ip)
  {
    DiscoverIsAnswered(c, t, m.mac, now);
  }

  /** Option 50 names the address when present, yourIP otherwise; it must be an IPv4 address. */
  lemma {:induction false} RequestedAddress(mac: Mac, ip: IPv4, bytes: seq<Byte>, yourIP: seq<Byte>)
    ensures Requested(Request(mac, Some(FromValue(ip, 4)), yourIP)) == Some(ip)
    ensures Requested(Request(mac, None, FromValue(ip, 4))) == Some(ip)
    ensures |bytes| != 4 && |bytes| != 16 ==>
              Requested(Request(mac, Some(bytes), yourIP)) == None && Requested(Request(mac, None, bytes)) == None
  {
    assert Pow256(4) == ADDRESSES;
    ValueOfFromValue(ip, 4);
  }

  /** INFORM is acknowledged without an address, RELEASE is not answered, and a sweep answers nobody. */
  lemma {:induction false} OtherReplies(c: Config, t: Table, mac: Mac, now: int)
    requires c.Valid() && Inv(c, t)
    ensures Step(c, t, Packet(Inform(mac), now)) == (t, InformAck(mac))
    ensures Step(c, t, Packet(Release(mac), now)).1 == NoReply && Step(c, t, Sweep(now)).1 == NoReply
  {
  }

  /** A RELEASE ends the lease and makes its address available again. */
  lemma {:induction false} ReleaseFreesAddress(c: Config, t: Table, mac: Mac, now: int)
    requires c.Valid() && Inv(c, t) && mac in t.leases
    ensures var t' := Step(c, t, Packet(Release(mac), now)).0;
            mac !in t'.leases && Free(c, t'.ipIndex, t.leases[mac].ip)
  {
    assert Held(c, t, mac);
  }

  /** Only a message of the client itself, or its own expiry, touches its lease. */
  lemma StepTouchesOneClient(c: Config, t: Table, e: Event, mac: Mac)
    requires c.Valid() && Inv(c, t) && mac in t.leases
    requires e.Packet? ==> e.msg.mac != mac
    ensures var t' := Step(c, t, e).0;
            if e.Sweep? && e.now > t.leases[mac].expires then mac !in t'.leases
            else mac in t'.leases && t'.leases[mac] == t.leases[mac]
  {
    if e.Packet? && (e.msg.Discover? || e.msg.Request?) {
      AllocateKeepsInv(c, t, e.msg.mac, e.now);
    }
  }

  // ---- Whole runs ----

  function Run(c: Config, t: Table, events: seq<Event>): Table
    requires c.Valid() && c.InPool(t.nextIP)
    decreases |events|
  {
    if events == [] then t else Run(c, Step(c, t, events[0]).0, events[1..])
  }

  function Replies(c: Config, t: Table, events: seq<Event>): (rs: seq<Reply>)
    requires c.Valid() && c.InPool(t.nextIP)
    ensures |rs| == |events|
    decreases |events|
  {
    if events == [] then []
    else
      var (t', r) := Step(c, t, events[0]);
      [r] + Replies(c, t', events[1..])
  }

  /** In every run from an empty table the two maps stay exact inverses over unreserved pool addresses. */
  lemma {:induction false} RunKeepsInv(c: Config, t: Table, events: seq<Event>)
    requires c.Valid() && Inv(c, t)
    ensures Inv(c, Run(c, t, events))
    decreases |events|
  {
    if events != [] {
      StepKeepsInv(c, t, events[0]);
      RunKeepsInv(c, Step(c, t, events[0]).0, events[1..]);
    }
  }

  lemma NoTwoClientsShareAnAddress(c: Config, events: seq<Event>, a: Mac, b: Mac)
    requires c.Valid()
    ensures var t := Run(c, Initial(c), events);
            a in t.leases && b in t.leases && t.leases[a].ip == t.leases[b].ip ==> a == b
  {
    RunKeepsInv(c, Initial(c), events);
    var t := Run(c, Initial(c), events);
    assert a in t.leases ==> Held(c, t, a);
    assert b in t.leases ==> Held(c, t, b);
  }

  /** The step gives a client with an expired, not yet swept lease a new one in its place. */
  predicate Replaces(c: Config, t: Table, e: Event) {
    && e.Packet? && e.msg.mac in t.leases && e.now >= t.leases[e.msg.mac].expires
    && (e.msg.Discover? ||
        (e.msg.Request? && Requested(e.msg).Some? && c.Contains(Requested(e.msg).value)
         && Requested(e.msg).value != t.leases[e.msg.mac].ip))
  }

  ghost function Replacements(c: Config, t: Table, events: seq<Event>): nat
    requires c.Valid() && c.InPool(t.nextIP)
    decreases |events|
  {
    if events == [] then 0
    else (if Replaces(c, t, events[0]) then 1 else 0) + Replacements(c, Step(c, t, events[0]).0, events[1..])
  }

  /** By how much the counter exceeds the number of leases. */
  ghost function Surplus(t: Table): int {
    t.leaseCount - |t.leases|
  }

  lemma {:induction false} AllocateCounts(c: Config, t: Table, mac: Mac, now: int)
    requires c.Valid() && Inv(c, t)
    ensures Surplus(Allocate(c, t, mac, now).0)
            == Surplus(t) + if mac in t.leases && now >= t.leases[mac].expires then 1 else 0
  {
    AllocateFailsIff(c, t, mac, now);
    BindCounts(c, t, mac, now);
  }

  lemma {:induction false} BindCounts(c: Config, t: Table, mac: Mac, now: int)
    requires c.Valid() && c.InPool(t.nextIP)
    ensures var (t', ip) := LegacyAllocate(c, t, mac, now);
            Surplus(t') == Surplus(t) + if mac in t.leases && ip.Some? then 1 else 0
  {
    var (t', ip) := LegacyAllocate(c, t, mac, now);
    if ip.Some? {
      assert t'.leases.Keys == t.leases.Keys + {mac};
    }
  }

  lemma {:induction false} DropCounts(t: Table, dead: set<Mac>)
    requires dead <= t.leases.Keys
    ensures Surplus(Drop(t, dead)) == Surplus(t)
  {
    assert Drop(t, dead).leases.Keys == t.leases.Keys - dead;
  }

  lemma {:induction false} RenewCounts(t: Table, mac: Mac, lease: Lease)
    requires mac in t.leases
    ensures Surplus(t.(leases := t.leases[mac := lease])) == Surplus(t)
  {
    assert t.leases[mac := lease].Keys == t.leases.Keys;
  }

  lemma {:induction false} RequestCounts(c: Config, t: Table, m: Message, now: int)
    requires c.Valid() && Inv(c, t) && m.Request?
    ensures Surplus(Handle(c, t, m, now).0) == Surplus(t) + if Replaces(c, t, Packet(m, now)) then 1 else 0
  {
    var want := Requested(m);
    if want.None? || !c.Contains(want.value) {
      assert Handle(c, t, m, now).0 == t;
    } else if m.mac in t.leases && t.leases[m.mac].ip == want.value {
      RenewCounts(t, m.mac, Lease(want.value, now + c.leaseDuration));
    } else {
      AllocateCounts(c, t, m.mac, now);
    }
  }

  lemma {:induction false} StepCounts(c: Config, t: Table, e: Event)
    requires c.Valid() && Inv(c, t)
    ensures Surplus(Step(c, t, e).0) == Surplus(t) + if Replaces(c, t, e) then 1 else 0
  {
    match e
    case Sweep(now) => DropCounts(t, Expired(t, now));
    case Packet(Discover(mac), now) => AllocateCounts(c, t, mac, now);
    case Packet(Request(_, _, _), now) => RequestCounts(c, t, e.msg, now);
    case Packet(Release(mac), now) => ReleaseCounts(c, t, mac, now);
    case Packet(Inform(_), _) =>
  }

  lemma {:induction false} ReleaseCounts(c: Config, t: Table, mac: Mac, now: int)
    requires c.Valid() && Inv(c, t)
    ensures Surplus(Handle(c, t, Release(mac), now).0) == Surplus(t)
  {
    if mac in t.leases {
      ReleaseIsDrop(t, mac);
      DropCounts(t, {mac});
    }
  }

  /** The lease counter exceeds the number of leases by the replacements so far: exact if and only if none. */
  lemma {:induction false} CounterCountsReplacements(c: Config, t: Table, events: seq<Event>)
    requires c.Valid() && Inv(c, t)
    ensures Surplus(Run(c, t, events)) == Surplus(t) + Replacements(c, t, events)
    decreases |events|
  {
    if events != [] {
      StepCounts(c, t, events[0]);
      StepKeepsInv(c, t, events[0]);
      CounterCountsReplacements(c, Step(c, t, events[0]).0, events[1..]);
    }
  }

  predicate Ordered(clock: int, events: seq<Event>) {
    && (events != [] ==> clock <= events[0].now)
    && (forall i :: 0 < i < |events| ==> events[i - 1].now <= events[i].now)
  }

  /** No lease outlives the clock by more than the lease duration. */
  ghost predicate TimedInv(c: Config, t: Table, clock: int) {
    Inv(c, t) && forall mac :: mac in t.leases ==> t.leases[mac].expires <= clock + c.leaseDuration
  }

  lemma {:induction false} StepKeepsTimedInv(c: Config, t: Table, clock: int, e: Event)
    requires c.Valid() && TimedInv(c, t, clock) && clock <= e.now
    ensures TimedInv(c, Step(c, t, e).0, e.now)
  {
    StepKeepsInv(c, t, e);
  }

  lemma {:induction false} RunKeepsTimedInv(c: Config, t: Table, clock: int, events: seq<Event>)
    requires c.Valid() && TimedInv(c, t, clock) && Ordered(clock, events)
    ensures TimedInv(c, Run(c, t, events), if events == [] then clock else events[|events| - 1].now)
    decreases |events|
  {
    if events != [] {
      StepKeepsTimedInv(c, t, clock, events[0]);
      RunKeepsTimedInv(c, Step(c, t, events[0]).0, events[0].now, events[1..]);
    }
  }

  /** A step before the expiry, other than the client's own RELEASE, leaves its address in place. */
  lemma StepKeepsLiveLease(c: Config, t: Table, clock: int, e: Event, mac: Mac)
    requires c.Valid() && TimedInv(c, t, clock) && clock <= e.now && mac in t.leases
    requires e.now < t.leases[mac].expires
    requires !(e.Packet? && e.msg == Release(mac))
    ensures var (t', r) := Step(c, t, e);
            && mac in t'.leases && t'.leases[mac].ip == t.leases[mac].ip
            && t'.leases[mac].expires >= t.leases[mac].expires
            && ((r.Offer? || r.Ack?) && r.mac != mac ==> r.ip != t.leases[mac].ip)
  {
    StepKeepsInv(c, t, e);
    ReplyMatchesLease(c, t, e);
    var (t', r) := Step(c, t, e);
    assert mac in t'.leases ==> Held(c, t', mac);
    assert (r.Offer? || r.Ack?) ==> Held(c, t', r.mac);
    if e.Sweep? || e.msg.mac != mac {
      StepTouchesOneClient(c, t, e, mac);
    }
  }

  /** None of the replies hands the address to a client other than mac. */
  ghost predicate OnlyGivenTo(rs: seq<Reply>, ip: IPv4, mac: Mac) {
    forall i :: 0 <= i < |rs| && (rs[i].Offer? || rs[i].Ack?) && rs[i].ip == ip ==> rs[i].mac == mac
  }

  /**
   Exclusivity over whole runs: until a client's lease expires, and unless the client releases it, no
   sequence of messages and sweeps takes the address away or offers it to anybody else.
   */
  lemma {:induction false} LeaseIsExclusiveUntilExpiry(c: Config, t: Table, clock: int, events: seq<Event>, mac: Mac)
    requires c.Valid() && TimedInv(c, t, clock) && Ordered(clock, events) && mac in t.leases
    requires forall e :: e in events ==>
               e.now < t.leases[mac].expires && !(e.Packet? && e.msg == Release(mac))
    ensures mac in Run(c, t, events).leases && Run(c, t, events).leases[mac].ip == t.leases[mac].ip
    ensures OnlyGivenTo(Replies(c, t, events), t.leases[mac].ip, mac)
    decreases |events|
  {
    if events != [] {
      var e := events[0];
      StepKeepsLiveLease(c, t, clock, e, mac);
      StepKeepsTimedInv(c, t, clock, e);
      var t' := Step(c, t, e).0;
      LeaseIsExclusiveUntilExpiry(c, t', e.now, events[1..], mac);
      assert OnlyGivenTo(Replies(c, t', events[1..]), t.leases[mac].ip, mac);
    }
  }

  // ---- The server object ----

  class Server {
    const config: Config
    var leases: map<Mac, Lease>
    var ipIndex: map<IPv4, Mac>
    var nextIP: IPv4
    var leaseCount: int

    ghost function View(): Table
      reads this
    {
      Table(leases, ipIndex, nextIP, leaseCount)
    }

    ghost predicate Valid()
      reads this
    {
      config.Valid() && Inv(config, View())
    }

    constructor (c: Config)
      requires c.Valid()
      ensures config == c && View() == Initial(c) && Valid()
    {
      config := c;
      leases, ipIndex, nextIP, leaseCount := map[], map[], c.first, 0;
    }

    /** The byte loop adds one modulo 2^32. */
    method IncrementIP(ip: IPv4) returns (r: IPv4)
      ensures r == (ip + 1) % ADDRESSES
    {
      assert Pow256(4) == ADDRESSES;
      ValueOfFromValue(ip, 4);
      var next := Addresses.NextIP(Addresses.Uint32ToIP(ip));
      r := Addresses.IPToUint32(next);
    }

    method Advance(ip: IPv4) returns (next: IPv4)
      requires config.Valid() && config.InPool(ip)
      ensures next == config.PoolAt(ip, 1)
    {
      next := IncrementIP(ip);
      if !config.Contains(next) || next > config.last {
        next := config.first;
      }
    }

    method LegacyAllocateIP(mac: Mac, now: int) returns (ip: Option<IPv4>)
      requires config.Valid() && config.InPool(nextIP)
      modifies this
      ensures (View(), ip) == LegacyAllocate(config, old(View()), mac, now)
    {
      if mac in leases {
        ipIndex := ipIndex - {leases[mac].ip};
      }
      var start := nextIP;
      var maxAttempts := (config.last - config.first + 1) % ADDRESSES;
      assert maxAttempts >= config.PoolSize();
      var attempt := 0;
      var circled := false;
      ghost var index := ipIndex;
      ghost var free := FirstFree(config, index, start, 0);
      while attempt < maxAttempts && !circled
        invariant 0 <= attempt <= config.PoolSize() && attempt <= free
        invariant circled <==> attempt == config.PoolSize()
        invariant nextIP == config.PoolAt(start, attempt)
        invariant leases == old(leases) && leaseCount == old(leaseCount) && ipIndex == index
        decreases maxAttempts - attempt, !circled
      {
        var current := nextIP;
        if current !in config.reserved && current !in ipIndex {
          assert attempt == free;
          leases := leases[mac := Lease(current, now + config.leaseDuration)];
          ipIndex := ipIndex[current := mac];
          leaseCount := leaseCount + 1;
          nextIP := Advance(current);
          return Some(current);
        }
        assert !Free(config, ipIndex, config.PoolAt(start, attempt));
        nextIP := Advance(current);
        attempt := attempt + 1;
        circled := nextIP == start;
      }
      return None;
    }

    method AllocateIP(mac: Mac, now: int) returns (ip: Option<IPv4>)
      requires Valid()
      modifies this
      ensures (View(), ip) == Allocate(config, old(View()), mac, now)
      ensures Valid()
    {
      AllocateKeepsInv(config, View(), mac, now);
      if mac in leases {
        var lease := leases[mac];
        if now < lease.expires {
          return Some(lease.ip);
        }
      }
      ip := LegacyAllocateIP(mac, now);
    }

    method HandleDiscover(mac: Mac, now: int) returns (r: Reply)
      requires Valid()
      modifies this
      ensures (View(), r) == Handle(config, old(View()), Discover(mac), now)
      ensures Valid()
    {
      var ip := AllocateIP(mac, now);
      r := if ip.Some? then Offer(mac, ip.value) else NoAddress;
    }

    method HandleRequest(m: Message, now: int) returns (r: Reply)
      requires Valid() && m.Request?
      modifies this
      ensures (View(), r) == Handle(config, old(View()), m, now)
      ensures Valid()
    {
      StepKeepsInv(config, View(), Packet(m, now));
      var want := Requested(m);
      if want.None? || !config.Contains(want.value) {
        return NoReply;
      }
      if m.mac in leases && leases[m.mac].ip == want.value {
        leases := leases[m.mac := Lease(leases[m.mac].ip, now + config.leaseDuration)];
        return Ack(m.mac, want.value);
      }
      var ip := AllocateIP(m.mac, now);
      r := if ip.Some? then Ack(m.mac, ip.value) else NoAddress;
    }

    method HandleRelease(mac: Mac, now: int) returns (r: Reply)
      requires Valid()
      modifies this
      ensures (View(), r) == Handle(config, old(View()), Release(mac), now)
      ensures Valid()
    {
      StepKeepsInv(config, View(), Packet(Release(mac), now));
      if mac in leases {
        ipIndex := ipIndex - {leases[mac].ip};
        leases := leases - {mac};
        leaseCount := leaseCount - 1;
      }
      r := NoReply;
    }

    /** Ranges over the leases in an arbitrary order, deleting expired entries on the way. */
    method DeleteExpired(now: int, ghost t: Table) returns (deleted: nat)
      requires t == View()
      modifies this`leases, this`ipIndex
      ensures leases == SweepTable(t, now).leases && ipIndex == SweepTable(t, now).ipIndex
      ensures deleted == |Expired(t, now)|
    {
      ghost var gone: set<Mac> := {};
      var todo := leases.Keys;
      deleted := 0;
      while todo != {}
        invariant todo <= t.leases.Keys && gone <= t.leases.Keys && gone !! todo
        invariant forall mac :: mac in t.leases && mac !in todo ==> (mac in gone <==> now > t.leases[mac].expires)
        invariant deleted == |gone|
        invariant leases == Drop(t, gone).leases && ipIndex == Drop(t, gone).ipIndex
        decreases todo
      {
        var mac :| mac in todo;
        var lease := leases[mac];
        if now > lease.expires {
          DropOneMore(t, gone, mac);
          ipIndex := ipIndex - {lease.ip};
          leases := leases - {mac};
          deleted := deleted + 1;
          gone := gone + {mac};
        }
        todo := todo - {mac};
      }
      assert gone == Expired(t, now);
    }

    method CleanupLeases(now: int)
      requires Valid()
      modifies this
      ensures View() == SweepTable(old(View()), now)
      ensures Valid()
    {
      ghost var t := View();
      SweepKeepsInv(config, t, now);
      var deleted := DeleteExpired(now, t);
      if deleted > 0 {
        leaseCount := leaseCount - deleted;
      }
      assert View() == SweepTable(t, now);
    }
  }
}
