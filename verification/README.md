# Verified model of go-pcap2socks' allocators, limiters and codecs

go-pcap2socks is a transparent proxy that brings its own DHCP server, DNS hijacker, connection tracker and
limiters. This project models the stateful core of those parts in Dafny and proves what they promise, over
every input, every run and, for the lock-free parts, every interleaving.

| file | component | main results |
|---|---|---|
| `dhcp_leases.dfy` | DHCPv4 lease allocator | `RunKeepsInv`, `AllocateFailsIff`, `OtherRequestIsAnswered`, `LeaseIsExclusiveUntilExpiry` |
| `visitor_limiter.dfy`, `visitor_answers.dfy`, `visitor_promise.dfy` | lock-free API rate limiter | `AnswersAreBounded`, `BoundIsAttained`, `StretchLimitIff`, `CallMakesProgress` |
| `fake_ip.dfy` | fake-IP hijacker | `InverseInEveryRunIff`, `MappingLivesForTimeout`, `EvictsEarliestIssue` |
| `conn_tracker.dfy` | connection tracker | `TrackerIsConsistent`, `FiledIff`, `RemoveReturns`, `WaiterReturns` |
| `dhcp_codec.dfy` | DHCP wire format | `RoundTripIff`, `ParseForm`, `PanicsIff`, `Marshal` |
| `dns_name.dfy` | host names in DNS queries | `RoundTripIff`, `QueryLayout`, `HostnameOf` |
| `dns_limiter.dfy`, `bandwidth_bucket.dfy` | DNS and bandwidth token buckets | `RefillComposes`, `GrantsInWindow`, `GrantsSinceCreation`, `RefillsOverRun`, `NothingIsLostIff` |
| `addresses.dfy` | address arithmetic and CIDR blocks | `BlockIsInterval`, `GenerateIPsInCIDR` |
| `icmp_checksum.dfy`, `mtu_discovery.dfy` | ICMP checksum, MTU cache, MTU search | `SelfVerifying`, `EchoConformsIff`, `EvictStaleEntries` |
| `lru_cache.dfy`, `lru_limits.dfy`, `cache_hash.dfy` | sharded LRU cache | `HitIsLastSet`, `EvictsLeastRecentlySet`, `LimitIsKeptIff`, `MaxSizeIsKeptIff` |
| `breaker.dfy` | circuit breaker | `RunKeepsInv`, `OpensIff`, `ClosesIff` |
| `ports.dfy` | port specifications | `NewPortMatcher`, `ParsePorts`, `ParsePortRange` |
| `arithmetic.dfy`, `bytes.dfy`, `strings.dfy` | shared lemmas | |

## How to read it

Code that updates fields or buffers is a class or a method with loops; its `ensures` ties the new state to a
specification function of the old one (`View()` is that state as a value), and the lemmas are about those
functions, so they hold of the methods. Protocols whose steps interleave (the API limiter, the connection
tracker) are state machines with one action per atomic operation. Time is a parameter. Random choices of the
Go runtime are left open: the iteration order of a map is an arbitrary choice (`:|`), the capacity an append
gives a slice is any function of the old one, an unstable sort may return any sorted order. `dafny verify dfyconfig.toml`
checks the whole project.

## Where the code and its description differ

- The cache takes `maxSize` as its size, but evicting shrinks the slice whose capacity is the limit and the
  next append regrows it. A shard keeps its limit in every run if and only if it is positive and the runtime
  grows a full slice of one less back to it (`LimitIsKeptIff`); with Go's growth of string slices a cache
  never holds more than `maxSize` entries if and only if 16 <= maxSize < 48 (`MaxSizeIsKeptIff`;
  cache/lru.go:42-58, 91-100, 261-271).
- The API limiter promises `Rate` requests per window. For every configuration there are calls one after the
  other that are granted twice the rate within a second (`TwiceTheRateInOneSecond`), and interleavings that
  are granted it without the clock advancing (`TwiceTheRateAtOnce`). A stretch of a run is sure to keep to
  the rate if and only if no refill is stored in it (`StretchLimitIff`; api/ratelimit.go:107-111).
- The DHCP parser reads the length byte behind the last byte when the data ends in an option code. The model
  keeps that as the outcome `Panicked`; `PanicsIff` says for which inputs it happens (dhcp/dhcp.go:244-245).
- The fake-IP maps are inverses only with a limit between 1 and 254; zero, which means unlimited, loses the
  forward half once the pool is reused (`InverseInEveryRunIff`, dns/hijacker.go:79, 133-138).
- A DNS name with an empty inner label builds without an error, and is read back cut off at that label
  (`DnsName.RoundTripIff`, dns/resolver.go:1136-1145).
- The bandwidth bucket floors on every call and moves its clock. A run refills what its time is worth if and
  only if the parts its calls drop stay below one thousandth together (`RefillsOverRun`), which every run does
  if and only if the rate is a multiple of 1 000 000 bytes per second (`NothingIsLostIff`); two calls at
  1.5 MB/s lose a third (`TwoCallsLoseAThousandth`, bandwidth/limiter.go:71-74, 94). The product of time and
  rate also wraps (`RefillIsExactIff`).
- The checksum keeps a 32-bit sum. Its own verification still succeeds for every length, but all echo requests
  of a length conform to RFC 1071 if and only if the body has at most 131068 bytes (`EchoConformsIff`,
  mtu/discovery.go:485-490).
- A DNS rate limiter made with a refill rate of zero divides by zero on its first call, and with a negative
  one never refills (`Allow`, dns/rate_limiter.go:25-42).
- `leaseCount` also counts in-place replacements (dhcp/server.go:763): it is the number of leases if and only
  if none happened (`CounterCountsReplacements`).

## Model

| member | source | states |
|---|---|---|
| `LeaseAllocator.CyclicOrderIsBijection` | dhcp/server.go:783-798 | Stepping from `nextIP` visits every pool address, each at one offset only |
| `LeaseAllocator.ScanFailsIff` | dhcp/server.go:722-804 | The scan finds nothing exactly when every pool address is reserved or indexed |
| `LeaseAllocator.AllocateFailsIff` | dhcp/server.go:611-628 | Allocation fails exactly for a client without a lease when the pool is used up; a client whose expired entry was just dropped is always served (also lines 706-805) |
| `LeaseAllocator.AllocateKeepsInv` | dhcp/server.go:611-628 | Allocation keeps the two maps inverse, a failure changes nothing, the address returned is the one stored, other clients keep their leases (also lines 706-805) |
| `LeaseAllocator.AllocationIsRoundRobin` | dhcp/server.go:714-781 | A fresh lease is the first free address in cyclic order, everything skipped is reserved or another client's, and the cursor moves just behind it |
| `LeaseAllocator.StepKeepsInv` | dhcp/server.go:358-544 | Every handler and the sweep keep: leases and index are exact inverses over unreserved pool addresses (also lines 833-859) |
| `LeaseAllocator.RunKeepsInv` | dhcp/server.go:358-544 | The same after every sequence of messages and sweeps (also lines 833-859) |
| `LeaseAllocator.NoTwoClientsShareAnAddress` | dhcp/server.go:358-544 | After any run from an empty table two clients with one address are the same client (also lines 706-805) |
| `LeaseAllocator.ReplyMatchesLease` | dhcp/server.go:358-523 | The address in an OFFER or in the ACK of a REQUEST is the one in that client's stored lease, in the pool and unreserved, and the lease is live |
| `LeaseAllocator.DiscoverIsAnswered` | dhcp/server.go:358-431 | A DISCOVER gets an OFFER of the stored address, except exactly when the client has no lease and the pool is used up; a live lease is offered again unchanged |
| `LeaseAllocator.RequestIsIgnoredIff` | dhcp/server.go:460-468 | A REQUEST stays unanswered, and changes nothing, exactly when its address is missing or outside the network |
| `LeaseAllocator.OwnAddressIsRenewed` | dhcp/server.go:470-487 | A REQUEST for the client's own address gets an ACK of it, and the lease then ends one lease duration from now |
| `LeaseAllocator.OtherRequestIsAnswered` | dhcp/server.go:488-522 | Any other REQUEST gets an ACK of the address a DISCOVER would offer, except exactly when there is none left |
| `LeaseAllocator.RequestedAddress` | dhcp/server.go:437-441 | Option 50 names the address when present, yourIP otherwise; only an IPv4 address counts |
| `LeaseAllocator.OtherReplies` | dhcp/server.go:525-552 | INFORM is acknowledged without an address, RELEASE and sweeps answer nobody |
| `LeaseAllocator.ReleaseFreesAddress` | dhcp/server.go:525-544 | A RELEASE ends the lease and makes its address available again |
| `LeaseAllocator.StepTouchesOneClient` | dhcp/server.go:358-544 | A client's lease changes only by its own message or its own expiry (also lines 833-859) |
| `LeaseAllocator.RunKeepsTimedInv` | dhcp/server.go:470-509 | With a clock that never goes back, no lease outlives it by more than the lease duration (also lines 749-781, 833-859) |
| `LeaseAllocator.StepKeepsLiveLease` | dhcp/server.go:358-544 | Before its expiry no step but the client's own RELEASE takes its address or shortens its lease (also lines 833-859) |
| `LeaseAllocator.LeaseIsExclusiveUntilExpiry` | dhcp/server.go:358-544 | Over whole runs, an address is offered or acknowledged to nobody else until its lease expires or is released (also lines 833-859) |
| `LeaseAllocator.StepCounts` | dhcp/server.go:525-535 | A step moves the lease counter away from the number of leases exactly when it replaces an expired lease in place (also lines 761-763, 850-852) |
| `LeaseAllocator.CounterCountsReplacements` | dhcp/server.go:706-805 | Over every run the counter exceeds the number of leases by exactly the replacements (also lines 525-535, 850-852) |
| `LeaseAllocator.Server.constructor` | dhcp/server.go:96-116 | An empty table with the cursor at the first address |
| `LeaseAllocator.Server.IncrementIP` | dhcp/server.go:807-817 | The byte loop adds one modulo 2^32 |
| `LeaseAllocator.Server.Advance` | dhcp/server.go:784-791 | Incrementing and wrapping at the pool or network end is the cyclic successor |
| `LeaseAllocator.Server.LegacyAllocateIP` | dhcp/server.go:706-805 | The attempt-counting loop with its full-circle exit takes the first free address and leaves the rest of the state as specified, also when it fails |
| `LeaseAllocator.Server.AllocateIP` | dhcp/server.go:611-628 | A live lease is reused, otherwise the scan runs; the invariant holds (also lines 698-701) |
| `LeaseAllocator.Server.HandleDiscover` | dhcp/server.go:358-431 | OFFER of the allocated address, or an error |
| `LeaseAllocator.Server.HandleRequest` | dhcp/server.go:433-523 | Ignores addresses outside the network, renews a matching lease, otherwise allocates |
| `LeaseAllocator.Server.HandleRelease` | dhcp/server.go:525-544 | Drops the lease and its index entry, if there is one |
| `LeaseAllocator.Server.DeleteExpired` | dhcp/server.go:833-848 | The sweep loop, in any order, deletes exactly the expired leases and their index entries, and counts them |
| `LeaseAllocator.Server.CleanupLeases` | dhcp/server.go:833-859 | The sweep as one step, with the counter |
| `VisitorLimiter.OperateEffect` | api/ratelimit.go:84-126 | An atomic operation does one of four things to a visitor: nothing, a winning reset by more than the window, the winner's store, one grant |
| `VisitorLimiter.OperateKeepsInv` | api/ratelimit.go:84-126 | Each atomic operation of each thread keeps the accounting of grants, stores and resets |
| `VisitorLimiter.StepKeepsInv` | api/ratelimit.go:84-126 | So does the clock, a new call, and the removal of a visitor at any moment (also lines 151-160) |
| `VisitorLimiter.RunKeepsInv` | api/ratelimit.go:84-126 | So does every run |
| `VisitorLimiter.GrantsAreBounded` | api/ratelimit.go:84-126 | For any threads and any interleaving, tokens stay in [0, rate] and a visitor's grants by time t are at most rate * (1 + (t - created) / (window + 1)) |
| `VisitorLimiter.RunEvolves` | api/ratelimit.go:100-126 | Between two moments of a run, grants are covered by tokens and stores, and resets by the advance of `lastReset` |
| `VisitorLimiter.GrantsInAnyStretch` | api/ratelimit.go:100-126 | From any reachable state on: at most rate for the tokens at hand, rate per winner still to store, and rate per window + 1 seconds of `lastReset` |
| `VisitorLimiter.ResetIsWonOnce` | api/ratelimit.go:105-111 | After a winning swap `lastReset` never again has a value from which another thread could win the same reset |
| `VisitorLimiter.CallAlone` | api/ratelimit.go:84-126 | A call nobody interferes with is the plain limiter: refill if the window has passed, then granted exactly when a token is left; nothing else changes |
| `VisitorLimiter.FirstCallAlone` | api/ratelimit.go:89-98 | An address not seen before gets a visitor with rate tokens, and the call takes the first |
| `VisitorAnswers.AnswerIsGrant` | api/ratelimit.go:114-125 | A thread returns true in exactly the step that raises the grants of its visitor by one, and no other visitor's |
| `VisitorAnswers.DeniedOnlyWhenEmpty` | api/ratelimit.go:116-120 | A call is denied only at a moment when its visitor has no token: losing a race never denies |
| `VisitorAnswers.TargetIsFiled` | api/ratelimit.go:85-98 | A thread works on the visitor filed for its address and stays with it until done |
| `VisitorAnswers.VisitorIsKept` | api/ratelimit.go:89-98 | The visitor of an address is replaced only after its removal |
| `VisitorAnswers.ForgottenIsGone` | api/ratelimit.go:151-160 | A removal takes the address out of the map and touches nothing else |
| `VisitorAnswers.CallMakesProgress` | api/ratelimit.go:84-126 | Every step of a call brings it nearer to its answer, unless it loses a race for a token to another call |
| `VisitorAnswers.AnswersAreGrants` | api/ratelimit.go:84-126 | Over any run and interleaving, the calls a visitor answers with true are its grants |
| `VisitorAnswers.AllAnswersAreGrants` | api/ratelimit.go:84-126 | All calls that return true are all grants together |
| `VisitorAnswers.AnswersAreBounded` | api/ratelimit.go:84-126 | For any threads and any interleaving, the calls a visitor answers with true by time t are at most rate * (1 + (t - created) / (window + 1)) |
| `VisitorAnswers.AnswersInAnyStretch` | api/ratelimit.go:100-126 | The bound on a stretch, for answers |
| `VisitorPromise.BurstIsGranted` | api/ratelimit.go:100-126 | As many calls in a row as there are tokens, after a refill if one is due, are all granted |
| `VisitorPromise.BoundIsAttained` | api/ratelimit.go:84-126 | The bound on the answers since creation is reached, for every configuration and every number of windows |
| `VisitorPromise.TwiceTheRateInOneSecond` | api/ratelimit.go:100-126 | For every configuration, undisturbed calls one second apart that are granted 2 * rate |
| `VisitorPromise.TwiceTheRateAtOnce` | api/ratelimit.go:107-111 | For every configuration, a late store of a won reset lets 2 * rate through while the clock stands still |
| `VisitorPromise.StretchIsPaidFor` | api/ratelimit.go:100-126 | From any reachable state a stretch grants at most the tokens at hand and rate per store in it |
| `VisitorPromise.StretchLimitIff` | api/ratelimit.go:100-126 | The most calls a stretch with d stores can answer with true is exactly (1 + d) * rate, so it is sure to keep to the rate if and only if d = 0 |
| `FakeIP.StepKeepsInv` | dns/hijacker.go:133-162 | For any limit, also after reuse: reverse lookup is never stale, addresses come from the pool, the limit holds, issued equals mapped plus removed (also lines 199-216, 304-324) |
| `FakeIP.ScanFindsFree` | dns/hijacker.go:113-131 | Pigeonhole: with fewer than 254 addresses in use the scan finds a free one |
| `FakeIP.InversesHaveOneSize` | dns/hijacker.go:203-216 | Inverse maps have the same number of entries |
| `FakeIP.StepKeepsInverse` | dns/hijacker.go:113-225 | With 1 to 254 mappings the maps stay exact inverses and the pool-exhausted branch is never taken (also lines 304-324) |
| `FakeIP.RunKeepsInv` | dns/hijacker.go:113-225 | Both invariants over every run (also lines 294-334) |
| `FakeIP.StepKeepsMapping` | dns/hijacker.go:187-216 | A step removes a mapping exactly when it evicts it as an oldest one at the limit or sweeps it after its timeout, and otherwise leaves it as it is (also lines 304-324) |
| `FakeIP.MappingIsStable` | dns/hijacker.go:187-216 | Over any run a mapped domain keeps its very mapping, or some event of the run evicted it as an oldest one at the limit or swept it after its timeout (also lines 304-324) |
| `FakeIP.MissStoresTime` | dns/hijacker.go:192-218 | A miss stores the time of the query, a hit stores nothing |
| `FakeIP.MappingLivesForTimeout` | dns/hijacker.go:203-216 | A domain first asked at time a keeps its address over every run whose sweeps come no later than a plus the timeout, unless evicted at the limit (also lines 304-324) |
| `FakeIP.AgeIsTimeOfIssue` | dns/hijacker.go:210-214 | In every run a mapping carries the time of the query that issued it |
| `FakeIP.EvictsEarliestIssue` | dns/hijacker.go:141-162 | In every run the domain evicted is the one whose issuing query is earliest in the history, up to queries at the same reading of the clock |
| `FakeIP.IssueIsRoundRobin` | dns/hijacker.go:113-139 | A miss gets the first address behind the last one handed out that nobody holds, and the counter moves on behind it |
| `FakeIP.FakeRangeIff` | dns/hijacker.go:395-406 | The range test accepts exactly the pool and the two addresses at its ends |
| `FakeIP.AnswerIsFake` | dns/hijacker.go:187-225 | The answer satisfies `IsFakeIP` and is the mapping now stored; a hit does not change it (also lines 395-406) |
| `FakeIP.InverseInEveryRunIff` | dns/hijacker.go:113-225 | The limit guarantees inverse maps in every run if and only if it lies between 1 and 254 |
| `FakeIP.OverflowRun` | dns/hijacker.go:133-138 | For any other limit, 255 queries for ordinary host names that leave a domain without a reverse entry (also lines 206-215) |
| `FakeIP.Hijacker.constructor` | dns/hijacker.go:84-109 | Two empty maps and the counter at zero |
| `FakeIP.Hijacker.AllocateFakeIP` | dns/hijacker.go:113-139 | The scan returns the first free address in cyclic order, or after a full circle the one it began with |
| `FakeIP.Hijacker.IssueFakeIP` | dns/hijacker.go:210-218 | Both maps get the new pair |
| `FakeIP.Hijacker.EvictOldestMapping` | dns/hijacker.go:143-162 | Whatever the map order, the mapping removed has the least creation time |
| `FakeIP.Hijacker.InterceptDNS` | dns/hijacker.go:187-225 | A hit returns the stored address, a miss makes room and issues one; the invariant holds |
| `FakeIP.Hijacker.CleanupExpired` | dns/hijacker.go:304-324 | Removes exactly the mappings older than the timeout |
| `FakeIP.Hijacker.DeleteMappings` | dns/hijacker.go:317-322 | Deleting one by one removes the collected set from both maps |
| `FakeIP.Hijacker.DeleteMapping` | dns/hijacker.go:157-160 | Removes one domain and its address |
| `FakeIP.Hijacker.GetDomainByFakeIP` | dns/hijacker.go:276-282 | A domain found is mapped to the address asked for |
| `FakeIP.Hijacker.GetFakeIPByDomain` | dns/hijacker.go:285-291 | Found exactly for mapped domains, and fake |
| `ConnTracker.StepKeepsInv` | core/conntrack.go:175-271 | Each step of creating or removing keeps the agreement of map, close-once states, threads and counter (also lines 287-376) |
| `ConnTracker.RunKeepsInv` | core/conntrack.go:175-271 | So does every interleaving (also lines 287-376) |
| `ConnTracker.TrackerIsConsistent` | core/conntrack.go:175-271 | In every run a map entry is the one registered, not yet deleted connection with its key, channels are closed at most once, and the active counter is the map size plus the removers between delete and decrement (also lines 287-376) |
| `ConnTracker.CreateFiles` | core/conntrack.go:190-208 | A create of a free key files a new open connection and counts it; of a taken key it changes neither map nor active counter and counts a drop |
| `ConnTracker.FiledIff` | core/conntrack.go:175-271 | After any run a connection is filed under a key if and only if a create of that key found it free and made it, and no remover has deleted it since (also lines 287-376) |
| `ConnTracker.OnlyOwnRemoverDeletes` | core/conntrack.go:239-266 | An entry disappears exactly when the remover of that very connection deletes it (also lines 343-369) |
| `ConnTracker.QuiescentTracker` | core/conntrack.go:205-208 | With no remover at work the counter is the map size and the map holds exactly what nobody closed (also lines 262-266) |
| `ConnTracker.RemoveReturns` | core/conntrack.go:233-271 | A remove returns with the connection closed and, unless it left at the closed check, deleted, with no countdown of it outstanding; the remover that deleted it has counted it down (also lines 342-376) |
| `ConnTracker.DeletedForGood` | core/conntrack.go:261-266 | Once deleted, a connection is never in the map again, whatever runs later (also lines 365-369, 392-400) |
| `ConnTracker.CloserFinishes` | core/conntrack.go:241-270 | From any moment on, the thread inside closeOnce finishes its connection in at most four steps of its own |
| `ConnTracker.WaiterReturns` | core/conntrack.go:241-270 | A thread waiting at closeOnce becomes the closer, returns at once, or returns after the closer's remaining steps: it is never stuck |
| `ConnTracker.RemoveAlone` | core/conntrack.go:233-271 | A remove nobody interferes with closes the channels once, deletes the entry and counts it down, and touches nothing else (also lines 342-376) |
| `ConnTracker.ClosedCheckReturns` | core/conntrack.go:234-237 | A TCP remove of a closed connection returns at once and never waits; UDP has no such check |
| `DhcpCodec.HeaderKeepsFields` | dhcp/dhcp.go:106-142 | Host and boot file names of any length leave the numbers, addresses and cookie intact |
| `DhcpCodec.WireLayout` | dhcp/dhcp.go:106-142 | Where each header field stands, by value, with the cookie 99, 130, 83, 99 and the end marker |
| `DhcpCodec.NamesInPlace` | dhcp/dhcp.go:128-136 | Names that fit stand at bytes 44 and 108, and zeros fill what is left |
| `DhcpCodec.LeadingOrder` | dhcp/dhcp.go:147-181 | The seven options written first come in the documented order |
| `DhcpCodec.MessageTypeComesFirst` | dhcp/dhcp.go:161-163 | The message type is the first option |
| `DhcpCodec.AddressOnWire` | dhcp/dhcp.go:119-123 | A sixteen-byte IPv4 address is sent as four bytes, anything else that is none as zeros |
| `DhcpCodec.OptionsRoundTrip` | dhcp/dhcp.go:151-158 | Options written in any order are read back into the same map (also lines 234-253) |
| `DhcpCodec.ParsingIsCarriable` | dhcp/dhcp.go:234-253 | Whatever the bytes, parsed options have codes 1 to 254 and values of at most 255 bytes |
| `DhcpCodec.RoundTripIff` | dhcp/dhcp.go:86-256 | Parsing a marshalled message returns it, for every order of the leftover options, if and only if its option codes are 1 to 254 and its values have at most 255 bytes |
| `DhcpCodec.ReceivedAsSent` | dhcp/dhcp.go:119-126 | Four-byte addresses and six-byte hardware addresses come back unchanged (also lines 226-230) |
| `DhcpCodec.LastByteRulesOutPanicIff` | dhcp/dhcp.go:234-253 | A last byte excludes reading behind the data, whatever precedes it, exactly when it is a pad or an end marker |
| `DhcpCodec.ParseForm` | dhcp/dhcp.go:234-253 | Complete items and whatever stops them: the parser returns the options of the items, and a lone code at the end makes it read behind the data |
| `DhcpCodec.EveryInputHasForm` | dhcp/dhcp.go:234-253 | Every input is of that form |
| `DhcpCodec.PanicsIff` | dhcp/dhcp.go:234-253 | For every input: the parser reads behind the data exactly when it is a list of pads and complete options followed by one lone byte that is neither a pad nor an end marker |
| `DhcpCodec.EncodedSize` | dhcp/dhcp.go:87-95 | Options written once each, in any order, take the sum of 2 + length (also lines 151-158) |
| `DhcpCodec.EstimatedSize` | dhcp/dhcp.go:87-95 | The estimate is 240 + that sum over all codes but 255, + 1 |
| `DhcpCodec.Encoder.constructor` | dhcp/dhcp.go:87-145 | A zeroed buffer of the estimated size with the header in it |
| `DhcpCodec.Encoder.AddOption` | dhcp/dhcp.go:151-158 | One more option behind the cursor; what is left still fits exactly |
| `DhcpCodec.PutOption` | dhcp/dhcp.go:151-158 | Code, length byte and value at the cursor, nothing before it changed |
| `DhcpCodec.FillFields` | dhcp/dhcp.go:106-126 | Bytes 0 to 33 |
| `DhcpCodec.FillHeader` | dhcp/dhcp.go:106-142 | The 240 header bytes, names and cookie included |
| `DhcpCodec.WriteLeading` | dhcp/dhcp.go:160-181 | The seven options written first, in their order, as far as present |
| `DhcpCodec.WriteRest` | dhcp/dhcp.go:183-200 | Every other option but 255 once, in the order of the map |
| `DhcpCodec.Finish` | dhcp/dhcp.go:202-209 | The end marker, and the result fills the buffer |
| `DhcpCodec.Marshal` | dhcp/dhcp.go:86-210 | The specified wire form for the order used, of exactly 240 + sum(2 + length) + 1 bytes, so the cursor never leaves the buffer |
| `DhcpCodec.ParseDHCPMessage` | dhcp/dhcp.go:213-256 | The walking loop computes the recursive parse of every input, errors and the read behind the end included |
| `Strings.JoinSplit` | dns/resolver.go:1136 | Joining the parts gives the text back |
| `Strings.SplitParts` | dns/resolver.go:1136 | No part holds the separator |
| `Strings.SplitJoin` | dns/server.go:367-373 | Splitting gives parts without the separator back |
| `DnsName.ReadBack` | dns/resolver.go:1136-1146 | Reading length-prefixed labels returns those in front of the first empty one and steps over no more than the name (also dns/server.go:334-360) |
| `DnsName.RoundTripIff` | dns/resolver.go:1109-1160 | The host name of a built query is the original, up to one trailing dot, if and only if it is the root or has no empty label (also dns/server.go:326-376) |
| `DnsName.QueryLayout` | dns/resolver.go:1117-1152 | Identifier, flags 0x0100, counts 1, 0, 0, 0, encoded name, root label, type and class of every built query, by position and value, and its length |
| `DnsName.TrailingDot` | dns/resolver.go:1110-1111 | One trailing dot, and only one, makes no difference |
| `DnsName.HostnameOf` | dns/server.go:331-376 | Labels stopped by the root, a pointer, a cut-off label or the end: joined with dots if four bytes are left behind the stop, refused otherwise |
| `DnsName.EveryQueryHasForm` | dns/server.go:334-360 | Whatever follows the header is of that form |
| `DnsName.BuildFailsIff` | dns/resolver.go:1137-1142 | Building fails exactly when some label is longer than 63 bytes |
| `DnsName.BuildDNSQuery` | dns/resolver.go:1109-1160 | Header, labels, root, type and class, or the error |
| `DnsName.WriteLabels` | dns/resolver.go:1136-1145 | The loop writes the length-prefixed labels or stops at one that is too long |
| `DnsName.ParseDNSQueryHostname` | dns/server.go:326-376 | The offset loop computes the recursive reader on every input, truncated and compressed ones included |
| `DnsName.JoinLabels` | dns/server.go:367-373 | The concatenating loop joins with dots |
| `DnsRateLimiter.RefillShape` | dns/rate_limiter.go:39-49 | A refill adds one token per whole period, up to the maximum, and keeps a remainder of less than a period |
| `DnsRateLimiter.RefillComposes` | dns/rate_limiter.go:39-49 | Refilling at t1 and then at t2 is refilling once at t2: no fraction of a token is lost |
| `DnsRateLimiter.GrantsArePaidFor` | dns/rate_limiter.go:35-58 | Over any calls, grants are covered by tokens at hand and whole periods |
| `DnsRateLimiter.GrantsSinceCreation` | dns/rate_limiter.go:25-58 | From creation: at most the burst plus one per period |
| `DnsRateLimiter.GrantsInWindow` | dns/rate_limiter.go:35-58 | In any window after a call at time a: at most maxTokens + (b - a) / refillRate + 1 |
| `DnsRateLimiter.AllowedIff` | dns/rate_limiter.go:35-58 | A request passes exactly when a token is at hand or has accrued |
| `DnsRateLimiter.GrantCostsOne` | dns/rate_limiter.go:51-57 | A grant takes one token, a refusal none |
| `DnsRateLimiter.BurstIsExact` | dns/rate_limiter.go:35-58 | n calls at one moment are granted exactly min(n, tokens after the refill) |
| `DnsRateLimiter.OtherRates` | dns/rate_limiter.go:42-49 | A rate of zero panics and no other does; a negative rate leaves it at the tokens at hand |
| `DnsRateLimiter.RateLimiter.constructor` | dns/rate_limiter.go:25-32 | A full bucket |
| `DnsRateLimiter.RateLimiter.Allow` | dns/rate_limiter.go:35-58 | One call is a refill and a take, and keeps tokens within the maximum; a rate of zero panics, a negative one never refills |
| `BandwidthBucket.TakeIsPaidFor` | bandwidth/limiter.go:56-98 | What one call grants and leaves was there or came with the elapsed time, wrap-around included |
| `BandwidthBucket.GrantsArePaidFor` | bandwidth/limiter.go:56-103 | Over every run tokens never exceed the maximum, and 1000 times the bytes granted is covered by the first tokens and the elapsed time |
| `BandwidthBucket.GrantsSinceCreation` | bandwidth/limiter.go:48-103 | From creation: 1000 * granted <= maxTokens + refillRate * (T - t0) / 10^9 |
| `BandwidthBucket.RefillIsExactIff` | bandwidth/limiter.go:71-74 | The 64-bit product refills the whole worth of the time exactly when it does not wrap |
| `BandwidthBucket.TakeWithoutWrap` | bandwidth/limiter.go:64-96 | Without wrap-around a call gets what it asks for, limited by the burst and what has accrued, and the rest stays |
| `BandwidthBucket.NegativeAmountDrains` | bandwidth/limiter.go:57 | A negative amount wraps to a huge one and drains the bucket |
| `BandwidthBucket.WorthSplitsIff` | bandwidth/limiter.go:71-74 | Two stretches refill as much as one exactly when their remainders stay below one thousandth |
| `BandwidthBucket.RefillsOverRun` | bandwidth/limiter.go:64-94 | A run refills the worth of its whole time less the whole thousandths it drops, so all of it if and only if the dropped parts stay below one thousandth, wrap-around included |
| `BandwidthBucket.NothingIsLostIff` | bandwidth/limiter.go:64-94 | No run without wrap-around loses anything if and only if the rate is a whole number of thousandths per nanosecond |
| `BandwidthBucket.TwoCallsLoseAThousandth` | bandwidth/limiter.go:64-94 | A losing run: two calls leave 2 where one call leaves 3 |
| `BandwidthBucket.GrantsNeedRefills` | bandwidth/limiter.go:56-103 | What a run grants and leaves is covered by its refills |
| `BandwidthBucket.RapidCallsStarve` | bandwidth/limiter.go:71-94 | Calls closer together than a thousandth of a token refill nothing, for however long they go on |
| `BandwidthBucket.TokenBucket.constructor` | bandwidth/limiter.go:48-51 | A full bucket |
| `BandwidthBucket.TokenBucket.Take` | bandwidth/limiter.go:56-103 | One call, in unsigned 64-bit arithmetic |
| `Addresses.NextOfWraps` | netutil/ip.go:223-235 | The carry rule is +1 modulo 256^n |
| `Addresses.PrevOfWraps` | netutil/ip.go:238-251 | The borrow rule is -1 modulo 256^n |
| `Addresses.PrevUndoesNext` | netutil/ip.go:223-251 | The two undo each other for every length |
| `Addresses.NextIP` | netutil/ip.go:223-235 | The loop computes the successor modulo 256^n |
| `Addresses.PrevIP` | netutil/ip.go:238-251 | The loop computes the predecessor modulo 256^n |
| `Addresses.Uint32RoundTrip` | netutil/ip.go:198-211 | The two conversions are inverse |
| `Addresses.BothForms` | netutil/ip.go:198-204 | The four-byte and the mapped sixteen-byte form stand for one address; anything else converts to 0 |
| `Addresses.MaskedValue` | netutil/ip.go:299-312 | Bytewise masking clears the host bits of the number, wherever they end |
| `Addresses.BlockIsInterval` | netutil/ip.go:299-312 | An address is in the block exactly when it is one of the 2^hostBits numbers from the network address on |
| `Addresses.LastInBlock` | netutil/ip.go:310-313 | The bytewise end address is the last of them |
| `Addresses.ParseCIDRRange` | netutil/ip.go:298-316 | Start and end of the block, both inside it |
| `Addresses.GenerateIPsInCIDR` | netutil/ip.go:319-343 | The loop ends after 2^hostBits addresses, ascending by one from the network, all in the block |
| `Addresses.GeneratedIffInBlock` | netutil/ip.go:319-343 | An address is sent if and only if it is in the block |
| `Addresses.CountIsExactIff` | netutil/ip.go:271-275 | The 64-bit count is the size of the block exactly when there are fewer than 64 host bits |
| `IcmpChecksum.FoldStep` | mtu/discovery.go:496-498 | Adding the carry back keeps the ones' complement residue |
| `IcmpChecksum.FoldSum` | mtu/discovery.go:496-500 | The folding loop ends in that residue's complement |
| `IcmpChecksum.SumWords` | mtu/discovery.go:485-494 | The loop adds all words, an odd last byte included, modulo 2^32 |
| `IcmpChecksum.CalculateChecksum` | mtu/discovery.go:484-501 | The complement of the folded 32-bit sum of all words, an odd last byte included |
| `IcmpChecksum.SelfVerifying` | mtu/discovery.go:430-454 | Recomputing the checksum over the finished message gives 0, for every length, also when the sum overflows (also lines 484-501) |
| `IcmpChecksum.ConformsIff` | mtu/discovery.go:484-501 | The message is valid by RFC 1071 if and only if the lost carries are a multiple of 65535 |
| `IcmpChecksum.ShortMessagesConform` | mtu/discovery.go:430-454 | Messages of up to 131076 bytes are valid by RFC 1071 |
| `IcmpChecksum.LongEchoFails` | mtu/discovery.go:430-454 | For every longer body length an echo request that is not |
| `IcmpChecksum.EchoConformsIff` | mtu/discovery.go:430-501 | All echo requests with a body of n bytes are valid by RFC 1071 if and only if n <= 131068 |
| `IcmpChecksum.BuildICMPEchoRequest` | mtu/discovery.go:430-481 | Type, code, identifier, number and body in place, and the message verifies |
| `MtuDiscovery.EvictionIsJustified` | mtu/discovery.go:127-181 | No expired entry remains, an unexpired one is dropped only when too many remain, the limit holds |
| `MtuDiscovery.DroppedIsLeastUsed` | mtu/discovery.go:166-179 | A dropped, unexpired entry was used no more often than any survivor and, if as often, no more recently |
| `MtuDiscovery.SortKeys` | mtu/discovery.go:157-172 | Lists every key once, ordered by (accessCount, lastAccess) |
| `MtuDiscovery.TailRanksHigher` | mtu/discovery.go:166-179 | Cutting such a list keeps nothing that ranks before something dropped |
| `MtuDiscovery.MTUDiscoverer.EvictStaleEntries` | mtu/discovery.go:127-181 | Expired entries go; above the maximum exactly maxCacheSize * 3 / 4 survive, and no survivor ranks before a dropped entry |
| `MtuDiscovery.MTUDiscoverer.EvictLeastUsed` | mtu/discovery.go:149-180 | The second pass alone |
| `MtuDiscovery.MTUDiscoverer.DeleteFirst` | mtu/discovery.go:174-179 | Removes exactly the first entries of the list |
| `MtuDiscovery.DiscoverPathMTU` | mtu/discovery.go:292-310 | For any probe: the result works and the next size does not, or nothing at the minimum works |
| `MtuDiscovery.SearchIsExact` | mtu/discovery.go:292-310 | When the probe is a threshold, that result is the path MTU clamped to the range |
| `LruCache.SetKeepsOk` | cache/lru.go:78-100 | A Set keeps the slice a duplicate-free listing of the map's keys in order of last Set, whatever capacity an append gives (also lines 246-271) |
| `LruCache.StepKeepsOk` | cache/lru.go:70-160 | Every operation keeps every shard in step with the history of operations (also lines 192-214) |
| `LruCache.RunKeepsOk` | cache/lru.go:70-160 | So does every run from an empty cache (also lines 192-214) |
| `LruCache.HitIsLastSet` | cache/lru.go:70-160 | A hit is the value of the last Set of that key, not deleted or cleared since and not expired (also lines 192-214) |
| `LruCache.SetIsFound` | cache/lru.go:70-136 | What was just set is found until it expires |
| `LruCache.FoundIff` | cache/lru.go:105-136 | After any run a lookup finds exactly the held, unexpired keys, with the value of their last Set |
| `LruCache.HeldUntilLost` | cache/lru.go:70-160 | A key that was set is held until a later operation of the run loses it |
| `LruCache.CleanupIsExact` | cache/lru.go:192-209 | A clean-up leaves nothing that has expired, and everything that has not |
| `LruCache.GetRemovesExpired` | cache/lru.go:118-132 | A lookup removes an entry that has expired, and changes nothing otherwise |
| `LruCache.EvictsLeastRecentlySet` | cache/lru.go:90-100 | A Set drops a key only when the shard is full, and then the least recently set one (also lines 261-271) |
| `LruCache.LossIsExplained` | cache/lru.go:70-160 | A key disappears only by its Delete, a Clear, its expiry, or eviction as the least recently set key of a full shard (also lines 192-214, 261-271) |
| `LruLimits.CapacityIsKept` | cache/lru.go:90-101 | A positive capacity that the runtime grows back to is kept by every run (also lines 261-271) |
| `LruLimits.EntriesFit` | cache/lru.go:90-101 | In every run a shard holds at most as many entries as its slice has capacity by then |
| `LruLimits.SetsReachLevel` | cache/lru.go:90-101 | Entries and capacity of a shard after any number of new keys (also lines 261-271) |
| `LruLimits.LimitIsExceeded` | cache/lru.go:90-101 | The run of new keys, from an empty cache, that puts one entry too many into a shard (also lines 261-271) |
| `LruLimits.LimitIsKeptIff` | cache/lru.go:90-101 | A shard created with a capacity stays within it in every run if and only if it is positive and the runtime grows a full slice of one less back to it (also lines 261-271) |
| `LruLimits.LevelsGrow` | cache/lru.go:90-101 | Where every eviction is followed by real growth, one shard grows beyond any number |
| `LruLimits.MaxSizeIsKeptIff` | cache/lru.go:42-101 | With the code's hash and shard counts and Go's growth of string slices, a cache never holds more than maxSize entries if and only if 16 <= maxSize < 48 (also lines 238-286) |
| `CacheHash.HashIsPolynomial` | cache/lru.go:280-286 | The hash is the polynomial of the bytes at 31, modulo 2^64 |
| `LruCache.ShardsByHand` | cache/lru.go:43-58 | Number and capacity of shards on both sides of 10000 and 100000 entries |
| `LruCache.LRUCache.constructor` | cache/lru.go:42-67 | 16, 32 or 64 empty shards, each with capacity maxSize divided by their number |
| `LruCache.LRUCache.Set` | cache/lru.go:70-101 | One Set, in step with the history |
| `LruCache.LRUCache.Get` | cache/lru.go:105-136 | One lookup, which removes an expired entry |
| `LruCache.LRUCache.Delete` | cache/lru.go:139-150 | One removal, and whether the key was there |
| `LruCache.LRUCache.Clear` | cache/lru.go:153-160 | Empties every shard |
| `LruCache.LRUCache.Cleanup` | cache/lru.go:192-214 | Removes exactly the expired entries of every shard |
| `LruCache.RemoveLRU` | cache/lru.go:252-259 | The linear scan cuts out the key |
| `LruCache.SetInShard` | cache/lru.go:78-100 | Update and move to the end, or make room and append |
| `LruCache.CleanupShard` | cache/lru.go:200-206 | The loop over a map being deleted from removes the expired keys from map and slice |
| `CircuitBreaker.StepKeepsInv` | circuitbreaker/breaker.go:99-215 | Every begin, finish, poll and reset keeps the thresholds and the balance of requests (also lines 232-246) |
| `CircuitBreaker.RunKeepsInv` | circuitbreaker/breaker.go:99-215 | In every run of overlapping requests failures and successes stay below their thresholds where they count, and requests add up (also lines 232-246) |
| `CircuitBreaker.RequestsAddUp` | circuitbreaker/breaker.go:99-124 | Between resets, total = successful + failed + rejected + in flight |
| `CircuitBreaker.RejectedIff` | circuitbreaker/breaker.go:127-146 | A request is rejected exactly while the breaker is open and the timeout has not passed (also lines 205-215) |
| `CircuitBreaker.OpenHoldsForTimeout` | circuitbreaker/breaker.go:127-215 | Short of a reset, open is left only after more than the timeout |
| `CircuitBreaker.OpenRejectsAll` | circuitbreaker/breaker.go:99-215 | Over any run within the timeout an open breaker rejects every request, whatever finishes meanwhile |
| `CircuitBreaker.TimeoutHalfOpens` | circuitbreaker/breaker.go:204-215 | After the timeout the next poll or request finds the breaker half-open from that moment on |
| `CircuitBreaker.ResetCloses` | circuitbreaker/breaker.go:232-246 | A reset closes the breaker and clears its counters, and leaves requests in flight |
| `CircuitBreaker.HalfOpenCountsStreak` | circuitbreaker/breaker.go:149-202 | While half-open, the success counter is the streak of successes since the breaker became half-open |
| `CircuitBreaker.ClosesIff` | circuitbreaker/breaker.go:149-202 | Short of a reset, the breaker closes exactly on the success that completes SuccessThreshold recorded half-open |
| `CircuitBreaker.OutcomesAreCounted` | circuitbreaker/breaker.go:99-124 | Between resets the statistics count the requests begun, succeeded and failed |
| `CircuitBreaker.ClosedCountsStreak` | circuitbreaker/breaker.go:149-202 | While closed, the failure counter is the streak of failures since the last success, reset or closing |
| `CircuitBreaker.OpensIff` | circuitbreaker/breaker.go:149-202 | A closed breaker opens exactly on the failure that completes a streak of FailureThreshold |
| `CircuitBreaker.HalfOpenDecides` | circuitbreaker/breaker.go:149-202 | Half-open goes back to open on any failure and closes on the success that reaches the threshold |
| `CircuitBreaker.Breaker.constructor` | circuitbreaker/breaker.go:82-96 | Closed, all counters zero |
| `CircuitBreaker.Breaker.ChangeTo` | circuitbreaker/breaker.go:178-202 | A state change with its counter resets |
| `CircuitBreaker.Breaker.GetState` | circuitbreaker/breaker.go:205-215 | Open turns half-open by itself after the timeout |
| `CircuitBreaker.Breaker.AllowRequest` | circuitbreaker/breaker.go:127-146 | Two clock readings are two observations; only open refuses |
| `CircuitBreaker.Breaker.BeginRequest` | circuitbreaker/breaker.go:99-109 | The part of Execute before the call |
| `CircuitBreaker.Breaker.NoteSuccess` | circuitbreaker/breaker.go:149-161 | A recorded success |
| `CircuitBreaker.Breaker.NoteFailure` | circuitbreaker/breaker.go:164-175 | A recorded failure |
| `CircuitBreaker.Breaker.FinishRequest` | circuitbreaker/breaker.go:114-123 | The part of Execute after the call |
| `CircuitBreaker.Breaker.ResetBreaker` | circuitbreaker/breaker.go:232-246 | Closed with all counters zero; requests in flight remain |
| `PortSpec.ParseMatcherPart` | cfg/port_range.go:35-67 | One part: a single port or a range, spaces trimmed, or an error |
| `PortSpec.NewPortMatcher` | cfg/port_range.go:27-71 | Succeeds exactly on well-formed specifications and then covers exactly the selected ports |
| `PortSpec.Matches` | cfg/port_range.go:74-86 | The scan decides whether a range covers the port |
| `PortSpec.TrimKeepsDash` | cfg/config.go:595-596 | Looking for the dash before or after trimming makes no difference |
| `PortSpec.SinglePort` | cfg/port_range.go:59-66 | A number alone selects just that port, and none above 65535 is taken |
| `PortSpec.BlanksAroundPart` | cfg/port_range.go:35 | White space around a part changes nothing |
| `PortSpec.BlanksAroundBounds` | cfg/port_range.go:44-52 | White space around the bounds of a range changes nothing |
| `PortSpec.BlankCharacters` | cfg/port_range.go:35 | Which ASCII characters are trimmed |
| `PortSpec.OneDashAtMost` | cfg/port_range.go:39-42 | A part with more than one dash is refused |
| `PortSpec.EmptySpecification` | cfg/port_range.go:28-30 | The empty specification is accepted and selects nothing; an empty part is refused |
| `PortSpec.ParseSetPart` | cfg/config.go:595-627 | One part of parsePorts: the same parts succeed, with exactly the ports of the range |
| `PortSpec.ParsePorts` | cfg/config.go:587-631 | The set parser succeeds on the same specifications and holds exactly the selected ports |
| `PortSpec.ValidatePart` | cfg/port_range.go:101-137 | A part passes exactly when the matcher takes it and it does not start at port 0 |
| `PortSpec.ParsePortRange` | cfg/port_range.go:95-141 | Accepts exactly what the matcher accepts without matching port 0 |
| `PortSpec.RenderRangeRoundTrip` | cfg/port_range.go:35-67 | The text of a range is parsed to that range |
| `PortSpec.RenderRoundTrip` | cfg/port_range.go:27-71 | Every list of ranges can be written as a specification that selects exactly its ports |

## Left out

- Smart DHCP, restored leases, lease persistence, DHCP rate limiting and DHCPv6: other ways to write the lease table, without its index.
- Concurrency inside a DHCP handler, a hijacker call or a token-bucket call: each is one step; so the compare-and-swap of `Take` succeeds at once.
- The DHCP pool is assumed to start inside the network, with the first address not above the last, and neither pool nor network spans all 2^32 addresses; a pool that ends outside the network is cut there.
- Contents of DHCP replies other than the address, and of DNS answers other than the address: no property spans them.
- Reading the question out of a DNS message and packing the answer; a name taken from a parsed question ends in a dot, so it is never empty, which the eviction loop relies on.
- Hijacker statistics other than hits, issued and expired.
- Which API visitors are stale enough to be removed: the model removes any at any moment, so the bound is per visitor object, not per address over several of them.
- `VisitorLimiter.GrantsAreBounded`: counts seconds as the code reads them; a clock that is set back is not modelled.
- Relay goroutines, draining, contexts and `CloseAll`'s own loop in the connection tracker: `CloseAll` issues the remove calls that are modelled (core/conntrack.go:379-405).
- Wrap-around of the 32-bit and 64-bit counters of the connection tracker, the breaker and the lease server, and of `time.Duration` in the DNS limiter.
- Parsing of CIDR text, the comparison of IPv6 ranges as strings, and reserved-range predicates in netutil.
- Sockets: the MTU probe is a function of the size that gives the same answer whenever asked; DF flags, timeouts and the UDP fallback are not part of this model.
- The pseudo-header that ICMPv6 needs: `BuildICMPEchoRequest` covers the bytes the code builds for both versions.
- Lookup and refresh of MTU cache entries (mtu/discovery.go:184-222), an easy map update.
- Cache keys of types other than strings; the read lock and re-check inside `Get`, and hit and miss statistics. Only `MaxSizeIsKeptIff` and the constructor use the code's hash, the other results hold for any.
- `DhcpCodec.WriteLeading`: the seven conditional writes of the code are one loop over the list of their codes.
- `MtuDiscovery.SortKeys`: does not model the sorting algorithm of the Go library, only its result.
- Conversion of rates from floating point in `NewTokenBucket`, and `Wait` loops: the resulting integers are parameters.
- Pooled buffers are new arrays, and shards of the cache are values in a sequence, so aliasing between slices is not captured.
- Web interface, WebSocket hub, tray, hotkeys, notifications, metrics, WinDivert, NAT, dialers, gVisor set-up and the resolver's querying: interface and operating-system plumbing.
