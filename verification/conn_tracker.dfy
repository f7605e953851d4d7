/**
 The connection tracker (core/conntrack.go) as a state machine. Creating a connection is one locked section;
 removing one is the steps that other goroutines can see: the closed check, entering closeOnce, setting the
 flag, closing the channels, deleting the map entry, decrementing the counter. Any number of threads may remove
 any connections, the same one included, in any interleaving. TCP and UDP have a map and a counter each and run
 the same protocol; only TCP looks at the closed flag first.
 */
module ConnTracker {

  /** The address tuple a connection is filed under. */
  type Key = seq<int>

  datatype Once = NotStarted | Running(closer: nat) | Finished

  /** channelCloses counts how often close was called on the channels: twice would panic. */
  datatype Conn = Conn(key: Key, registered: bool, closed: bool, once: Once, channelCloses: nat, deleted: bool)

  datatype Pc =
    | Idle
    | Check(id: nat)           // tc.closed.Load
    | Enter(id: nat)           // tc.closeOnce.Do
    | MarkClosed(id: nat)      // tc.closed.Store(true), inside closeOnce
    | CloseChannels(id: nat)   // drain and close, inside closeOnce
    | Delete(id: nat)          // delete(ct.tcpConns, k), under the lock
    | Decrement(id: nat)       // ct.activeTCP.Add(-1), after which closeOnce is done

  datatype State = State(
    conns: seq<Conn>, table: map<Key, nat>, active: int, total: nat, dropped: nat, threads: map<nat, Pc>)

  datatype Action =
    | Create(key: Key)
    | RemoveTCP(t: nat, id: nat)
    | RemoveUDP(t: nat, id: nat)
    | Advance(t: nat)

  function Goto(s: State, t: nat, pc: Pc): State {
    s.(threads := s.threads[t := pc])
  }

  function Add(s: State, key: Key): State {
    if key in s.table then
      // The losing connection was never shared: its creator closes it and drops it.
      s.(conns := s.conns + [Conn(key, false, true, Finished, 1, false)], dropped := s.dropped + 1)
    else
      s.(conns := s.conns + [Conn(key, true, false, NotStarted, 0, false)],
         table := s.table[key := |s.conns|], active := s.active + 1, total := s.total + 1)
  }

  /** Callers only hold connections that a create has returned. */
  predicate CanRemove(s: State, t: nat, id: nat) {
    id < |s.conns| && s.conns[id].registered && (t in s.threads ==> s.threads[t].Idle?)
  }

  function Operate(s: State, t: nat): State
    requires t in s.threads
  {
    var pc := s.threads[t];
    if pc.Idle? || pc.id >= |s.conns| then s
    else
      var c := s.conns[pc.id];
      match pc
      case Check(id) => Goto(s, t, if c.closed then Idle else Enter(id))
      case Enter(id) =>
        if c.once.NotStarted? then
          Goto(s.(conns := s.conns[id := c.(once := Running(t))]), t, MarkClosed(id))
        else if c.once.Running? then s
        else Goto(s, t, Idle)
      case MarkClosed(id) => Goto(s.(conns := s.conns[id := c.(closed := true)]), t, CloseChannels(id))
      case CloseChannels(id) =>
        Goto(s.(conns := s.conns[id := c.(channelCloses := c.channelCloses + 1)]), t, Delete(id))
      case Delete(id) =>
        Goto(s.(conns := s.conns[id := c.(deleted := true)], table := s.table - {c.key}), t, Decrement(id))
      case Decrement(id) =>
        Goto(s.(conns := s.conns[id := c.(once := Finished)], active := s.active - 1), t, Idle)
  }

  function Step(s: State, a: Action): State {
    match a
    case Create(key) => Add(s, key)
    case RemoveTCP(t, id) => if CanRemove(s, t, id) then Goto(s, t, Check(id)) else s
    case RemoveUDP(t, id) => if CanRemove(s, t, id) then Goto(s, t, Enter(id)) else s
    case Advance(t) => if t in s.threads then Operate(s, t) else s
  }

  function Run(s: State, actions: seq<Action>): State
    decreases |actions|
  {
    if actions == [] then s else Run(Step(s, actions[0]), actions[1..])
  }

  const Initial := State([], map[], 0, 0, 0, map[])

  // ---- Invariant ----

  /** Threads between the delete and the decrement. */
  ghost function Decrementing(threads: map<nat, Pc>): set<nat> {
    set t | t in threads && threads[t].Decrement?
  }

  predicate Inside(pc: Pc) {
    pc.MarkClosed? || pc.CloseChannels? || pc.Delete? || pc.Decrement?
  }

  ghost predicate ConnOk(s: State, id: nat)
    requires id < |s.conns|
  {
    var c := s.conns[id];
    && c.channelCloses <= 1
    && (c.once.NotStarted? ==> !c.closed) && (c.once.Finished? ==> c.closed)
    && (c.registered ==>
          match c.once
          case NotStarted => c.channelCloses == 0 && !c.deleted
          case Running(t) => t in s.threads && Inside(s.threads[t]) && s.threads[t].id == id
          case Finished => c.channelCloses == 1 && c.deleted)
    && (!c.registered ==> c.once.Finished?)
    && (c.registered && !c.deleted ==> c.key in s.table && s.table[c.key] == id)
  }

  ghost predicate ThreadOk(s: State, t: nat)
    requires t in s.threads
  {
    var pc := s.threads[t];
    pc.Idle? ||
    (&& pc.id < |s.conns| && s.conns[pc.id].registered
     && (Inside(pc) ==>
           var c := s.conns[pc.id];
           && c.once == Running(t)
           && c.closed == !pc.MarkClosed?
           && c.channelCloses == (if pc.MarkClosed? || pc.CloseChannels? then 0 else 1)
           && c.deleted == pc.Decrement?))
  }

  ghost predicate EntryOk(s: State, key: Key)
    requires key in s.table
  {
    var id := s.table[key];
    id < |s.conns| && s.conns[id].key == key && s.conns[id].registered && !s.conns[id].deleted
  }

  ghost predicate Inv(s: State) {
    && (forall id: nat {:trigger ConnOk(s, id)} :: id < |s.conns| ==> ConnOk(s, id))
    && (forall t {:trigger ThreadOk(s, t)} :: t in s.threads ==> ThreadOk(s, t))
    && (forall key {:trigger EntryOk(s, key)} :: key in s.table ==> EntryOk(s, key))
    && s.active == |s.table| + |Decrementing(s.threads)|
    && |s.conns| == s.total + s.dropped
  }

  lemma {:induction false} DecrementingAfter(threads: map<nat, Pc>, t: nat, pc: Pc)
    ensures Decrementing(threads[t := pc])
            == if pc.Decrement? then Decrementing(threads) + {t} else Decrementing(threads) - {t}
  {
  }

  lemma {:induction false} OperateCounts(s: State, t: nat)
    requires Inv(s) && t in s.threads
    ensures var s' := Operate(s, t);
            s'.active == |s'.table| + |Decrementing(s'.threads)|
  {
    var s' := Operate(s, t);
    assert ThreadOk(s, t);
    DecrementingAfter(s.threads, t, s'.threads[t]);
    assert s'.threads == s.threads[t := s'.threads[t]];
    assert t in Decrementing(s.threads) <==> s.threads[t].Decrement?;
    if s.threads[t].Delete? {
      var c := s.conns[s.threads[t].id];
      assert ConnOk(s, s.threads[t].id);
      assert s'.table.Keys == s.table.Keys - {c.key};
    } else if !s.threads[t].Decrement? {
      assert Decrementing(s'.threads) == Decrementing(s.threads);
    }
  }

  lemma {:induction false} OperateKeepsConn(s: State, t: nat, id: nat)
    requires Inv(s) && t in s.threads && id < |s.conns|
    ensures ConnOk(Operate(s, t), id)
  {
    assert ThreadOk(s, t) && ConnOk(s, id);
    if !s.threads[t].Idle? {
      assert ConnOk(s, s.threads[t].id);
    }
  }

  lemma {:induction false} OperateKeepsThread(s: State, t: nat, other: nat)
    requires Inv(s) && t in s.threads && other in s.threads
    ensures ThreadOk(Operate(s, t), other)
  {
    assert ThreadOk(s, t) && ThreadOk(s, other);
    if s.threads[t].Enter? {
      assert ConnOk(s, s.threads[t].id);
    }
  }

  lemma {:induction false} OperateKeepsEntries(s: State, t: nat, key: Key)
    requires Inv(s) && t in s.threads && key in Operate(s, t).table
    ensures EntryOk(Operate(s, t), key)
  {
    assert ThreadOk(s, t) && EntryOk(s, key);
    assert ConnOk(s, s.table[key]);
  }

  lemma {:induction false} OperateKeepsInv(s: State, t: nat)
    requires Inv(s) && t in s.threads
    ensures Inv(Operate(s, t))
  {
    var s' := Operate(s, t);
    OperateCounts(s, t);
    assert forall id: nat {:trigger ConnOk(s', id)} :: id < |s'.conns| ==> ConnOk(s', id) by {
      forall id: nat | id < |s'.conns| ensures ConnOk(s', id) { OperateKeepsConn(s, t, id); }
    }
    assert forall other {:trigger ThreadOk(s', other)} :: other in s'.threads ==> ThreadOk(s', other) by {
      forall other | other in s'.threads ensures ThreadOk(s', other) { OperateKeepsThread(s, t, other); }
    }
    assert forall key {:trigger EntryOk(s', key)} :: key in s'.table ==> EntryOk(s', key) by {
      forall key | key in s'.table ensures EntryOk(s', key) { OperateKeepsEntries(s, t, key); }
    }
  }

  lemma {:induction false} StepKeepsInv(s: State, a: Action)
    requires Inv(s)
    ensures Inv(Step(s, a))
  {
    match a
    case Advance(t) => if t in s.threads { OperateKeepsInv(s, t); }
    case Create(key) => CreateKeepsInv(s, key);
    case RemoveTCP(t, id) => StartKeepsInv(s, t, id, Check(id));
    case RemoveUDP(t, id) => StartKeepsInv(s, t, id, Enter(id));
  }

  lemma {:induction false} StartKeepsConn(s: State, t: nat, pc: Pc, id: nat)
    requires Inv(s) && (t in s.threads ==> s.threads[t].Idle?) && id < |s.conns|
    ensures ConnOk(Goto(s, t, pc), id)
  {
    assert ConnOk(s, id);
  }

  lemma {:induction false} StartKeepsThread(s: State, t: nat, pc: Pc, other: nat)
    requires Inv(s) && (pc.Check? || pc.Enter?) && CanRemove(s, t, pc.id)
    requires other in Goto(s, t, pc).threads
    ensures ThreadOk(Goto(s, t, pc), other)
  {
    if other != t {
      assert ThreadOk(s, other);
    }
  }

  lemma {:induction false} StartKeepsInv(s: State, t: nat, id: nat, pc: Pc)
    requires Inv(s) && (pc == Check(id) || pc == Enter(id))
    ensures CanRemove(s, t, id) ==> Inv(Goto(s, t, pc))
  {
    if CanRemove(s, t, id) {
      var s' := Goto(s, t, pc);
      assert Decrementing(s'.threads) == Decrementing(s.threads);
      assert forall i: nat {:trigger ConnOk(s', i)} :: i < |s'.conns| ==> ConnOk(s', i) by {
        forall i: nat | i < |s'.conns| ensures ConnOk(s', i) { StartKeepsConn(s, t, pc, i); }
      }
      assert forall other {:trigger ThreadOk(s', other)} :: other in s'.threads ==> ThreadOk(s', other) by {
        forall other | other in s'.threads ensures ThreadOk(s', other) { StartKeepsThread(s, t, pc, other); }
      }
      assert forall key {:trigger EntryOk(s', key)} :: key in s'.table ==> EntryOk(s', key) by {
        forall key | key in s'.table ensures EntryOk(s', key) { assert EntryOk(s, key); }
      }
    }
  }

  lemma {:induction false} CreateKeepsConn(s: State, key: Key, id: nat)
    requires Inv(s) && id < |Add(s, key).conns|
    ensures ConnOk(Add(s, key), id)
  {
    if id < |s.conns| {
      assert ConnOk(s, id);
    }
  }

  lemma {:induction false} CreateKeepsEntry(s: State, key: Key, k: Key)
    requires Inv(s) && k in Add(s, key).table
    ensures EntryOk(Add(s, key), k)
  {
    if k in s.table {
      assert EntryOk(s, k);
    }
  }

  lemma {:induction false} CreateKeepsThread(s: State, key: Key, t: nat)
    requires Inv(s) && t in s.threads
    ensures ThreadOk(Add(s, key), t)
  {
    assert ThreadOk(s, t);
  }

  lemma {:induction false} CreateCounts(s: State, key: Key)
    requires s.active == |s.table| + |Decrementing(s.threads)| && |s.conns| == s.total + s.dropped
    ensures var s' := Add(s, key);
            s'.active == |s'.table| + |Decrementing(s'.threads)| && |s'.conns| == s'.total + s'.dropped
  {
    if key !in s.table {
      assert Add(s, key).table.Keys == s.table.Keys + {key};
    }
  }

  lemma {:induction false} CreateKeepsInv(s: State, key: Key)
    requires Inv(s)
    ensures Inv(Add(s, key))
  {
    var s' := Add(s, key);
    CreateCounts(s, key);
    assert forall id: nat {:trigger ConnOk(s', id)} :: id < |s'.conns| ==> ConnOk(s', id) by {
      forall id: nat | id < |s'.conns| ensures ConnOk(s', id) { CreateKeepsConn(s, key, id); }
    }
    assert forall t {:trigger ThreadOk(s', t)} :: t in s'.threads ==> ThreadOk(s', t) by {
      forall t | t in s'.threads ensures ThreadOk(s', t) { CreateKeepsThread(s, key, t); }
    }
    assert forall k {:trigger EntryOk(s', k)} :: k in s'.table ==> EntryOk(s', k) by {
      forall k | k in s'.table ensures EntryOk(s', k) { CreateKeepsEntry(s, key, k); }
    }
  }

  lemma {:induction false} RunKeepsInv(s: State, actions: seq<Action>)
    requires Inv(s)
    ensures Inv(Run(s, actions))
    decreases |actions|
  {
    if actions != [] {
      StepKeepsInv(s, actions[0]);
      RunKeepsInv(Step(s, actions[0]), actions[1..]);
    }
  }

  // ---- What the protocol promises ----

  /**
   The entry at a key is the one registered, not yet deleted connection with that key; no connection's
   channels are closed twice; and the active counter is the size of the map plus the removers between
   delete and decrement.
   */
  ghost predicate Consistent(s: State) {
    && s.active == |s.table| + |Decrementing(s.threads)|
    && (forall id: nat :: id < |s.conns| ==> s.conns[id].channelCloses <= 1)
    && (forall id: nat :: id < |s.conns| ==>
          (s.conns[id].registered && !s.conns[id].deleted <==> Files(s, s.conns[id].key, id)))
    && (forall key :: key in s.table ==> s.table[key] < |s.conns| && s.conns[s.table[key]].key == key)
  }

  /** The map files connection id under the key. */
  ghost predicate Files(s: State, key: Key, id: nat) {
    key in s.table && s.table[key] == id
  }

  lemma {:induction false} InvIsConsistent(s: State)
    requires Inv(s)
    ensures Consistent(s)
  {
    forall id: nat | id < |s.conns|
      ensures s.conns[id].channelCloses <= 1
      ensures s.conns[id].registered && !s.conns[id].deleted <==> Files(s, s.conns[id].key, id)
    {
      assert ConnOk(s, id);
      if s.conns[id].key in s.table {
        assert EntryOk(s, s.conns[id].key);
      }
    }
    forall key | key in s.table ensures s.table[key] < |s.conns| && s.conns[s.table[key]].key == key {
      assert EntryOk(s, key);
    }
  }

  /** Main result: every run of creates and removes, interleaved in any way, stays consistent. */
  lemma {:induction false} TrackerIsConsistent(actions: seq<Action>)
    ensures Consistent(Run(Initial, actions))
  {
    InitialInv();
    RunKeepsInv(Initial, actions);
    InvIsConsistent(Run(Initial, actions));
  }

  lemma {:induction false} InitialInv()
    ensures Inv(Initial)
  {
    assert Decrementing(Initial.threads) == {};
  }

  /** An entry disappears only when the remover of that very connection deletes it. */
  lemma {:induction false} OnlyOwnRemoverDeletes(s: State, a: Action, key: Key)
    requires Inv(s) && key in s.table
    ensures var id := s.table[key];
            if a.Advance? && a.t in s.threads && s.threads[a.t] == Delete(id) then key !in Step(s, a).table
            else key in Step(s, a).table && Step(s, a).table[key] == id
  {
    assert EntryOk(s, key);
    if a.Advance? && a.t in s.threads {
      assert ThreadOk(s, a.t);
      if s.threads[a.t].Delete? {
        assert ConnOk(s, s.threads[a.t].id);
      }
    }
  }

  /** With no remover at work the counter is the size of the map, and the map holds what nobody removed. */
  lemma {:induction false} QuiescentTracker(s: State, id: nat)
    requires Inv(s) && forall t :: t in s.threads ==> s.threads[t].Idle?
    ensures s.active == |s.table|
    ensures id < |s.conns| ==> (Files(s, s.conns[id].key, id) <==> s.conns[id].registered && !s.conns[id].closed)
  {
    assert Decrementing(s.threads) == {};
    InvIsConsistent(s);
    if id < |s.conns| {
      assert ConnOk(s, id);
    }
  }

  /**
   When a remove returns, the connection is closed; when it did not return at the closed check, its entry is
   gone and accounted for. A RemoveTCP that finds the flag set may return while the entry is still there.
   */
  lemma {:induction false} RemoveReturns(s: State, t: nat)
    requires Inv(s) && t in s.threads && !s.threads[t].Idle? && Operate(s, t).threads[t].Idle?
    ensures var id := s.threads[t].id;
            && id < |s.conns|
            && Operate(s, t).conns[id].closed
            && (!s.threads[t].Check? ==>
                  && Operate(s, t).conns[id].deleted && Operate(s, t).conns[id].once.Finished?
                  && CountedDown(Operate(s, t), id))
            && Operate(s, t).active == s.active - if s.threads[t].Decrement? then 1 else 0
  {
    var id := s.threads[t].id;
    assert ThreadOk(s, t);
    assert ConnOk(s, id);
    OperateKeepsInv(s, t);
    var s' := Operate(s, t);
    if !s.threads[t].Check? {
      forall other | other in Decrementing(s'.threads) ensures s'.threads[other].id != id {
        assert ThreadOk(s', other);
      }
    }
  }

  /** No remover of the connection is left between delete and decrement. */
  ghost predicate CountedDown(s: State, id: nat) {
    forall t :: t in Decrementing(s.threads) ==> s.threads[t].id != id
  }

  lemma {:induction false} StepKeepsDeleted(s: State, a: Action, id: nat)
    requires Inv(s) && id < |s.conns| && s.conns[id].deleted
    ensures id < |Step(s, a).conns| && Step(s, a).conns[id].deleted
    ensures Step(s, a).conns[id].key == s.conns[id].key
  {
  }

  /** Deletion is for good: whatever runs later, the map never files the connection again. */
  lemma {:induction false} DeletedForGood(s: State, actions: seq<Action>, id: nat)
    requires Inv(s) && id < |s.conns| && s.conns[id].deleted
    ensures id < |Run(s, actions).conns| && Run(s, actions).conns[id].deleted
    ensures !Files(Run(s, actions), s.conns[id].key, id)
    decreases |actions|
  {
    if actions == [] {
      InvIsConsistent(s);
    } else {
      StepKeepsInv(s, actions[0]);
      StepKeepsDeleted(s, actions[0], id);
      DeletedForGood(Step(s, actions[0]), actions[1..], id);
    }
  }

  // ---- Progress ----

  function Turns(t: nat, k: nat): seq<Action> {
    if k == 0 then [] else [Advance(t)] + Turns(t, k - 1)
  }

  /** Steps that a thread inside closeOnce still has to take. */
  function StepsLeft(pc: Pc): nat {
    match pc
    case MarkClosed(_) => 4
    case CloseChannels(_) => 3
    case Delete(_) => 2
    case Decrement(_) => 1
    case _ => 0
  }

  /** From any moment on, the thread inside closeOnce finishes the connection in at most four steps of its own. */
  lemma {:induction false} CloserFinishes(s: State, id: nat, t: nat)
    requires Inv(s) && id < |s.conns| && s.conns[id].once == Running(t) && s.conns[id].registered
    ensures t in s.threads && 1 <= StepsLeft(s.threads[t]) <= 4
    ensures var s' := Run(s, Turns(t, StepsLeft(s.threads[t])));
            && Inv(s') && id < |s'.conns| && s'.conns[id].once.Finished? && s'.conns[id].deleted
            && t in s'.threads && s'.threads[t].Idle?
    decreases if t in s.threads then StepsLeft(s.threads[t]) else 0
  {
    assert ConnOk(s, id);
    assert ThreadOk(s, t);
    OperateKeepsInv(s, t);
    var k := StepsLeft(s.threads[t]);
    assert Turns(t, k)[1..] == Turns(t, k - 1);
    var s1 := Operate(s, t);
    assert Run(s, Turns(t, k)) == Run(s1, Turns(t, k - 1));
    assert ConnOk(s1, id);
    if k > 1 {
      CloserFinishes(s1, id, t);
    }
  }

  /** A thread that waits at closeOnce is never stuck: the closer's steps and then one of its own let it return. */
  lemma {:induction false} WaiterReturns(s: State, t: nat)
    requires Inv(s) && t in s.threads && s.threads[t].Enter?
    ensures var id := s.threads[t].id;
            && id < |s.conns|
            && match s.conns[id].once
               case NotStarted => Operate(s, t).threads[t] == MarkClosed(id)
               case Finished => Operate(s, t).threads[t].Idle?
               case Running(closer) =>
                 closer in s.threads &&
                 var s' := Run(s, Turns(closer, StepsLeft(s.threads[closer])));
                 t in s'.threads && s'.threads[t] == Enter(id) && Operate(s', t).threads[t].Idle?
  {
    var id := s.threads[t].id;
    assert ThreadOk(s, t);
    if s.conns[id].once.Running? {
      var closer := s.conns[id].once.closer;
      CloserFinishes(s, id, closer);
      OthersKeepTheirPlace(s, closer, StepsLeft(s.threads[closer]), t);
      var s' := Run(s, Turns(closer, StepsLeft(s.threads[closer])));
      assert s'.threads[t] == Enter(id);
    }
  }

  lemma {:induction false} OthersKeepTheirPlace(s: State, t: nat, k: nat, other: nat)
    requires other in s.threads && other != t
    ensures other in Run(s, Turns(t, k)).threads && Run(s, Turns(t, k)).threads[other] == s.threads[other]
    decreases k
  {
    if k > 0 {
      assert Turns(t, k)[1..] == Turns(t, k - 1);
      OthersKeepTheirPlace(Step(s, Advance(t)), t, k - 1, other);
    }
  }

  /** A remove that nobody interferes with deletes the entry and counts it down, and touches nothing else. */
  lemma {:induction false} RemoveAlone(s: State, t: nat, id: nat, udp: bool)
    requires Inv(s) && id < |s.conns| && s.conns[id].registered && s.conns[id].once.NotStarted?
    requires t in s.threads ==> s.threads[t] == Idle
    ensures var c := s.conns[id];
            var actions := if udp then [RemoveUDP(t, id)] + Turns(t, 5) else [RemoveTCP(t, id)] + Turns(t, 6);
            Files(s, c.key, id) &&
            Run(s, actions) == s.(conns := s.conns[id := Conn(c.key, true, true, Finished, 1, true)],
                                  table := s.table - {c.key}, active := s.active - 1,
                                  threads := s.threads[t := Idle])
  {
    assert ConnOk(s, id);
    if udp {
      assert ([RemoveUDP(t, id)] + Turns(t, 5))[1..] == Turns(t, 5);
    } else {
      var s1 := Goto(s, t, Check(id));
      assert ([RemoveTCP(t, id)] + Turns(t, 6))[1..] == Turns(t, 6);
      NextTurn(s1, t, 6);
      assert Operate(s1, t) == Goto(s, t, Enter(id));
    }
    CloseAlone(s, t, id);
  }

  lemma {:induction false} NextTurn(s: State, t: nat, k: nat)
    requires t in s.threads && k > 0
    ensures Run(s, Turns(t, k)) == Run(Operate(s, t), Turns(t, k - 1))
  {
    assert Turns(t, k)[1..] == Turns(t, k - 1);
  }

  lemma {:induction false} CloseAlone(s: State, t: nat, id: nat)
    requires id < |s.conns| && s.conns[id].once.NotStarted? && s.conns[id].registered
    requires s.conns[id].channelCloses == 0
    ensures var c := s.conns[id];
            Run(Goto(s, t, Enter(id)), Turns(t, 5))
            == s.(conns := s.conns[id := Conn(c.key, true, true, Finished, 1, true)],
                  table := s.table - {c.key}, active := s.active - 1, threads := s.threads[t := Idle])
  {
    var c := s.conns[id];
    var s1 := Goto(s.(conns := s.conns[id := c.(once := Running(t))]), t, MarkClosed(id));
    NextTurn(Goto(s, t, Enter(id)), t, 5);
    assert Operate(Goto(s, t, Enter(id)), t) == s1;
    var c2 := c.(once := Running(t), closed := true);
    var s2 := Goto(s.(conns := s.conns[id := c2]), t, CloseChannels(id));
    NextTurn(s1, t, 4);
    assert Operate(s1, t) == s2;
    DeleteAlone(s, t, id, c2);
  }

  lemma {:induction false} DeleteAlone(s: State, t: nat, id: nat, c: Conn)
    requires id < |s.conns| && c.channelCloses == 0
    ensures Run(Goto(s.(conns := s.conns[id := c]), t, CloseChannels(id)), Turns(t, 3))
            == s.(conns := s.conns[id := c.(once := Finished, channelCloses := 1, deleted := true)],
                  table := s.table - {c.key}, active := s.active - 1, threads := s.threads[t := Idle])
  {
    var s2 := Goto(s.(conns := s.conns[id := c]), t, CloseChannels(id));
    var s3 := Goto(s.(conns := s.conns[id := c.(channelCloses := 1)]), t, Delete(id));
    NextTurn(s2, t, 3);
    assert Operate(s2, t) == s3;
    var s4 := Goto(s.(conns := s.conns[id := c.(channelCloses := 1, deleted := true)], table := s.table - {c.key}),
                   t, Decrement(id));
    NextTurn(s3, t, 2);
    assert Operate(s3, t) == s4;
    NextTurn(s4, t, 1);
  }

  /** Only TCP looks at the closed flag first: its remove of a closed connection returns at once and never waits. */
  lemma {:induction false} ClosedCheckReturns(s: State, t: nat, id: nat)
    requires id < |s.conns| && s.conns[id].registered && (t in s.threads ==> s.threads[t] == Idle)
    ensures var tcp, udp := Step(s, RemoveTCP(t, id)), Step(s, RemoveUDP(t, id));
            && (s.conns[id].closed ==> Step(tcp, Advance(t)) == Goto(s, t, Idle))
            && (!s.conns[id].closed ==> Step(tcp, Advance(t)) == udp)
            && udp == Goto(s, t, Enter(id))
  {
  }

  // ---- Creating ----

  /** A create of a free key files a new, open connection and counts it; of a taken key, it only counts a drop. */
  lemma {:induction false} CreateFiles(s: State, key: Key)
    ensures var s', id := Step(s, Create(key)), |s.conns|;
            && |s'.conns| == id + 1 && s'.conns[..id] == s.conns && s'.threads == s.threads
            && s'.conns[id].key == key && s'.conns[id].registered == (key !in s.table)
            && (key !in s.table ==>
                  && s'.table == s.table[key := id] && s'.active == s.active + 1 && s'.total == s.total + 1
                  && s'.dropped == s.dropped && !s'.conns[id].closed && s'.conns[id].once.NotStarted?)
            && (key in s.table ==>
                  && s'.table == s.table && s'.active == s.active && s'.total == s.total
                  && s'.dropped == s.dropped + 1 && s'.conns[id].closed)
  {
  }

  /** In state s the action is the deletion of connection id. */
  predicate Deletes(s: State, a: Action, id: nat) {
    a.Advance? && a.t in s.threads && s.threads[a.t] == Delete(id)
  }

  /** The k-th action of the run created connection id under the key, and no later one deleted it. */
  ghost predicate CreatedAndKept(actions: seq<Action>, k: nat, key: Key, id: nat) {
    && k < |actions| && actions[k] == Create(key)
    && key !in Run(Initial, actions[..k]).table && id == |Run(Initial, actions[..k]).conns|
    && forall j: nat :: k < j < |actions| ==> !DeletedAt(actions, j, id)
  }

  ghost predicate DeletedAt(actions: seq<Action>, j: nat, id: nat)
    requires j < |actions|
  {
    Deletes(Run(Initial, actions[..j]), actions[j], id)
  }

  lemma {:induction false} RunLast(s: State, actions: seq<Action>)
    requires actions != []
    ensures var n := |actions| - 1; Run(s, actions) == Step(Run(s, actions[..n]), actions[n])
    decreases |actions|
  {
    var n := |actions| - 1;
    if n > 0 {
      RunLast(Step(s, actions[0]), actions[1..]);
      assert actions[1..][..n - 1] == actions[1..n] && actions[..n][1..] == actions[1..n];
    }
  }

  lemma {:induction false} KeptSoFar(actions: seq<Action>, k: nat, key: Key, id: nat)
    requires actions != [] && k < |actions| - 1
    ensures var n := |actions| - 1;
            CreatedAndKept(actions, k, key, id)
            <==> CreatedAndKept(actions[..n], k, key, id) && !Deletes(Run(Initial, actions[..n]), actions[n], id)
  {
    var n := |actions| - 1;
    var before := actions[..n];
    assert before[..k] == actions[..k];
    forall j: nat | j < n ensures DeletedAt(before, j, id) <==> DeletedAt(actions, j, id) {
      assert before[..j] == actions[..j];
    }
    assert DeletedAt(actions, n, id) <==> Deletes(Run(Initial, before), actions[n], id);
  }

  /** Only a create of the key can file it anew. */
  lemma {:induction false} OnlyCreateFiles(s: State, a: Action, key: Key)
    requires key !in s.table
    ensures key in Step(s, a).table <==> a == Create(key)
    ensures a == Create(key) ==> Step(s, a).table[key] == |s.conns|
  {
  }

  ghost predicate WasKept(actions: seq<Action>, key: Key, id: nat) {
    exists k: nat :: CreatedAndKept(actions, k, key, id)
  }

  /** One more action on a run, for the map entry of a key. */
  lemma {:induction false} LastAction(actions: seq<Action>, key: Key, id: nat)
    requires actions != []
    ensures var n := |actions| - 1;
            var s, s' := Run(Initial, actions[..n]), Run(Initial, actions);
            if Files(s, key, id) then Files(s', key, id) <==> !Deletes(s, actions[n], id)
            else Files(s', key, id) <==> key !in s.table && actions[n] == Create(key) && id == |s.conns|
  {
    var n := |actions| - 1;
    RunLast(Initial, actions);
    ReachableInv(actions[..n]);
    EntryAfter(Run(Initial, actions[..n]), actions[n], key, id);
  }

  lemma {:induction false} ReachableInv(actions: seq<Action>)
    ensures Inv(Run(Initial, actions))
  {
    InitialInv();
    RunKeepsInv(Initial, actions);
  }

  lemma {:induction false} EntryAfter(s: State, a: Action, key: Key, id: nat)
    requires Inv(s)
    ensures if Files(s, key, id) then Files(Step(s, a), key, id) <==> !Deletes(s, a, id)
            else Files(Step(s, a), key, id) <==> key !in s.table && a == Create(key) && id == |s.conns|
  {
    if key in s.table {
      OnlyOwnRemoverDeletes(s, a, key);
    } else {
      OnlyCreateFiles(s, a, key);
    }
  }

  lemma {:induction false} FiledWasKept(actions: seq<Action>, key: Key, id: nat)
    requires actions != [] && Files(Run(Initial, actions), key, id)
    requires Files(Run(Initial, actions[..|actions| - 1]), key, id) ==> WasKept(actions[..|actions| - 1], key, id)
    ensures WasKept(actions, key, id)
  {
    var n := |actions| - 1;
    LastAction(actions, key, id);
    if Files(Run(Initial, actions[..n]), key, id) {
      var k: nat :| CreatedAndKept(actions[..n], k, key, id);
      KeptSoFar(actions, k, key, id);
    } else {
      assert CreatedAndKept(actions, n, key, id);
    }
  }

  lemma {:induction false} KeptIsFiled(actions: seq<Action>, key: Key, id: nat)
    requires actions != [] && WasKept(actions, key, id)
    requires WasKept(actions[..|actions| - 1], key, id) ==> Files(Run(Initial, actions[..|actions| - 1]), key, id)
    ensures Files(Run(Initial, actions), key, id)
  {
    var n := |actions| - 1;
    var k: nat :| CreatedAndKept(actions, k, key, id);
    LastAction(actions, key, id);
    if k < n {
      KeptSoFar(actions, k, key, id);
    }
  }

  /**
   After any run, the map files a connection under a key if and only if some create of that key found it free
   and made that connection, and no remover has deleted it since.
   */
  lemma {:induction false} FiledIff(actions: seq<Action>, key: Key, id: nat)
    ensures Files(Run(Initial, actions), key, id) <==> WasKept(actions, key, id)
    decreases |actions|
  {
    if actions == [] {
      assert !Files(Initial, key, id);
    } else {
      FiledIff(actions[..|actions| - 1], key, id);
      if Files(Run(Initial, actions), key, id) {
        FiledWasKept(actions, key, id);
      }
      if WasKept(actions, key, id) {
        KeptIsFiled(actions, key, id);
      }
    }
  }
}
