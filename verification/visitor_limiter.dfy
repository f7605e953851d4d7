/**
 The lock-free API rate limiter (api/ratelimit.go) as a state machine. Every atomic load, store and
 compare-and-swap is one step, and a run interleaves the steps of any number of threads in any order.
 Time is whole seconds, as the code reads it, and never goes back.
 */
module VisitorLimiter {
  import opened Arithmetic

  /** rate is positive (newRateLimiterWithConfig defaults it); window is windowSeconds. */
  datatype Config = Config(rate: int, window: nat) {
    predicate Valid() {
      0 < rate < 0x8000_0000
    }
  }

  /** tokens and lastReset are the atomic fields; the others are history: nothing reads them. */
  datatype Visitor = Visitor(tokens: int, lastReset: int, created: int, resets: nat, stores: nat, grants: nat)

  /** Where a thread is inside allow, with the locals it has read so far. */
  datatype Pc =
    | Lookup(ip: string)                       // visitors.Load
    | Prepare(ip: string)                      // fill a private visitor with time.Now
    | Publish(ip: string, madeAt: int)         // visitors.LoadOrStore
    | ReadClock(v: nat)                        // now := time.Now
    | LoadReset(v: nat, now: int)              // lastReset.Load
    | CasReset(v: nat, now: int, seen: int)    // lastReset.CompareAndSwap
    | StoreTokens(v: nat)                      // tokens.Store(rate), by the winner only
    | LoadTokens(v: nat)                       // tokens.Load
    | CasTokens(v: nat, seenTokens: int)       // tokens.CompareAndSwap
    | Done(allowed: bool)

  datatype State = State(
    clock: int, visitors: seq<Visitor>, current: map<string, nat>, threads: map<nat, Pc>)

  /** Forget is cleanup's Delete, allowed here at any moment, so stale visitors may still be in use. */
  datatype Action = Tick(seconds: nat) | Call(t: nat, ip: string) | Forget(ip: string) | Advance(t: nat)

  function Goto(s: State, t: nat, pc: Pc): State {
    s.(threads := s.threads[t := pc])
  }

  /** One atomic operation of thread t. */
  function Operate(c: Config, s: State, t: nat): State
    requires t in s.threads
  {
    match s.threads[t]
    case Lookup(ip) =>
      Goto(s, t, if ip in s.current then ReadClock(s.current[ip]) else Prepare(ip))
    case Prepare(ip) => Goto(s, t, Publish(ip, s.clock))
    case Publish(ip, madeAt) =>
      if ip in s.current then Goto(s, t, ReadClock(s.current[ip]))
      else
        var made := Visitor(c.rate, madeAt, madeAt, 0, 0, 0);
        Goto(s.(visitors := s.visitors + [made], current := s.current[ip := |s.visitors|]),
             t, ReadClock(|s.visitors|))
    case ReadClock(v) => Goto(s, t, LoadReset(v, s.clock))
    case LoadReset(v, now) =>
      if v >= |s.visitors| then s
      else
        var seen := s.visitors[v].lastReset;
        Goto(s, t, if now - seen > c.window then CasReset(v, now, seen) else LoadTokens(v))
    case CasReset(v, now, seen) =>
      if v >= |s.visitors| then s
      else
        var x := s.visitors[v];
        if x.lastReset == seen then
          Goto(s.(visitors := s.visitors[v := x.(lastReset := now, resets := x.resets + 1)]), t, StoreTokens(v))
        else Goto(s, t, LoadTokens(v))
    case StoreTokens(v) =>
      if v >= |s.visitors| then s
      else
        var x := s.visitors[v];
        Goto(s.(visitors := s.visitors[v := x.(tokens := c.rate, stores := x.stores + 1)]), t, LoadTokens(v))
    case LoadTokens(v) =>
      if v >= |s.visitors| then s
      else
        var seen := s.visitors[v].tokens;
        Goto(s, t, if seen <= 0 then Done(false) else CasTokens(v, seen))
    case CasTokens(v, seen) =>
      if v >= |s.visitors| then s
      else
        var x := s.visitors[v];
        if x.tokens == seen then
          Goto(s.(visitors := s.visitors[v := x.(tokens := seen - 1, grants := x.grants + 1)]), t, Done(true))
        else Goto(s, t, LoadTokens(v))
    case Done(_) => s
  }

  function Step(c: Config, s: State, a: Action): State {
    match a
    case Tick(d) => s.(clock := s.clock + d)
    case Call(t, ip) => if t in s.threads && !s.threads[t].Done? then s else Goto(s, t, Lookup(ip))
    case Forget(ip) => s.(current := s.current - {ip})
    case Advance(t) => if t in s.threads then Operate(c, s, t) else s
  }

  function Run(c: Config, s: State, actions: seq<Action>): State
    decreases |actions|
  {
    if actions == [] then s else Run(c, Step(c, s, actions[0]), actions[1..])
  }

  function Initial(clock: int): State {
    State(clock, [], map[], map[])
  }

  // ---- Invariant ----

  /** The winners of a reset on v that have not stored the tokens yet. */
  ghost function Pending(threads: map<nat, Pc>, v: nat): set<nat> {
    set t | t in threads && threads[t] == StoreTokens(v)
  }

  ghost predicate ThreadOk(c: Config, s: State, pc: Pc) {
    match pc
    case Lookup(_) => true
    case Prepare(_) => true
    case Publish(_, madeAt) => madeAt <= s.clock
    case ReadClock(v) => v < |s.visitors|
    case LoadReset(v, now) => v < |s.visitors| && now <= s.clock
    case CasReset(v, now, seen) => v < |s.visitors| && now <= s.clock && now - seen > c.window
    case StoreTokens(v) => v < |s.visitors|
    case LoadTokens(v) => v < |s.visitors|
    case CasTokens(v, seen) => v < |s.visitors| && 0 < seen <= c.rate
    case Done(_) => true
  }

  /** One visitor, with the number of winners that still have to store. */
  ghost predicate Good(c: Config, x: Visitor, pending: int, clock: int) {
    && 0 <= x.tokens <= c.rate
    && x.grants + x.tokens <= Times(1 + x.stores, c.rate)
    && x.stores + pending == x.resets
    && x.created + Times(x.resets, c.window + 1) <= x.lastReset <= clock
  }

  ghost predicate VisitorOk(c: Config, s: State, v: nat)
    requires v < |s.visitors|
  {
    Good(c, s.visitors[v], |Pending(s.threads, v)|, s.clock)
  }

  ghost predicate Inv(c: Config, s: State) {
    && (forall ip :: ip in s.current ==> s.current[ip] < |s.visitors|)
    && (forall t :: t in s.threads ==> ThreadOk(c, s, s.threads[t]))
    && (forall v: nat :: v < |s.visitors| ==> VisitorOk(c, s, v))
  }

  lemma {:induction false} PendingAfter(threads: map<nat, Pc>, t: nat, pc: Pc, v: nat)
    requires t in threads
    ensures |Pending(threads[t := pc], v)|
            == |Pending(threads, v)| + Waits(pc, v) - Waits(threads[t], v)
  {
    var before, after := Pending(threads, v), Pending(threads[t := pc], v);
    if pc == StoreTokens(v) {
      assert after == before + {t};
    } else {
      assert after == before - {t};
    }
    assert t in before <==> threads[t] == StoreTokens(v);
  }

  /** 1 for a winner on v that has not stored yet. */
  function Waits(pc: Pc, v: nat): int {
    if pc == StoreTokens(v) then 1 else 0
  }

  /** The four things an operation may do to a visitor and to its number of pending winners. */
  ghost predicate Effect(c: Config, x: Visitor, y: Visitor, p: int, p': int, clock: int) {
    || (y == x && p' == p)
    || (y == x.(tokens := c.rate, stores := x.stores + 1) && p' == p - 1)
    || (0 < x.tokens && y == x.(tokens := x.tokens - 1, grants := x.grants + 1) && p' == p)
    || (x.lastReset + c.window < y.lastReset <= clock && p' == p + 1
        && y == x.(lastReset := y.lastReset, resets := x.resets + 1))
  }

  lemma {:induction false} OperateTouches(c: Config, s: State, t: nat)
    requires t in s.threads
    ensures var s' := Operate(c, s, t);
            && t in s'.threads && s'.threads == s.threads[t := s'.threads[t]]
            && |s.visitors| <= |s'.visitors| && s'.clock == s.clock
  {
  }

  lemma {:induction false} VisitorEffect(c: Config, s: State, t: nat, v: nat)
    requires t in s.threads && ThreadOk(c, s, s.threads[t]) && v < |s.visitors|
    ensures var s' := Operate(c, s, t);
            && t in s'.threads && v < |s'.visitors|
            && Effect(c, s.visitors[v], s'.visitors[v],
                      Waits(s.threads[t], v), Waits(s'.threads[t], v), s.clock)
  {
  }

  lemma {:induction false} OperateEffect(c: Config, s: State, t: nat, v: nat)
    requires t in s.threads && ThreadOk(c, s, s.threads[t]) && v < |s.visitors|
    ensures var s' := Operate(c, s, t);
            && v < |s'.visitors|
            && Effect(c, s.visitors[v], s'.visitors[v], |Pending(s.threads, v)|, |Pending(s'.threads, v)|, s.clock)
  {
    OperateTouches(c, s, t);
    VisitorEffect(c, s, t, v);
    PendingAfter(s.threads, t, Operate(c, s, t).threads[t], v);
  }

  lemma {:induction false} EffectKeepsGood(c: Config, x: Visitor, y: Visitor, p: int, p': int, clock: int)
    requires c.Valid() && Good(c, x, p, clock) && Effect(c, x, y, p, p', clock)
    ensures Good(c, y, p', clock)
  {
  }

  lemma {:induction false} OperateKeepsVisitor(c: Config, s: State, t: nat, v: nat)
    requires c.Valid() && t in s.threads && ThreadOk(c, s, s.threads[t])
    requires v < |s.visitors| && VisitorOk(c, s, v)
    ensures v < |Operate(c, s, t).visitors| && VisitorOk(c, Operate(c, s, t), v)
  {
    OperateEffect(c, s, t, v);
    var s' := Operate(c, s, t);
    EffectKeepsGood(c, s.visitors[v], s'.visitors[v], |Pending(s.threads, v)|, |Pending(s'.threads, v)|, s.clock);
  }

  lemma {:induction false} NobodyPending(c: Config, s: State, v: nat)
    requires v >= |s.visitors|
    requires forall t :: t in s.threads ==> ThreadOk(c, s, s.threads[t])
    ensures Pending(s.threads, v) == {}
  {
    forall t | t in s.threads ensures s.threads[t] != StoreTokens(v) {
      assert ThreadOk(c, s, s.threads[t]);
    }
  }

  lemma {:induction false} OperateKeepsThreads(c: Config, s: State, t: nat, other: nat)
    requires c.Valid() && Inv(c, s) && t in s.threads && other in s.threads
    ensures ThreadOk(c, Operate(c, s, t), Operate(c, s, t).threads[other])
  {
    OperateTouches(c, s, t);
    if other == t {
      OperateKeepsOwn(c, s, t);
    } else {
      assert ThreadOk(c, s, s.threads[other]);
    }
  }

  lemma {:induction false} OperateKeepsOwn(c: Config, s: State, t: nat)
    requires c.Valid() && Inv(c, s) && t in s.threads
    ensures ThreadOk(c, Operate(c, s, t), Operate(c, s, t).threads[t])
  {
    assert ThreadOk(c, s, s.threads[t]);
    if s.threads[t].LoadTokens? {
      assert VisitorOk(c, s, s.threads[t].v);
    }
  }

  lemma {:induction false} OperateKeepsInv(c: Config, s: State, t: nat)
    requires c.Valid() && Inv(c, s) && t in s.threads
    ensures Inv(c, Operate(c, s, t))
  {
    var s' := Operate(c, s, t);
    forall other | other in s'.threads ensures ThreadOk(c, s', s'.threads[other]) {
      OperateKeepsThreads(c, s, t, other);
    }
    forall v: nat | v < |s'.visitors| ensures VisitorOk(c, s', v) {
      assert ThreadOk(c, s, s.threads[t]);
      if v < |s.visitors| {
        OperateKeepsVisitor(c, s, t, v);
      } else {
        NobodyPending(c, s, v);
        OperateTouches(c, s, t);
        PendingAfter(s.threads, t, s'.threads[t], v);
      }
    }
  }

  lemma {:induction false} StepKeepsInv(c: Config, s: State, a: Action)
    requires c.Valid() && Inv(c, s)
    ensures Inv(c, Step(c, s, a))
  {
    var s' := Step(c, s, a);
    match a
    case Advance(t) => if t in s.threads { OperateKeepsInv(c, s, t); }
    case Call(t, ip) =>
      forall v: nat | v < |s'.visitors| ensures VisitorOk(c, s', v) {
        assert VisitorOk(c, s, v);
        assert Pending(s'.threads, v) == Pending(s.threads, v);
      }
    case _ =>
      forall v: nat | v < |s'.visitors| ensures VisitorOk(c, s', v) {
        assert VisitorOk(c, s, v);
      }
  }

  lemma {:induction false} RunKeepsInv(c: Config, s: State, actions: seq<Action>)
    requires c.Valid() && Inv(c, s)
    ensures Inv(c, Run(c, s, actions))
    decreases |actions|
  {
    if actions != [] {
      StepKeepsInv(c, s, actions[0]);
      RunKeepsInv(c, Step(c, s, actions[0]), actions[1..]);
    }
  }

  /**
   Main result. Whatever the interleaving, a visitor's tokens stay within [0, rate], and what it has
   granted since it was created is at most rate for the first window and rate for every further
   window + 1 seconds.
   */
  lemma {:induction false} GrantsAreBounded(c: Config, clock: int, actions: seq<Action>, v: nat)
    requires c.Valid()
    ensures var s := Run(c, Initial(clock), actions);
            v < |s.visitors| ==>
              var x := s.visitors[v];
              && 0 <= x.tokens <= c.rate
              && x.created <= s.clock
              && x.grants <= c.rate * (1 + (s.clock - x.created) / (c.window + 1))
  {
    RunKeepsInv(c, Initial(clock), actions);
    var s := Run(c, Initial(clock), actions);
    if v < |s.visitors| {
      assert VisitorOk(c, s, v);
      var x := s.visitors[v];
      QuotientBound(x.resets, c.window + 1, s.clock - x.created);
      var q: nat := (s.clock - x.created) / (c.window + 1);
      TimesMonotone(1 + x.stores, 1 + q, c.rate);
      TimesIsProduct(1 + q, c.rate);
    }
  }

  // ---- One call without interference ----

  function Turns(t: nat, k: nat): seq<Action> {
    if k == 0 then [] else [Advance(t)] + Turns(t, k - 1)
  }

  lemma {:induction false} NextTurn(c: Config, s: State, t: nat, k: nat)
    requires t in s.threads && k > 0
    ensures Run(c, s, Turns(t, k)) == Run(c, Operate(c, s, t), Turns(t, k - 1))
  {
    assert Turns(t, k)[1..] == Turns(t, k - 1);
  }

  lemma {:induction false} DoneStays(c: Config, s: State, t: nat, k: nat)
    requires t in s.threads && s.threads[t].Done?
    ensures Run(c, s, Turns(t, k)) == s
  {
    if k > 0 {
      NextTurn(c, s, t, k);
      DoneStays(c, s, t, k - 1);
    }
  }

  /** The visitor after a reset whose window has passed, and after taking a token if one is left. */
  function Renewed(c: Config, x: Visitor, now: int): Visitor {
    if now - x.lastReset > c.window
    then x.(tokens := c.rate, lastReset := now, resets := x.resets + 1, stores := x.stores + 1) else x
  }

  function Charged(x: Visitor): Visitor {
    if x.tokens > 0 then x.(tokens := x.tokens - 1, grants := x.grants + 1) else x
  }

  /** Thread t alone has acted: visitor v is now y, and the thread is done. */
  function Alone(s: State, t: nat, v: nat, y: Visitor, allowed: bool): State
    requires v < |s.visitors|
  {
    s.(visitors := s.visitors[v := y], threads := s.threads[t := Done(allowed)])
  }

  lemma {:induction false} TakesAlone(c: Config, s: State, t: nat, v: nat, k: nat)
    requires t in s.threads && s.threads[t] == LoadTokens(v) && v < |s.visitors| && k >= 2
    ensures var x := s.visitors[v];
            Run(c, s, Turns(t, k)) == Alone(s, t, v, Charged(x), x.tokens > 0)
  {
    var x := s.visitors[v];
    NextTurn(c, s, t, k);
    var s1 := Operate(c, s, t);
    if x.tokens > 0 {
      NextTurn(c, s1, t, k - 1);
      assert Operate(c, s1, t) == Alone(s, t, v, Charged(x), true);
      DoneStays(c, Operate(c, s1, t), t, k - 2);
    } else {
      assert s1 == Alone(s, t, v, x, false);
      DoneStays(c, s1, t, k - 1);
    }
  }

  lemma {:induction false} ChecksAlone(c: Config, s: State, t: nat, v: nat, k: nat)
    requires t in s.threads && s.threads[t] == ReadClock(v) && v < |s.visitors|
    requires k >= if s.clock - s.visitors[v].lastReset > c.window then 6 else 4
    ensures var y := Renewed(c, s.visitors[v], s.clock);
            Run(c, s, Turns(t, k)) == Alone(s, t, v, Charged(y), y.tokens > 0)
  {
    NextTurn(c, s, t, k);
    var s1 := Operate(c, s, t);
    NextTurn(c, s1, t, k - 1);
    var s2 := Operate(c, s1, t);
    if s.clock - s.visitors[v].lastReset > c.window {
      ResetsAlone(c, s, s2, t, v, k - 2);
    } else {
      TakesAlone(c, s2, t, v, k - 2);
    }
  }

  lemma {:induction false} ResetsAlone(c: Config, s: State, s2: State, t: nat, v: nat, k: nat)
    requires t in s.threads && v < |s.visitors| && k >= 4 && s.clock - s.visitors[v].lastReset > c.window
    requires s2 == Goto(s, t, CasReset(v, s.clock, s.visitors[v].lastReset))
    ensures var y := Renewed(c, s.visitors[v], s.clock);
            Run(c, s2, Turns(t, k)) == Alone(s, t, v, Charged(y), y.tokens > 0)
  {
    NextTurn(c, s2, t, k);
    var s3 := Operate(c, s2, t);
    NextTurn(c, s3, t, k - 1);
    var s4 := Operate(c, s3, t);
    assert s4.visitors == s.visitors[v := Renewed(c, s.visitors[v], s.clock)];
    TakesAlone(c, s4, t, v, k - 2);
  }

  /** One whole call of thread t. */
  function Solo(t: nat, ip: string): seq<Action> {
    [Call(t, ip)] + Turns(t, 7)
  }

  predicate Free(s: State, t: nat) {
    t in s.threads ==> s.threads[t].Done?
  }

  /**
   Run alone, allow is the plain limiter: a window that has passed refills to rate, then the call is granted
   exactly when a token is left and takes it. Nothing else changes.
   */
  lemma {:induction false} CallAlone(c: Config, s: State, t: nat, ip: string)
    requires c.Valid() && Inv(c, s) && Free(s, t) && ip in s.current
    ensures var v := s.current[ip];
            v < |s.visitors| &&
            var y := Renewed(c, s.visitors[v], s.clock);
            Run(c, s, Solo(t, ip)) == Alone(s, t, v, Charged(y), y.tokens > 0)
  {
    var s0 := Goto(s, t, Lookup(ip));
    assert Solo(t, ip)[1..] == Turns(t, 7);
    NextTurn(c, s0, t, 7);
    ChecksAlone(c, Operate(c, s0, t), t, s.current[ip], 6);
  }

  /** The state with a visitor for an address not seen before. */
  function WithVisitor(c: Config, s: State, ip: string): State {
    s.(visitors := s.visitors + [Visitor(c.rate, s.clock, s.clock, 0, 0, 0)],
       current := s.current[ip := |s.visitors|])
  }

  lemma {:induction false} PublishesAlone(c: Config, s: State, t: nat, ip: string, k: nat)
    requires Free(s, t) && ip !in s.current && k >= 3
    ensures Run(c, s, [Call(t, ip)] + Turns(t, k))
            == Run(c, Goto(WithVisitor(c, s, ip), t, ReadClock(|s.visitors|)), Turns(t, k - 3))
  {
    var s0 := Goto(s, t, Lookup(ip));
    assert ([Call(t, ip)] + Turns(t, k))[1..] == Turns(t, k);
    NextTurn(c, s0, t, k);
    var s1 := Operate(c, s0, t);
    NextTurn(c, s1, t, k - 1);
    var s2 := Operate(c, s1, t);
    NextTurn(c, s2, t, k - 2);
    assert Operate(c, s2, t) == Goto(WithVisitor(c, s, ip), t, ReadClock(|s.visitors|));
  }

  /** An address not seen before gets a visitor with rate tokens, and the call takes the first. */
  lemma {:induction false} FirstCallAlone(c: Config, s: State, t: nat, ip: string)
    requires c.Valid() && Free(s, t) && ip !in s.current
    ensures var s', n := WithVisitor(c, s, ip), |s.visitors|;
            Run(c, s, Solo(t, ip)) == Alone(s', t, n, Charged(s'.visitors[n]), true)
  {
    var s', n := WithVisitor(c, s, ip), |s.visitors|;
    PublishesAlone(c, s, t, ip, 7);
    ChecksAlone(c, Goto(s', t, ReadClock(n)), t, n, 4);
    assert Alone(Goto(s', t, ReadClock(n)), t, n, Charged(s'.visitors[n]), true)
        == Alone(s', t, n, Charged(s'.visitors[n]), true);
  }

  // ---- Between two moments of a run ----

  /** What any stretch of a run does to one visitor: a relation that composes. */
  ghost predicate Evolves(c: Config, x: Visitor, y: Visitor) {
    && x.created == y.created && x.stores <= y.stores && x.resets <= y.resets && x.grants <= y.grants
    && y.grants + y.tokens <= x.grants + x.tokens + Times(y.stores - x.stores, c.rate)
    && x.lastReset + Times(y.resets - x.resets, c.window + 1) <= y.lastReset
  }

  lemma {:induction false} EvolvesComposes(c: Config, x: Visitor, y: Visitor, z: Visitor)
    requires c.Valid() && Evolves(c, x, y) && Evolves(c, y, z)
    ensures Evolves(c, x, z)
  {
    TimesAdd(y.stores - x.stores, z.stores - y.stores, c.rate);
    TimesAdd(y.resets - x.resets, z.resets - y.resets, c.window + 1);
  }

  lemma {:induction false} StepEvolves(c: Config, s: State, a: Action, v: nat)
    requires c.Valid() && Inv(c, s) && v < |s.visitors|
    ensures v < |Step(c, s, a).visitors| && Evolves(c, s.visitors[v], Step(c, s, a).visitors[v])
  {
    assert VisitorOk(c, s, v);
    if a.Advance? && a.t in s.threads {
      OperateEffect(c, s, a.t, v);
    }
  }

  lemma {:induction false} RunEvolves(c: Config, s: State, actions: seq<Action>, v: nat)
    requires c.Valid() && Inv(c, s) && v < |s.visitors|
    ensures v < |Run(c, s, actions).visitors|
    ensures Evolves(c, s.visitors[v], Run(c, s, actions).visitors[v])
    decreases |actions|
  {
    if actions != [] {
      var s' := Step(c, s, actions[0]);
      StepKeepsInv(c, s, actions[0]);
      StepEvolves(c, s, actions[0], v);
      RunEvolves(c, s', actions[1..], v);
      EvolvesComposes(c, s.visitors[v], s'.visitors[v], Run(c, s, actions).visitors[v]);
    }
  }

  lemma {:induction false} StretchArithmetic(c: Config, x: Visitor, y: Visitor, p: nat, p': nat, clock: int, clock': int)
    requires c.Valid() && Good(c, x, p, clock) && Good(c, y, p', clock') && Evolves(c, x, y)
    ensures x.lastReset <= y.lastReset
    ensures y.grants - x.grants <= c.rate * (1 + p + (y.lastReset - x.lastReset) / (c.window + 1))
  {
    var d: nat, r: nat := y.stores - x.stores, y.resets - x.resets;
    var elapsed := y.lastReset - x.lastReset;
    QuotientBound(r, c.window + 1, elapsed);
    var q: nat := elapsed / (c.window + 1);
    assert d <= p + r && r <= q;
    assert y.grants - x.grants <= Times(1 + d, c.rate);
    assert Times(1 + d, c.rate) <= Times(1 + p + q, c.rate) by {
      TimesMonotone(1 + d, 1 + p + q, c.rate);
    }
    TimesIsProduct(1 + p + q, c.rate);
  }

  /**
   Any stretch of a run, started at any reachable state: at most rate grants from the tokens at hand,
   rate for each winner still to store, and rate for every window + 1 seconds that lastReset advances.
   */
  lemma {:induction false} GrantsInAnyStretch(c: Config, s: State, actions: seq<Action>, v: nat)
    requires c.Valid() && Inv(c, s) && v < |s.visitors|
    ensures var s' := Run(c, s, actions);
            && v < |s'.visitors| && s.visitors[v].lastReset <= s'.visitors[v].lastReset <= s'.clock
            && s'.visitors[v].grants - s.visitors[v].grants
               <= c.rate * (1 + |Pending(s.threads, v)|
                            + (s'.visitors[v].lastReset - s.visitors[v].lastReset) / (c.window + 1))
  {
    RunEvolves(c, s, actions, v);
    RunKeepsInv(c, s, actions);
    var s' := Run(c, s, actions);
    var x, y := s.visitors[v], s'.visitors[v];
    assert VisitorOk(c, s, v) && VisitorOk(c, s', v);
    StretchArithmetic(c, x, y, |Pending(s.threads, v)|, |Pending(s'.threads, v)|, s.clock, s'.clock);
  }

  /** Only one thread wins a reset: once lastReset has moved past a value, no swap from it succeeds again. */
  lemma {:induction false} ResetIsWonOnce(c: Config, s: State, t: nat, actions: seq<Action>)
    requires c.Valid() && Inv(c, s) && t in s.threads && s.threads[t].CasReset?
    requires var pc := s.threads[t]; pc.v < |s.visitors| && s.visitors[pc.v].lastReset == pc.seen
    ensures var v := s.threads[t].v;
            var later := Run(c, Operate(c, s, t), actions);
            v < |later.visitors| && later.visitors[v].lastReset > s.threads[t].seen + c.window
  {
    assert ThreadOk(c, s, s.threads[t]);
    OperateKeepsInv(c, s, t);
    var v := s.threads[t].v;
    RunEvolves(c, Operate(c, s, t), actions, v);
    var x, y := Operate(c, s, t).visitors[v], Run(c, Operate(c, s, t), actions).visitors[v];
    TimesMonotone(0, y.resets - x.resets, c.window + 1);
  }
}
