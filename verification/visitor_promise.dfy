/**
 "Rate requests per window" (api/ratelimit.go) against what the lock-free limiter lets through: how much a
 stretch of a run can answer with true, and runs that reach it for every configuration.
 */
module VisitorPromise {
  import opened Arithmetic
  import opened VisitorLimiter
  import opened VisitorAnswers

  const IP := "127.0.0.1"

  lemma {:induction false} RunConcat(c: Config, s: State, a: seq<Action>, b: seq<Action>)
    ensures Run(c, s, a + b) == Run(c, Run(c, s, a), b)
    decreases |a|
  {
    if a == [] {
      assert a + b == b;
    } else {
      RunConcat(c, Step(c, s, a[0]), a[1..], b);
      assert (a + b)[1..] == a[1..] + b;
    }
  }

  // ---- Bursts of calls by one thread ----

  function Burst(t: nat, n: nat): seq<Action> {
    if n == 0 then [] else Burst(t, n - 1) + Solo(t, IP)
  }

  /** The limiter serves visitor v, and thread t may call. */
  ghost predicate Ready(c: Config, s: State, t: nat, v: nat) {
    && c.Valid() && Inv(c, s) && Free(s, t)
    && IP in s.current && s.current[IP] == v < |s.visitors|
  }

  function Spent(y: Visitor, n: nat): Visitor {
    y.(tokens := y.tokens - n, grants := y.grants + n)
  }

  /** n calls in a row, with n tokens left or refilled, are all granted. */
  lemma {:induction false} BurstIsGranted(c: Config, s: State, t: nat, v: nat, n: nat)
    requires Ready(c, s, t, v) && 0 < n <= Renewed(c, s.visitors[v], s.clock).tokens
    ensures var y := Renewed(c, s.visitors[v], s.clock);
            Run(c, s, Burst(t, n)) == Alone(s, t, v, Spent(y, n), true)
    ensures Inv(c, Run(c, s, Burst(t, n)))
  {
    var y := Renewed(c, s.visitors[v], s.clock);
    RunKeepsInv(c, s, Burst(t, n));
    RunConcat(c, s, Burst(t, n - 1), Solo(t, IP));
    if n == 1 {
      CallAlone(c, s, t, IP);
    } else {
      BurstIsGranted(c, s, t, v, n - 1);
      var s1 := Run(c, s, Burst(t, n - 1));
      CallAlone(c, s1, t, IP);
      assert s1.visitors[v] == Spent(y, n - 1) && Renewed(c, s1.visitors[v], s1.clock) == s1.visitors[v];
      assert Run(c, s, Burst(t, n)) == Alone(s1, t, v, Charged(Spent(y, n - 1)), true);
      assert Alone(s1, t, v, Spent(y, n), true) == Alone(s, t, v, Spent(y, n), true);
    }
  }

  /** Time passes, and the next rate calls are granted out of one reset. */
  lemma {:induction false} WindowIsGranted(c: Config, s: State, t: nat, v: nat, d: nat)
    requires Ready(c, s, t, v) && s.clock + d - s.visitors[v].lastReset > c.window
    ensures var s' := s.(clock := s.clock + d);
            var y := Renewed(c, s.visitors[v], s'.clock);
            Run(c, s, [Tick(d)] + Burst(t, c.rate)) == Alone(s', t, v, Spent(y, c.rate), true)
    ensures Ready(c, Run(c, s, [Tick(d)] + Burst(t, c.rate)), t, v)
  {
    var s' := s.(clock := s.clock + d);
    StepKeepsInv(c, s, Tick(d));
    assert ([Tick(d)] + Burst(t, c.rate))[1..] == Burst(t, c.rate);
    BurstIsGranted(c, s', t, v, c.rate);
  }

  // ---- The state with a published, untouched visitor ----

  /** Thread 1 publishes the visitor and is not scheduled again. */
  const PUBLISH: seq<Action> := [Call(1, IP)] + Turns(1, 3)

  function Published(c: Config, start: int): State {
    State(start, [Visitor(c.rate, start, start, 0, 0, 0)], map[IP := 0], map[1 := ReadClock(0)])
  }

  lemma {:induction false} PublishRun(c: Config, start: int)
    requires c.Valid()
    ensures Run(c, Initial(start), PUBLISH) == Published(c, start)
    ensures Ready(c, Published(c, start), 0, 0)
  {
    PublishesAlone(c, Initial(start), 1, IP, 3);
    RunKeepsInv(c, Initial(start), PUBLISH);
  }

  // ---- Every window used to the full ----

  /** rate calls at once, and rate calls after each of q windows. */
  function Ladder(c: Config, q: nat): seq<Action>
    requires c.Valid()
  {
    if q == 0 then Burst(0, c.rate) else Ladder(c, q - 1) + ([Tick(c.window + 1)] + Burst(0, c.rate))
  }

  lemma {:induction false} LadderIsGranted(c: Config, start: int, q: nat)
    requires c.Valid()
    ensures var s := Run(c, Published(c, start), Ladder(c, q));
            && Ready(c, s, 0, 0) && s.clock == start + Times(q, c.window + 1)
            && s.visitors[0].created == start && s.visitors[0].stores == q
            && s.visitors[0].grants == Times(1 + q, c.rate)
  {
    PublishRun(c, start);
    if q == 0 {
      BurstIsGranted(c, Published(c, start), 0, 0, c.rate);
      assert Times(1, c.rate) == c.rate;
    } else {
      LadderIsGranted(c, start, q - 1);
      var s := Run(c, Published(c, start), Ladder(c, q - 1));
      assert VisitorOk(c, s, 0);
      RunConcat(c, Published(c, start), Ladder(c, q - 1), [Tick(c.window + 1)] + Burst(0, c.rate));
      WindowIsGranted(c, s, 0, 0, c.window + 1);
    }
  }

  /** The bound on the answers since creation is attained, for every configuration and number of windows. */
  lemma {:induction false} BoundIsAttained(c: Config, start: int, q: nat)
    requires c.Valid()
    ensures var s := Run(c, Initial(start), PUBLISH + Ladder(c, q));
            && 0 < |s.visitors| && (s.clock - s.visitors[0].created) / (c.window + 1) == q
            && Answers(c, Initial(start), PUBLISH + Ladder(c, q), 0)
               == c.rate * (1 + (s.clock - s.visitors[0].created) / (c.window + 1))
  {
    AnswersAreGrants(c, Initial(start), PUBLISH + Ladder(c, q), 0);
    PublishRun(c, start);
    RunConcat(c, Initial(start), PUBLISH, Ladder(c, q));
    LadderIsGranted(c, start, q);
    TimesIsProduct(1 + q, c.rate);
    TimesIsProduct(q, c.window + 1);
    DivModUnique(Times(q, c.window + 1), c.window + 1, q, 0);
  }

  // ---- The promise is broken, for every configuration ----

  /** Calls on visitor v that return true during a stretch that follows a run. */
  ghost function Granted(c: Config, start: int, before: seq<Action>, stretch: seq<Action>, v: nat): int {
    Answers(c, Run(c, Initial(start), before), stretch, v)
  }

  ghost function Elapsed(c: Config, start: int, before: seq<Action>, stretch: seq<Action>): int {
    Run(c, Run(c, Initial(start), before), stretch).clock - Run(c, Initial(start), before).clock
  }

  /** Calls one after the other, undisturbed: rate just before the window has passed, and rate just after. */
  lemma {:induction false} TwiceTheRateInOneSecond(c: Config, start: int)
    requires c.Valid()
    ensures var before := PUBLISH + [Tick(c.window)];
            var stretch := Burst(0, c.rate) + ([Tick(1)] + Burst(0, c.rate));
            Granted(c, start, before, stretch, 0) == 2 * c.rate && Elapsed(c, start, before, stretch) == 1
  {
    var s := Published(c, start).(clock := start + c.window);
    PublishRun(c, start);
    RunConcat(c, Initial(start), PUBLISH, [Tick(c.window)]);
    assert [Tick(c.window)][1..] == [];
    assert Run(c, Published(c, start), [Tick(c.window)]) == s;
    StepKeepsInv(c, Published(c, start), Tick(c.window));
    BurstIsGranted(c, s, 0, 0, c.rate);
    RunConcat(c, s, Burst(0, c.rate), [Tick(1)] + Burst(0, c.rate));
    WindowIsGranted(c, Run(c, s, Burst(0, c.rate)), 0, 0, 1);
    AnswersAreGrants(c, s, Burst(0, c.rate) + ([Tick(1)] + Burst(0, c.rate)), 0);
  }

  /** Thread 1 has won the reset of the published visitor and not yet stored the tokens. */
  function Late(c: Config, start: int): State {
    var now := start + c.window + 1;
    State(now, [Visitor(c.rate, now, start, 1, 0, 0)], map[IP := 0], map[1 := StoreTokens(0)])
  }

  lemma {:induction false} LateRun(c: Config, start: int)
    requires c.Valid()
    ensures Run(c, Initial(start), PUBLISH + ([Tick(c.window + 1)] + Turns(1, 3))) == Late(c, start)
    ensures Ready(c, Late(c, start), 0, 0)
  {
    var actions := [Tick(c.window + 1)] + Turns(1, 3);
    PublishRun(c, start);
    RunConcat(c, Initial(start), PUBLISH, actions);
    assert actions[1..] == Turns(1, 3);
    WinsReset(c, start);
    LateIsReady(c, start, PUBLISH + actions);
  }

  lemma {:induction false} LateIsReady(c: Config, start: int, actions: seq<Action>)
    requires c.Valid() && Run(c, Initial(start), actions) == Late(c, start)
    ensures Ready(c, Late(c, start), 0, 0)
  {
    RunKeepsInv(c, Initial(start), actions);
  }

  lemma {:induction false} WinsReset(c: Config, start: int)
    ensures Run(c, Published(c, start).(clock := start + c.window + 1), Turns(1, 3)) == Late(c, start)
  {
    var s := Published(c, start).(clock := start + c.window + 1);
    NextTurn(c, s, 1, 3);
    var s1 := Operate(c, s, 1);
    NextTurn(c, s1, 1, 2);
    var s2 := Operate(c, s1, 1);
    NextTurn(c, s2, 1, 1);
    assert Operate(c, s2, 1) == Late(c, start);
  }

  /** The late store makes it twice the rate within one second of the clock. */
  lemma {:induction false} TwiceTheRateAtOnce(c: Config, start: int)
    requires c.Valid()
    ensures var before := PUBLISH + ([Tick(c.window + 1)] + Turns(1, 3));
            var stretch := Burst(0, c.rate) + (Turns(1, 1) + Burst(0, c.rate));
            Granted(c, start, before, stretch, 0) == 2 * c.rate && Elapsed(c, start, before, stretch) == 0
  {
    var s := Late(c, start);
    LateRun(c, start);
    BurstIsGranted(c, s, 0, 0, c.rate);
    RunConcat(c, s, Burst(0, c.rate), Turns(1, 1) + Burst(0, c.rate));
    var s1 := Run(c, s, Burst(0, c.rate));
    RunConcat(c, s1, Turns(1, 1), Burst(0, c.rate));
    NextTurn(c, s1, 1, 1);
    var s2 := Operate(c, s1, 1);
    OperateKeepsInv(c, s1, 1);
    BurstIsGranted(c, s2, 0, 0, c.rate);
    AnswersAreGrants(c, s, Burst(0, c.rate) + (Turns(1, 1) + Burst(0, c.rate)), 0);
  }

  // ---- Exactly when it holds ----

  /** Grants of a stretch are covered by the tokens at its start and by its stores. */
  lemma {:induction false} StretchIsPaidFor(c: Config, s: State, actions: seq<Action>, v: nat)
    requires c.Valid() && Inv(c, s) && v < |s.visitors|
    ensures v < |Run(c, s, actions).visitors|
    ensures var x, y := s.visitors[v], Run(c, s, actions).visitors[v];
            && x.stores <= y.stores && x.tokens <= c.rate
            && y.grants - x.grants <= x.tokens + c.rate * (y.stores - x.stores)
  {
    RunEvolves(c, s, actions, v);
    RunKeepsInv(c, s, actions);
    assert VisitorOk(c, s, v) && VisitorOk(c, Run(c, s, actions), v);
    TimesIsProduct(Run(c, s, actions).visitors[v].stores - s.visitors[v].stores, c.rate);
  }

  /** The stretch follows a run, and d refills of visitor v are stored in it. */
  ghost predicate HasStores(c: Config, start: int, before: seq<Action>, stretch: seq<Action>, v: nat, d: nat) {
    var s := Run(c, Initial(start), before);
    var s' := Run(c, s, stretch);
    v < |s.visitors| && v < |s'.visitors| && s'.visitors[v].stores == s.visitors[v].stores + d
  }

  /**
   The most that a stretch with d stores can grant is (1 + d) * rate. So a stretch is sure to keep to the rate
   if and only if no refill is stored in it.
   */
  lemma {:induction false} StretchLimitIff(c: Config, d: nat, limit: int)
    requires c.Valid()
    ensures (forall start, before, stretch, v: nat :: HasStores(c, start, before, stretch, v, d) ==>
                                                        Granted(c, start, before, stretch, v) <= limit)
            <==> limit >= c.rate * (1 + d)
    ensures c.rate >= c.rate * (1 + d) <==> d == 0
  {
    MulGap(c.rate, 0, 1 + d);
    if limit >= c.rate * (1 + d) {
      forall start, before, stretch, v: nat | HasStores(c, start, before, stretch, v, d)
        ensures Granted(c, start, before, stretch, v) <= limit
      {
        RunKeepsInv(c, Initial(start), before);
        StretchIsPaidFor(c, Run(c, Initial(start), before), stretch, v);
        AnswersAreGrants(c, Run(c, Initial(start), before), stretch, v);
      }
    } else {
      LadderHasStores(c, d);
    }
  }

  lemma {:induction false} LadderHasStores(c: Config, d: nat)
    requires c.Valid()
    ensures HasStores(c, 0, PUBLISH, Ladder(c, d), 0, d)
    ensures Granted(c, 0, PUBLISH, Ladder(c, d), 0) == c.rate * (1 + d)
  {
    PublishRun(c, 0);
    LadderIsGranted(c, 0, d);
    TimesIsProduct(1 + d, c.rate);
    AnswersAreGrants(c, Published(c, 0), Ladder(c, d), 0);
  }
}
