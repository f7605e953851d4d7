/**
 The circuit breaker (circuitbreaker/breaker.go). Execute is split into its begin, which admits or rejects
 the request, and its finish, which records the result, so requests overlap freely; each part is one step.
 */
module CircuitBreaker {

  datatype Mode = Closed | Open | HalfOpen

  datatype Config = Config(failureThreshold: int, successThreshold: int, timeout: int) {
    predicate Valid() {
      failureThreshold >= 1 && successThreshold >= 1
    }
  }

  /** inFlight and stale are history: requests admitted and not finished, and those a Reset left behind. */
  datatype State = State(
    mode: Mode, failures: int, successes: int, lastChange: int,
    total: int, successful: int, failed: int, rejected: int, inFlight: nat, stale: int)

  /** Begin reads the clock twice: in getState, and again in allowRequest if it finds the breaker open. */
  datatype Event = Begin(now: int, later: int) | Finish(ok: bool, now: int) | Poll(now: int) | Reset(now: int) {
    function LastReading(): int {
      if Begin? then later else now
    }
  }

  function New(now: int): State {
    State(Closed, 0, 0, now, 0, 0, 0, 0, 0, 0)
  }

  function TransitionTo(s: State, mode: Mode, now: int): State {
    if s.mode == mode then s
    else
      var s' := s.(mode := mode, lastChange := now);
      if mode == Closed then s'.(failures := 0, successes := 0)
      else if mode == HalfOpen then s'.(successes := 0)
      else s'
  }

  /** getState: an open breaker turns half-open by itself once the timeout has passed. */
  function Observe(c: Config, s: State, now: int): State {
    if s.mode == Open && now - s.lastChange > c.timeout then TransitionTo(s, HalfOpen, now) else s
  }

  function Admit(c: Config, s: State, now: int, later: int): (State, bool) {
    var s' := Observe(c, Observe(c, s.(total := s.total + 1), now), later);
    if s'.mode == Open then (s'.(rejected := s'.rejected + 1), false)
    else (s'.(inFlight := s'.inFlight + 1), true)
  }

  function RecordSuccess(c: Config, s: State, now: int): State {
    var s' := Observe(c, s, now);
    if s'.mode == HalfOpen then
      var s'' := s'.(successes := s'.successes + 1);
      if s''.successes >= c.successThreshold then TransitionTo(s'', Closed, now) else s''
    else if s'.mode == Closed then s'.(failures := 0)
    else s'
  }

  function RecordFailure(c: Config, s: State, now: int): State {
    var s' := Observe(c, s.(failures := s.failures + 1), now);
    if s'.mode == HalfOpen || (s'.mode == Closed && s'.failures >= c.failureThreshold)
    then TransitionTo(s', Open, now) else s'
  }

  function Complete(c: Config, s: State, ok: bool, now: int): State
    requires s.inFlight > 0
  {
    var s' := if ok then RecordSuccess(c, s, now) else RecordFailure(c, s, now);
    var s'' := if ok then s'.(successful := s'.successful + 1) else s'.(failed := s'.failed + 1);
    s''.(inFlight := s.inFlight - 1)
  }

  function Step(c: Config, s: State, e: Event): State
    requires e.Finish? ==> s.inFlight > 0
  {
    match e
    case Begin(now, later) => Admit(c, s, now, later).0
    case Finish(ok, now) => Complete(c, s, ok, now)
    case Poll(now) => Observe(c, s, now)
    case Reset(now) => New(now).(inFlight := s.inFlight, stale := s.inFlight)
  }

  // ---- Every run ----

  ghost predicate Inv(c: Config, s: State) {
    && (s.mode == Closed ==> 0 <= s.failures < c.failureThreshold)
    && (s.mode == HalfOpen ==> 0 <= s.successes < c.successThreshold)
    && s.total + s.stale == s.successful + s.failed + s.rejected + s.inFlight
  }

  /** A run finishes only requests that are in flight. */
  ghost predicate Feasible(c: Config, s: State, events: seq<Event>)
    decreases |events|, 0
  {
    events == [] ||
    (var n := |events| - 1;
     Feasible(c, s, events[..n]) && (events[n].Finish? ==> Run(c, s, events[..n]).inFlight > 0))
  }

  ghost function Run(c: Config, s: State, events: seq<Event>): State
    requires Feasible(c, s, events)
    decreases |events|, 1
  {
    if events == [] then s
    else Step(c, Run(c, s, events[..|events| - 1]), events[|events| - 1])
  }

  lemma StepKeepsInv(c: Config, s: State, e: Event)
    requires c.Valid() && Inv(c, s) && (e.Finish? ==> s.inFlight > 0)
    ensures Inv(c, Step(c, s, e))
  {
  }

  /**
   In every run, Resets included: failures and successes stay below their thresholds where they count, and
   every request is accounted for as finished, rejected or in flight.
   */
  lemma {:induction false} RunKeepsInv(c: Config, start: int, events: seq<Event>)
    requires c.Valid() && Feasible(c, New(start), events)
    ensures Inv(c, Run(c, New(start), events))
  {
    if events != [] {
      var n := |events| - 1;
      RunKeepsInv(c, start, events[..n]);
      StepKeepsInv(c, Run(c, New(start), events[..n]), events[n]);
    }
  }

  /** Without a Reset the four counters and the requests in flight add up by themselves. */
  lemma {:induction false} RequestsAddUp(c: Config, start: int, events: seq<Event>)
    requires c.Valid() && Feasible(c, New(start), events) && forall e :: e in events ==> !e.Reset?
    ensures var s := Run(c, New(start), events);
            s.total == s.successful + s.failed + s.rejected + s.inFlight
  {
    RunKeepsInv(c, start, events);
    NothingStale(c, start, events);
  }

  lemma {:induction false} NothingStale(c: Config, start: int, events: seq<Event>)
    requires Feasible(c, New(start), events) && forall e :: e in events ==> !e.Reset?
    ensures Run(c, New(start), events).stale == 0
  {
    if events != [] {
      NothingStale(c, start, events[..|events| - 1]);
    }
  }

  /** A request is rejected exactly while the breaker is open and the timeout has not passed. */
  lemma RejectedIff(c: Config, s: State, now: int, later: int)
    requires now <= later
    ensures !Admit(c, s, now, later).1 <==> s.mode == Open && later - s.lastChange <= c.timeout
  {
  }

  /** Short of a Reset, an open breaker stays open, untouched, until more than the timeout has passed. */
  lemma OpenHoldsForTimeout(c: Config, s: State, e: Event)
    requires s.mode == Open && !e.Reset? && (e.Finish? ==> s.inFlight > 0)
    requires e.now <= e.LastReading() <= s.lastChange + c.timeout
    ensures Step(c, s, e).mode == Open && Step(c, s, e).lastChange == s.lastChange
  {
  }

  ghost function Begins(events: seq<Event>): nat {
    if events == [] then 0
    else Begins(events[..|events| - 1]) + if events[|events| - 1].Begin? then 1 else 0
  }

  /** While the timeout lasts, whatever finishes or is asked, an open breaker turns every request away. */
  lemma {:induction false} OpenRejectsAll(c: Config, s: State, events: seq<Event>)
    requires Feasible(c, s, events) && s.mode == Open
    requires forall e :: e in events ==> !e.Reset? && e.now <= e.LastReading() <= s.lastChange + c.timeout
    ensures var s' := Run(c, s, events);
            && s'.mode == Open && s'.lastChange == s.lastChange
            && s'.rejected == s.rejected + Begins(events) && s'.inFlight <= s.inFlight
  {
    if events != [] {
      var n := |events| - 1;
      OpenRejectsAll(c, s, events[..n]);
      assert events[n] in events;
    }
  }

  /**
   The failures recorded since the breaker was last closed, reset or saw a success while closed; counted
   from the events and from the times at which the breaker was closed, not from its counters.
   */
  ghost function FailureStreak(c: Config, start: int, events: seq<Event>): nat
    requires Feasible(c, New(start), events)
  {
    if events == [] then 0
    else
      var n := |events| - 1;
      var before := Run(c, New(start), events[..n]);
      if before.mode != Closed || events[n].Reset? then 0
      else if !events[n].Finish? then FailureStreak(c, start, events[..n])
      else if events[n].ok then 0
      else FailureStreak(c, start, events[..n]) + 1
  }

  lemma {:induction false} ClosedCountsStreak(c: Config, start: int, events: seq<Event>)
    requires c.Valid() && Feasible(c, New(start), events) && Run(c, New(start), events).mode == Closed
    ensures Run(c, New(start), events).failures == FailureStreak(c, start, events)
  {
    if events != [] {
      var n := |events| - 1;
      var before := Run(c, New(start), events[..n]);
      if before.mode == Closed {
        ClosedCountsStreak(c, start, events[..n]);
      }
    }
  }

  /** A closed breaker opens exactly on the failure that completes a streak of failureThreshold. */
  lemma {:induction false} OpensIff(c: Config, start: int, events: seq<Event>, e: Event)
    requires c.Valid() && Feasible(c, New(start), events) && Run(c, New(start), events).mode == Closed
    requires e.Finish? ==> Run(c, New(start), events).inFlight > 0
    ensures Step(c, Run(c, New(start), events), e).mode != Closed
            <==> e.Finish? && !e.ok && FailureStreak(c, start, events) + 1 == c.failureThreshold
    ensures Step(c, Run(c, New(start), events), e).mode != HalfOpen
  {
    ClosedCountsStreak(c, start, events);
    RunKeepsInv(c, start, events);
  }

  // ---- Leaving open, and closing ----

  /** Once the timeout has passed, the next poll or request finds the breaker half-open, from that moment on. */
  lemma {:induction false} TimeoutHalfOpens(c: Config, s: State, now: int, later: int)
    requires s.mode == Open && now - s.lastChange > c.timeout
    ensures Step(c, s, Poll(now)) == s.(mode := HalfOpen, successes := 0, lastChange := now)
    ensures Step(c, s, Begin(now, later)).mode == HalfOpen && Step(c, s, Begin(now, later)).lastChange == now
    ensures Step(c, s, Begin(now, later)).inFlight == s.inFlight + 1
  {
  }

  /** A reset closes the breaker and clears its counters; what is in flight stays in flight. */
  lemma {:induction false} ResetCloses(c: Config, s: State, now: int)
    ensures var s' := Step(c, s, Reset(now));
            && s'.mode == Closed && s'.failures == 0 && s'.successes == 0 && s'.lastChange == now
            && s'.total == s'.successful == s'.failed == s'.rejected == 0 && s'.inFlight == s.inFlight
  {
  }

  /** The successes recorded half-open since the breaker last became half-open. */
  ghost function SuccessStreak(c: Config, start: int, events: seq<Event>): nat
    requires Feasible(c, New(start), events)
  {
    if events == [] then 0
    else
      var n := |events| - 1;
      var before, e := Run(c, New(start), events[..n]), events[n];
      if e.Reset? then 0
      else
        (if before.mode == HalfOpen then SuccessStreak(c, start, events[..n]) else 0)
        + (if e.Finish? && e.ok && Observe(c, before, e.now).mode == HalfOpen then 1 else 0)
  }

  lemma {:induction false} HalfOpenCountsStreak(c: Config, start: int, events: seq<Event>)
    requires c.Valid() && Feasible(c, New(start), events) && Run(c, New(start), events).mode == HalfOpen
    ensures Run(c, New(start), events).successes == SuccessStreak(c, start, events)
  {
    if events != [] {
      var n := |events| - 1;
      if Run(c, New(start), events[..n]).mode == HalfOpen {
        HalfOpenCountsStreak(c, start, events[..n]);
      }
    }
  }

  /** Short of a reset, the breaker closes exactly on the success that completes successThreshold half-open ones. */
  lemma {:induction false} ClosesIff(c: Config, start: int, events: seq<Event>, e: Event)
    requires c.Valid() && Feasible(c, New(start), events) && Run(c, New(start), events).mode != Closed
    requires !e.Reset? && (e.Finish? ==> Run(c, New(start), events).inFlight > 0)
    ensures Feasible(c, New(start), events + [e])
    ensures Step(c, Run(c, New(start), events), e).mode == Closed
            <==> SuccessStreak(c, start, events + [e]) == c.successThreshold
  {
    var s := Run(c, New(start), events);
    assert (events + [e])[..|events|] == events;
    RunKeepsInv(c, start, events);
    if s.mode == HalfOpen {
      HalfOpenCountsStreak(c, start, events);
    }
  }

  // ---- The statistics ----

  ghost function Finished(events: seq<Event>, ok: bool): nat {
    if events == [] then 0
    else
      var e := events[|events| - 1];
      Finished(events[..|events| - 1], ok) + if e.Finish? && e.ok == ok then 1 else 0
  }

  /** Between resets the statistics count the requests begun, succeeded and failed. */
  lemma {:induction false} OutcomesAreCounted(c: Config, start: int, events: seq<Event>)
    requires Feasible(c, New(start), events) && forall e :: e in events ==> !e.Reset?
    ensures var s := Run(c, New(start), events);
            && s.total == Begins(events)
            && s.successful == Finished(events, true) && s.failed == Finished(events, false)
  {
    if events != [] {
      var n := |events| - 1;
      OutcomesAreCounted(c, start, events[..n]);
      assert events[n] in events;
    }
  }

  /** A half-open breaker goes back to open on any failure, and closes on the success that reaches the threshold. */
  lemma HalfOpenDecides(c: Config, s: State, e: Event)
    requires c.Valid() && Inv(c, s) && s.mode == HalfOpen && e.Finish? && s.inFlight > 0
    ensures !e.ok ==> Step(c, s, e).mode == Open && Step(c, s, e).lastChange == e.now
    ensures e.ok ==>
              if s.successes + 1 == c.successThreshold
              then Step(c, s, e).mode == Closed && Step(c, s, e).failures == 0 && Step(c, s, e).successes == 0
              else Step(c, s, e).mode == HalfOpen && Step(c, s, e).successes == s.successes + 1
  {
  }

  // ---- The breaker object ----

  class Breaker {
    const config: Config
    var mode: Mode
    var failures: int
    var successes: int
    var lastChange: int
    var total: int
    var successful: int
    var failed: int
    var rejected: int
    ghost var inFlight: nat
    ghost var stale: int

    ghost function View(): State
      reads this
    {
      State(mode, failures, successes, lastChange, total, successful, failed, rejected, inFlight, stale)
    }

    constructor (c: Config, now: int)
      ensures config == c && View() == New(now)
    {
      config := c;
      mode, failures, successes, lastChange := Closed, 0, 0, now;
      total, successful, failed, rejected := 0, 0, 0, 0;
      inFlight, stale := 0, 0;
    }

    method ChangeTo(newMode: Mode, now: int)
      modifies this
      ensures View() == TransitionTo(old(View()), newMode, now)
    {
      if mode == newMode {
        return;
      }
      mode, lastChange := newMode, now;
      if newMode == Closed {
        failures, successes := 0, 0;
      } else if newMode == HalfOpen {
        successes := 0;
      }
    }

    method GetState(now: int) returns (m: Mode)
      modifies this
      ensures View() == Observe(config, old(View()), now) && m == mode
    {
      if mode == Open && now - lastChange > config.timeout {
        ChangeTo(HalfOpen, now);
        return HalfOpen;
      }
      return mode;
    }

    method AllowRequest(now: int, later: int) returns (ok: bool)
      modifies this
      ensures View() == Observe(config, Observe(config, old(View()), now), later) && ok == (mode != Open)
    {
      var m := GetState(now);
      match m
      case Closed => return true;
      case HalfOpen => return true;
      case Open =>
        if later - lastChange > config.timeout {
          ChangeTo(HalfOpen, later);
          return true;
        }
        return false;
    }

    /** The part of Execute before the function runs. */
    method BeginRequest(now: int, later: int) returns (admitted: bool)
      modifies this
      ensures (View(), admitted) == Admit(config, old(View()), now, later)
    {
      total := total + 1;
      admitted := AllowRequest(now, later);
      if !admitted {
        rejected := rejected + 1;
      } else {
        inFlight := inFlight + 1;
      }
    }

    method NoteSuccess(now: int)
      modifies this
      ensures View() == RecordSuccess(config, old(View()), now)
    {
      var m := GetState(now);
      if m == HalfOpen {
        successes := successes + 1;
        if successes >= config.successThreshold {
          ChangeTo(Closed, now);
        }
      } else if m == Closed {
        failures := 0;
      }
    }

    method NoteFailure(now: int)
      modifies this
      ensures View() == RecordFailure(config, old(View()), now)
    {
      failures := failures + 1;
      var count := failures;
      var m := GetState(now);
      if m == HalfOpen {
        ChangeTo(Open, now);
      } else if m == Closed && count >= config.failureThreshold {
        ChangeTo(Open, now);
      }
    }

    /** The part of Execute after the function has returned. */
    method FinishRequest(ok: bool, now: int)
      requires inFlight > 0
      modifies this
      ensures View() == Complete(config, old(View()), ok, now)
    {
      if ok {
        NoteSuccess(now);
        successful := successful + 1;
      } else {
        NoteFailure(now);
        failed := failed + 1;
      }
      inFlight := old(inFlight) - 1;
    }

    method ResetBreaker(now: int)
      modifies this
      ensures View() == Step(config, old(View()), Reset(now))
    {
      mode, failures, successes, lastChange := Closed, 0, 0, now;
      total, successful, failed, rejected := 0, 0, 0, 0;
      stale := inFlight;
    }
  }
}
