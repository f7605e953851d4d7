/**
 What the lock-free limiter (api/ratelimit.go) answers its callers. The counter grants is history; here it is
 tied to the calls that return true, so that the bounds speak about answers.
 */
module VisitorAnswers {
  import opened Arithmetic
  import opened VisitorLimiter

  /** The visitor a thread works on, once it has one. */
  function Target(pc: Pc): int {
    match pc
    case ReadClock(v) => v
    case LoadReset(v, _) => v
    case CasReset(v, _, _) => v
    case StoreTokens(v) => v
    case LoadTokens(v) => v
    case CasTokens(v, _) => v
    case _ => -1
  }

  /** 1 if this step is the one in which a thread working on visitor v returns true. */
  ghost function Answer(c: Config, s: State, a: Action, v: int): int {
    if a.Advance? && a.t in s.threads && !s.threads[a.t].Done? && Target(s.threads[a.t]) == v
       && a.t in Step(c, s, a).threads && Step(c, s, a).threads[a.t] == Done(true) then 1 else 0
  }

  /** How many calls return true during a run after working on visitor v. */
  ghost function Answers(c: Config, s: State, actions: seq<Action>, v: int): int
    decreases |actions|
  {
    if actions == [] then 0
    else Answer(c, s, actions[0], v) + Answers(c, Step(c, s, actions[0]), actions[1..], v)
  }

  function GrantsOf(s: State, v: nat): nat {
    if v < |s.visitors| then s.visitors[v].grants else 0
  }

  /**
   A thread returns true in exactly the step that raises the grants of its visitor by one; no other step, and
   no other visitor, sees a grant.
   */
  lemma {:induction false} AnswerIsGrant(c: Config, s: State, a: Action, v: nat)
    requires c.Valid() && Inv(c, s)
    ensures GrantsOf(Step(c, s, a), v) == GrantsOf(s, v) + Answer(c, s, a, v)
  {
    if a.Advance? && a.t in s.threads {
      assert ThreadOk(c, s, s.threads[a.t]);
    }
  }

  /** No call returns true before it has a visitor to charge. */
  lemma {:induction false} NoAnswerForFree(c: Config, s: State, a: Action)
    ensures Answer(c, s, a, -1) == 0
  {
  }

  /** A call is denied only at a moment when its visitor has no token left: losing a race never denies. */
  lemma {:induction false} DeniedOnlyWhenEmpty(c: Config, s: State, t: nat)
    requires c.Valid() && Inv(c, s) && t in s.threads && !s.threads[t].Done?
    requires t in Operate(c, s, t).threads && Operate(c, s, t).threads[t] == Done(false)
    ensures var v := Target(s.threads[t]);
            0 <= v < |s.visitors| && s.visitors[v].tokens == 0
  {
    assert ThreadOk(c, s, s.threads[t]);
    assert VisitorOk(c, s, Target(s.threads[t]));
  }

  /** A thread works on the visitor filed for its address, and stays with it until it is done. */
  lemma {:induction false} TargetIsFiled(c: Config, s: State, t: nat)
    requires c.Valid() && Inv(c, s) && t in s.threads
    ensures var pc, s' := s.threads[t], Operate(c, s, t);
            && t in s'.threads
            && (pc.Lookup? || pc.Publish? ==>
                  Target(s'.threads[t]) == if pc.ip in s'.current then s'.current[pc.ip] else -1)
            && (Target(pc) >= 0 && !s'.threads[t].Done? ==> Target(s'.threads[t]) == Target(pc))
  {
    assert ThreadOk(c, s, s.threads[t]);
  }

  /** The visitor of an address is replaced only after it has been removed. */
  lemma {:induction false} VisitorIsKept(c: Config, s: State, a: Action, ip: string)
    requires ip in s.current && a != Forget(ip)
    ensures ip in Step(c, s, a).current && Step(c, s, a).current[ip] == s.current[ip]
  {
  }

  /** Removal makes room for a new visitor, and touches no other address. */
  lemma {:induction false} ForgottenIsGone(c: Config, s: State, ip: string, other: string)
    requires other != ip
    ensures var s' := Step(c, s, Forget(ip));
            && ip !in s'.current && s'.visitors == s.visitors && s'.threads == s.threads
            && (other in s'.current <==> other in s.current)
  {
  }

  /** How many steps of its own a call still needs if it loses no race for a token. */
  function StepsLeft(pc: Pc): nat {
    match pc
    case Lookup(_) => 9
    case Prepare(_) => 8
    case Publish(_, _) => 7
    case ReadClock(_) => 6
    case LoadReset(_, _) => 5
    case CasReset(_, _, _) => 4
    case StoreTokens(_) => 3
    case LoadTokens(_) => 2
    case CasTokens(_, _) => 1
    case Done(_) => 0
  }

  /**
   Lock-freedom: every step of a call brings it nearer to its answer, unless it loses the race for a token, and
   then another call has taken or stored tokens since it looked.
   */
  lemma {:induction false} CallMakesProgress(c: Config, s: State, t: nat)
    requires c.Valid() && Inv(c, s) && t in s.threads && !s.threads[t].Done?
    ensures var pc, s' := s.threads[t], Operate(c, s, t);
            && t in s'.threads
            && (|| StepsLeft(s'.threads[t]) < StepsLeft(pc)
                || (pc.CasTokens? && s.visitors[pc.v].tokens != pc.seenTokens && s'.threads[t] == LoadTokens(pc.v)))
  {
    assert ThreadOk(c, s, s.threads[t]);
  }

  lemma {:induction false} AnswersAreGrants(c: Config, s: State, actions: seq<Action>, v: nat)
    requires c.Valid() && Inv(c, s)
    ensures Answers(c, s, actions, v) == GrantsOf(Run(c, s, actions), v) - GrantsOf(s, v)
    decreases |actions|
  {
    if actions != [] {
      AnswerIsGrant(c, s, actions[0], v);
      StepKeepsInv(c, s, actions[0]);
      AnswersAreGrants(c, Step(c, s, actions[0]), actions[1..], v);
    }
  }

  // ---- All visitors together ----

  /** 1 if this step makes a thread return true, whatever it works on. */
  ghost function AnyAnswer(c: Config, s: State, a: Action): int {
    if a.Advance? && a.t in s.threads && !s.threads[a.t].Done?
       && a.t in Step(c, s, a).threads && Step(c, s, a).threads[a.t] == Done(true) then 1 else 0
  }

  ghost function AllAnswers(c: Config, s: State, actions: seq<Action>): int
    decreases |actions|
  {
    if actions == [] then 0
    else AnyAnswer(c, s, actions[0]) + AllAnswers(c, Step(c, s, actions[0]), actions[1..])
  }

  ghost function GrantsBelow(s: State, n: nat): nat {
    if n == 0 then 0 else GrantsBelow(s, n - 1) + GrantsOf(s, n - 1)
  }

  lemma {:induction false} AnswerRaisesSum(c: Config, s: State, a: Action, n: nat)
    requires c.Valid() && Inv(c, s)
    ensures GrantsBelow(Step(c, s, a), n)
            == GrantsBelow(s, n) + (if exists v: nat :: v < n && Answer(c, s, a, v) == 1 then 1 else 0)
  {
    if n > 0 {
      AnswerRaisesSum(c, s, a, n - 1);
      AnswerIsGrant(c, s, a, n - 1);
      if Answer(c, s, a, n - 1) == 1 {
        assert forall v: nat :: v < n - 1 ==> Answer(c, s, a, v) == 0;
      } else if exists v: nat :: v < n && Answer(c, s, a, v) == 1 {
        var v: nat :| v < n && Answer(c, s, a, v) == 1;
        assert v < n - 1;
      }
    }
  }

  lemma {:induction false} AnyAnswerHasTarget(c: Config, s: State, a: Action, n: nat)
    requires c.Valid() && Inv(c, s) && |s.visitors| <= n
    ensures AnyAnswer(c, s, a) == if exists v: nat :: v < n && Answer(c, s, a, v) == 1 then 1 else 0
  {
    if AnyAnswer(c, s, a) == 1 {
      assert ThreadOk(c, s, s.threads[a.t]);
      var v := Target(s.threads[a.t]);
      assert 0 <= v < n && Answer(c, s, a, v) == 1;
    }
  }

  lemma {:induction false} VisitorsOnlyGrow(c: Config, s: State, actions: seq<Action>)
    ensures |s.visitors| <= |Run(c, s, actions).visitors|
    decreases |actions|
  {
    if actions != [] {
      VisitorsOnlyGrow(c, Step(c, s, actions[0]), actions[1..]);
    }
  }

  /** Over any run, the calls that return true are as many as the grants of all visitors together. */
  lemma {:induction false} AllAnswersAreGrants(c: Config, s: State, actions: seq<Action>, n: nat)
    requires c.Valid() && Inv(c, s) && |Run(c, s, actions).visitors| <= n
    ensures AllAnswers(c, s, actions) == GrantsBelow(Run(c, s, actions), n) - GrantsBelow(s, n)
    decreases |actions|
  {
    VisitorsOnlyGrow(c, s, actions);
    if actions != [] {
      AnswerRaisesSum(c, s, actions[0], n);
      AnyAnswerHasTarget(c, s, actions[0], n);
      StepKeepsInv(c, s, actions[0]);
      AllAnswersAreGrants(c, Step(c, s, actions[0]), actions[1..], n);
    }
  }

  // ---- The bounds on answers ----

  /**
   Main result. Whatever the interleaving, the calls that a visitor answers with true since it was created are
   at most rate for the first window and rate for every further window + 1 seconds.
   */
  lemma {:induction false} AnswersAreBounded(c: Config, clock: int, actions: seq<Action>, v: nat)
    requires c.Valid()
    ensures var s := Run(c, Initial(clock), actions);
            v < |s.visitors| ==>
              && s.visitors[v].created <= s.clock
              && Answers(c, Initial(clock), actions, v)
                 <= c.rate * (1 + (s.clock - s.visitors[v].created) / (c.window + 1))
  {
    AnswersAreGrants(c, Initial(clock), actions, v);
    GrantsAreBounded(c, clock, actions, v);
  }

  /** The same between any two moments of a run. */
  lemma {:induction false} AnswersInAnyStretch(c: Config, s: State, actions: seq<Action>, v: nat)
    requires c.Valid() && Inv(c, s) && v < |s.visitors|
    ensures var s' := Run(c, s, actions);
            && v < |s'.visitors| && s.visitors[v].lastReset <= s'.visitors[v].lastReset <= s'.clock
            && Answers(c, s, actions, v)
               <= c.rate * (1 + |Pending(s.threads, v)|
                            + (s'.visitors[v].lastReset - s.visitors[v].lastReset) / (c.window + 1))
  {
    AnswersAreGrants(c, s, actions, v);
    GrantsInAnyStretch(c, s, actions, v);
  }
}
