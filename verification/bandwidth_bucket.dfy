/**
 The bandwidth token bucket (bandwidth/limiter.go): thousandths of a token in unsigned 64-bit arithmetic.
 One call of Take is one step, so its compare-and-swap succeeds at once; the clock never goes back.
 */
module BandwidthBucket {
  import opened Arithmetic

  const WORD := 0x1_0000_0000_0000_0000
  const SCALE := 1000
  const SECOND := 1_000_000_000

  type Uint64 = x: int | 0 <= x < WORD
  type Nanos = x: int | 0 <= x < 0x8000_0000_0000_0000

  datatype Config = Config(maxTokens: Uint64, refillRate: Uint64)

  datatype State = State(tokens: Uint64, lastRefill: Nanos)

  datatype Call = Call(n: int, now: Nanos)

  /** uint64(n * 1000), whatever the sign and size of n. */
  function Wanted(n: int): Uint64 {
    (n * SCALE) % WORD
  }

  function ToAdd(c: Config, elapsed: int): Uint64 {
    if elapsed > 0 && c.refillRate > 0 then ((elapsed * c.refillRate) % WORD) / SECOND else 0
  }

  /** The tokens after refilling, and how many of them a call takes. */
  function Refilled(c: Config, s: State, now: Nanos): Uint64 {
    var sum := (s.tokens + ToAdd(c, now - s.lastRefill)) % WORD;
    if sum > c.maxTokens then c.maxTokens else sum
  }

  function Taken(c: Config, s: State, call: Call): Uint64 {
    if Refilled(c, s, call.now) >= Wanted(call.n) then Wanted(call.n) else Refilled(c, s, call.now)
  }

  function TakeAt(c: Config, s: State, call: Call): (State, int) {
    (State(Refilled(c, s, call.now) - Taken(c, s, call), call.now), Taken(c, s, call) / SCALE)
  }

  predicate Ordered(clock: Nanos, calls: seq<Call>) {
    (calls != [] ==> clock <= calls[0].now) && forall i :: 0 < i < |calls| ==> calls[i - 1].now <= calls[i].now
  }

  ghost function Final(c: Config, s: State, calls: seq<Call>): State
    decreases |calls|
  {
    if calls == [] then s else Final(c, TakeAt(c, s, calls[0]).0, calls[1..])
  }

  /** Total of the amounts returned. */
  ghost function Granted(c: Config, s: State, calls: seq<Call>): int
    decreases |calls|
  {
    if calls == [] then 0
    else TakeAt(c, s, calls[0]).1 + Granted(c, TakeAt(c, s, calls[0]).0, calls[1..])
  }

  lemma {:induction false} ModShrinks(x: nat, m: nat)
    requires m > 0
    ensures 0 <= x % m <= x
  {
  }

  lemma {:induction false} DivMonotone(x: nat, y: nat, d: nat)
    requires x <= y && d > 0
    ensures x / d <= y / d
  {
    DivSuperadditive(x, y - x, d);
  }

  /** Flooring twice never gives more than flooring once. */
  lemma {:induction false} DivSuperadditive(x: nat, y: nat, d: nat)
    requires d > 0
    ensures x / d + y / d <= (x + y) / d
  {
    var q: nat, r: nat := x / d, y / d;
    TimesIsProduct(q, d);
    TimesIsProduct(r, d);
    TimesAdd(q, r, d);
    QuotientBound(q + r, d, x + y);
  }

  /** What a stretch of time can be worth, rounded down once. */
  function Worth(c: Config, elapsed: nat): nat {
    MulNonNegative(c.refillRate, elapsed);
    (c.refillRate * elapsed) / SECOND
  }

  lemma {:induction false} MulNonNegative(a: nat, b: nat)
    ensures a * b >= 0
  {
  }

  lemma {:induction false} ToAddBound(c: Config, elapsed: nat)
    ensures ToAdd(c, elapsed) <= Worth(c, elapsed)
  {
    if elapsed > 0 && c.refillRate > 0 {
      var x: nat := elapsed * c.refillRate;
      assert x == c.refillRate * elapsed;
      ModShrinks(x, WORD);
      DivMonotone(x % WORD, x, SECOND);
    }
  }

  lemma {:induction false} WorthAdds(c: Config, a: nat, b: nat)
    ensures Worth(c, a) + Worth(c, b) <= Worth(c, a + b)
  {
    MulNonNegative(c.refillRate, a);
    MulNonNegative(c.refillRate, b);
    assert c.refillRate * (a + b) == c.refillRate * a + c.refillRate * b;
    DivSuperadditive(c.refillRate * a, c.refillRate * b, SECOND);
  }

  /** One call: what it returns and what stays in the bucket was there or came with the elapsed time. */
  lemma {:induction false} TakeIsPaidFor(c: Config, s: State, call: Call)
    requires s.tokens <= c.maxTokens && s.lastRefill <= call.now
    ensures var (s', granted) := TakeAt(c, s, call);
            && s'.tokens <= c.maxTokens && granted >= 0
            && SCALE * granted + s'.tokens <= s.tokens + ToAdd(c, call.now - s.lastRefill)
  {
    ModShrinks(s.tokens + ToAdd(c, call.now - s.lastRefill), WORD);
  }

  /**
   Main result, over every run of calls with any amounts, wrap-around included: tokens never exceed the
   maximum, and a thousand times what was granted is covered by the initial tokens and the elapsed time.
   */
  lemma {:induction false} GrantsArePaidFor(c: Config, s: State, calls: seq<Call>)
    requires s.tokens <= c.maxTokens && Ordered(s.lastRefill, calls)
    ensures Final(c, s, calls).tokens <= c.maxTokens && s.lastRefill <= Final(c, s, calls).lastRefill
    ensures SCALE * Granted(c, s, calls) + Final(c, s, calls).tokens
            <= s.tokens + Worth(c, Final(c, s, calls).lastRefill - s.lastRefill)
    decreases |calls|
  {
    if calls == [] {
    } else {
      var s' := TakeAt(c, s, calls[0]).0;
      TakeIsPaidFor(c, s, calls[0]);
      GrantsArePaidFor(c, s', calls[1..]);
      ToAddBound(c, s'.lastRefill - s.lastRefill);
      WorthAdds(c, s'.lastRefill - s.lastRefill, Final(c, s, calls).lastRefill - s'.lastRefill);
    }
  }

  /** From creation: a full bucket and the time since. */
  lemma GrantsSinceCreation(c: Config, created: Nanos, calls: seq<Call>, end: Nanos)
    requires Ordered(created, calls) && created <= end && forall call :: call in calls ==> call.now <= end
    ensures SCALE * Granted(c, State(c.maxTokens, created), calls) <= c.maxTokens + Worth(c, end - created)
  {
    var s := State(c.maxTokens, created);
    GrantsArePaidFor(c, s, calls);
    FinalTime(c, s, calls);
    WorthAdds(c, Final(c, s, calls).lastRefill - created, end - Final(c, s, calls).lastRefill);
  }

  lemma {:induction false} FinalTime(c: Config, s: State, calls: seq<Call>)
    ensures Final(c, s, calls).lastRefill == if calls == [] then s.lastRefill else calls[|calls| - 1].now
    decreases |calls|
  {
    if calls != [] {
      FinalTime(c, TakeAt(c, s, calls[0]).0, calls[1..]);
    }
  }

  lemma {:induction false} SmallMod(x: nat)
    requires x < WORD
    ensures x % WORD == x
  {
  }

  /** The 64-bit product refills the whole worth of the elapsed time exactly when it does not wrap. */
  lemma {:induction false} RefillIsExactIff(c: Config, elapsed: nat)
    ensures ToAdd(c, elapsed) == Worth(c, elapsed) <==> elapsed * c.refillRate < WORD
  {
    MulNonNegative(elapsed, c.refillRate);
    var x: nat := elapsed * c.refillRate;
    assert x == c.refillRate * elapsed;
    if x < WORD {
      SmallMod(x);
    } else {
      WrapLosesTime(x);
    }
  }

  lemma {:induction false} WrapLosesTime(x: nat)
    requires x >= WORD
    ensures (x % WORD) / SECOND < x / SECOND
  {
    var rest: nat := x - WORD;
    assert x % WORD <= rest;
    DivMonotone(x % WORD, rest, SECOND);
    DivSuperadditive(rest, WORD, SECOND);
  }

  /** Without wrap-around a call gets what it asks for, limited by the burst and by what has accrued. */
  lemma {:induction false} TakeWithoutWrap(c: Config, s: State, call: Call)
    requires 0 <= call.n && call.n * SCALE < WORD && s.lastRefill <= call.now
    requires (call.now - s.lastRefill) * c.refillRate < WORD
    requires s.tokens + Worth(c, call.now - s.lastRefill) < WORD
    ensures var accrued := s.tokens + Worth(c, call.now - s.lastRefill);
            var available := if accrued < c.maxTokens then accrued else c.maxTokens;
            var taken := if call.n * SCALE < available then call.n * SCALE else available;
            && TakeAt(c, s, call) == (State(available - taken, call.now), taken / SCALE)
            && (call.n * SCALE <= available ==> TakeAt(c, s, call).1 == call.n)
  {
    RefillIsExactIff(c, call.now - s.lastRefill);
    SmallMod(s.tokens + Worth(c, call.now - s.lastRefill));
    SmallMod(call.n * SCALE);
  }

  /** A negative amount wraps to a huge one, so it drains the bucket. */
  lemma {:induction false} NegativeAmountDrains(c: Config, s: State, call: Call)
    requires call.n < 0 && call.n * SCALE + WORD >= c.maxTokens
    ensures TakeAt(c, s, call) == (State(0, call.now), Refilled(c, s, call.now) / SCALE)
  {
    DivModUnique(call.n * SCALE + WORD, WORD, 0, call.n * SCALE + WORD);
    WrapOnce(call.n * SCALE);
  }

  lemma {:induction false} WrapOnce(x: int)
    requires -WORD <= x < 0
    ensures x % WORD == (x + WORD) % WORD
  {
  }

  // ---- What flooring on every call loses ----

  /** The part of a stretch, in billionths of a thousandth, that one refill does not turn into tokens. */
  function Dropped(c: Config, elapsed: nat): int {
    c.refillRate * elapsed - SECOND * ToAdd(c, elapsed)
  }

  /** Without wrap-around it is the remainder of the division. */
  lemma {:induction false} DroppedIsRemainder(c: Config, elapsed: nat)
    requires elapsed * c.refillRate < WORD
    ensures Dropped(c, elapsed) == (c.refillRate * elapsed) % SECOND
  {
    RefillIsExactIff(c, elapsed);
    MulNonNegative(c.refillRate, elapsed);
  }

  lemma {:induction false} DroppedIsPositive(c: Config, elapsed: nat)
    ensures Dropped(c, elapsed) >= 0
  {
    ToAddBound(c, elapsed);
    MulNonNegative(c.refillRate, elapsed);
  }

  /** All refills of a run that starts at clock, and all that they drop. */
  ghost function Refills(c: Config, clock: Nanos, calls: seq<Call>): int
    requires Ordered(clock, calls)
    decreases |calls|
  {
    if calls == [] then 0 else ToAdd(c, calls[0].now - clock) + Refills(c, calls[0].now, calls[1..])
  }

  ghost function AllDropped(c: Config, clock: Nanos, calls: seq<Call>): int
    requires Ordered(clock, calls)
    decreases |calls|
  {
    if calls == [] then 0 else Dropped(c, calls[0].now - clock) + AllDropped(c, calls[0].now, calls[1..])
  }

  function End(clock: Nanos, calls: seq<Call>): Nanos {
    if calls == [] then clock else calls[|calls| - 1].now
  }

  lemma {:induction false} TimeIsSplit(c: Config, clock: Nanos, calls: seq<Call>)
    requires Ordered(clock, calls)
    ensures End(clock, calls) >= clock && AllDropped(c, clock, calls) >= 0
    ensures c.refillRate * (End(clock, calls) - clock)
            == SECOND * Refills(c, clock, calls) + AllDropped(c, clock, calls)
    decreases |calls|
  {
    if calls != [] {
      var now := calls[0].now;
      TimeIsSplit(c, now, calls[1..]);
      assert End(clock, calls) == End(now, calls[1..]);
      DroppedIsPositive(c, now - clock);
      assert c.refillRate * (End(clock, calls) - clock)
          == c.refillRate * (now - clock) + c.refillRate * (End(clock, calls) - now);
    }
  }

  /**
   A run refills what the whole stretch is worth less the whole thousandths among what its refills drop;
   so it refills all of it if and only if the dropped parts stay below one thousandth together.
   */
  lemma {:induction false} RefillsOverRun(c: Config, clock: Nanos, calls: seq<Call>)
    requires Ordered(clock, calls)
    ensures End(clock, calls) >= clock
    ensures Refills(c, clock, calls) + AllDropped(c, clock, calls) / SECOND == Worth(c, End(clock, calls) - clock)
    ensures Refills(c, clock, calls) == Worth(c, End(clock, calls) - clock)
            <==> AllDropped(c, clock, calls) < SECOND
  {
    TimeIsSplit(c, clock, calls);
  }

  /** Two stretches are worth as much as one exactly when their remainders stay below one thousandth. */
  lemma {:induction false} WorthSplitsIff(c: Config, a: nat, b: nat)
    ensures Worth(c, a) + Worth(c, b) == Worth(c, a + b)
            <==> (c.refillRate * a) % SECOND + (c.refillRate * b) % SECOND < SECOND
  {
    MulNonNegative(c.refillRate, a);
    MulNonNegative(c.refillRate, b);
    assert c.refillRate * (a + b) == c.refillRate * a + c.refillRate * b;
  }

  /** No product of a run wraps. */
  ghost predicate Unwrapped(c: Config, clock: Nanos, calls: seq<Call>) {
    && (calls != [] ==> (calls[0].now - clock) * c.refillRate < WORD)
    && (forall i :: 0 < i < |calls| ==> (calls[i].now - calls[i - 1].now) * c.refillRate < WORD)
  }

  /** Calls of amount 0, a nanosecond apart. */
  ghost function EveryNanosecond(n: nat): (calls: seq<Call>)
    requires n <= SECOND
    ensures |calls| == n && forall i :: 0 <= i < n ==> calls[i] == Call(0, i + 1)
  {
    seq(n, i requires 0 <= i < n => Call(0, i + 1))
  }

  lemma {:induction false} NanosecondsDrop(c: Config, clock: Nanos, calls: seq<Call>)
    requires Ordered(clock, calls) && forall i :: 0 <= i < |calls| ==> calls[i].now == clock + i + 1
    ensures AllDropped(c, clock, calls) == Times(|calls|, c.refillRate % SECOND)
    ensures Unwrapped(c, clock, calls)
    decreases |calls|
  {
    if calls != [] {
      DroppedIsRemainder(c, 1);
      NanosecondsDrop(c, calls[0].now, calls[1..]);
      assert (calls[0].now - clock) * c.refillRate == c.refillRate;
      forall i | 0 < i < |calls| ensures (calls[i].now - calls[i - 1].now) * c.refillRate < WORD {
        assert calls[i].now - calls[i - 1].now == 1;
      }
    }
  }

  lemma {:induction false} WholeRatesDropNothing(c: Config, clock: Nanos, calls: seq<Call>)
    requires Ordered(clock, calls) && Unwrapped(c, clock, calls) && c.refillRate % SECOND == 0
    ensures AllDropped(c, clock, calls) == 0
    decreases |calls|
  {
    if calls != [] {
      var elapsed: nat := calls[0].now - clock;
      DroppedIsRemainder(c, elapsed);
      var k := c.refillRate / SECOND;
      assert c.refillRate * elapsed == SECOND * (k * elapsed);
      MulNonNegative(k, elapsed);
      DivModUnique(c.refillRate * elapsed, SECOND, k * elapsed, 0);
      WholeRatesDropNothing(c, calls[0].now, calls[1..]);
    }
  }

  /**
   Flooring on every call loses nothing, in any run whose products do not wrap, exactly when the rate is a
   whole number of thousandths per nanosecond, that is a multiple of 1 000 000 bytes per second.
   */
  lemma {:induction false} NothingIsLostIff(c: Config)
    ensures (forall clock, calls :: Ordered(clock, calls) && Unwrapped(c, clock, calls) ==>
                                      Refills(c, clock, calls) == Worth(c, Positive(End(clock, calls) - clock)))
            <==> c.refillRate % SECOND == 0
  {
    if c.refillRate % SECOND == 0 {
      forall clock, calls | Ordered(clock, calls) && Unwrapped(c, clock, calls)
        ensures Refills(c, clock, calls) == Worth(c, Positive(End(clock, calls) - clock))
      {
        WholeRatesDropNothing(c, clock, calls);
        RefillsOverRun(c, clock, calls);
      }
    } else {
      var calls := EveryNanosecond(SECOND);
      NanosecondsDrop(c, 0, calls);
      TimesIsProduct(SECOND, c.refillRate % SECOND);
      RefillsOverRun(c, 0, calls);
      assert Refills(c, 0, calls) != Worth(c, Positive(End(0, calls) - 0));
    }
  }

  lemma {:induction false} IdleTake(c: Config, s: State, now: Nanos)
    requires s.lastRefill <= now && (now - s.lastRefill) * c.refillRate < WORD
    requires s.tokens + Worth(c, now - s.lastRefill) <= c.maxTokens
    ensures TakeAt(c, s, Call(0, now)).0 == State(s.tokens + Worth(c, now - s.lastRefill), now)
  {
    TakeWithoutWrap(c, s, Call(0, now));
  }

  /** At 1.5 MB/s two calls a nanosecond apart leave two thousandths of a byte, one call at the end leaves three. */
  lemma {:induction false} TwoCallsLoseAThousandth()
    ensures var c, s := Config(1_500_000_000, 1_500_000_000), State(0, 0);
            && Final(c, s, [Call(0, 1), Call(0, 2)]).tokens == 2
            && Final(c, s, [Call(0, 2)]).tokens == 3
  {
    var c, s, s1 := Config(1_500_000_000, 1_500_000_000), State(0, 0), State(1, 1);
    assert Worth(c, 1) == 1 && Worth(c, 2) == 3;
    IdleTake(c, s, 1);
    IdleTake(c, s1, 2);
    IdleTake(c, s, 2);
    FinalOfOne(c, s, Call(0, 2));
    FinalOfOne(c, s1, Call(0, 2));
    assert [Call(0, 1), Call(0, 2)][1..] == [Call(0, 2)];
  }

  lemma {:induction false} FinalOfOne(c: Config, s: State, call: Call)
    ensures Final(c, s, [call]) == TakeAt(c, s, call).0
  {
    assert [call][1..] == [];
  }

  /** What a run grants and leaves is covered by its refills, not merely by the elapsed time. */
  lemma {:induction false} GrantsNeedRefills(c: Config, s: State, calls: seq<Call>)
    requires s.tokens <= c.maxTokens && Ordered(s.lastRefill, calls)
    ensures SCALE * Granted(c, s, calls) + Final(c, s, calls).tokens <= s.tokens + Refills(c, s.lastRefill, calls)
    decreases |calls|
  {
    if calls != [] {
      TakeIsPaidFor(c, s, calls[0]);
      GrantsNeedRefills(c, TakeAt(c, s, calls[0]).0, calls[1..]);
    }
  }

  /** Each call comes less than a thousandth of a token's time after the one before. */
  ghost predicate Rapid(c: Config, clock: Nanos, calls: seq<Call>) {
    && (calls != [] ==> (calls[0].now - clock) * c.refillRate < SECOND)
    && (forall i :: 0 < i < |calls| ==> (calls[i].now - calls[i - 1].now) * c.refillRate < SECOND)
  }

  /** The extreme case: calls in rapid succession refill nothing, for however long they go on. */
  lemma {:induction false} RapidCallsStarve(c: Config, s: State, calls: seq<Call>)
    requires s.tokens <= c.maxTokens && Ordered(s.lastRefill, calls) && Rapid(c, s.lastRefill, calls)
    ensures SCALE * Granted(c, s, calls) + Final(c, s, calls).tokens <= s.tokens
  {
    RapidCallsRefillNothing(c, s.lastRefill, calls);
    GrantsNeedRefills(c, s, calls);
  }

  lemma {:induction false} RapidCallsRefillNothing(c: Config, clock: Nanos, calls: seq<Call>)
    requires Ordered(clock, calls) && Rapid(c, clock, calls)
    ensures Refills(c, clock, calls) == 0
    decreases |calls|
  {
    if calls != [] {
      NothingToAdd(c, calls[0].now - clock);
      RapidCallsRefillNothing(c, calls[0].now, calls[1..]);
    }
  }

  lemma {:induction false} NothingToAdd(c: Config, elapsed: nat)
    requires elapsed * c.refillRate < SECOND
    ensures ToAdd(c, elapsed) == 0
  {
    MulNonNegative(elapsed, c.refillRate);
  }

  class TokenBucket {
    const config: Config
    var tokens: Uint64
    var lastRefill: Nanos

    ghost function View(): State
      reads this
    {
      State(tokens, lastRefill)
    }

    constructor (c: Config, now: Nanos)
      ensures config == c && View() == State(c.maxTokens, now)
    {
      config := c;
      tokens, lastRefill := c.maxTokens, now;
    }

    method Take(n: int, now: Nanos) returns (granted: int)
      requires lastRefill <= now
      modifies this
      ensures (View(), granted) == TakeAt(config, old(View()), Call(n, now))
    {
      var nFixed := (n * SCALE) % WORD;
      var elapsed := now - lastRefill;
      var tokensToAdd := 0;
      if elapsed > 0 && config.refillRate > 0 {
        tokensToAdd := ((elapsed * config.refillRate) % WORD) / SECOND;
      }
      var newTokens := (tokens + tokensToAdd) % WORD;
      if newTokens > config.maxTokens {
        newTokens := config.maxTokens;
      }
      var taken := if newTokens >= nFixed then nFixed else newTokens;
      tokens := newTokens - taken;
      lastRefill := now;
      return taken / SCALE;
    }
  }
}
