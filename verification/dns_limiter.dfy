/**
 The DNS token bucket (dns/rate_limiter.go): one token every refillRate nanoseconds, and the remainder of
 the elapsed time is kept for the next refill. One call is one step; the clock never goes back.
 */
module DnsRateLimiter {
  import opened Arithmetic
  import opened Bytes

  /** The bounds are about positive rates; Attempt says what the others do. */
  datatype Config = Config(maxTokens: int, refillRate: int) {
    predicate Valid() {
      refillRate > 0
    }
  }

  datatype State = State(tokens: int, lastRefill: int)

  function Min(a: int, b: int): int {
    if a < b then a else b
  }

  function Refill(c: Config, s: State, now: int): State
    requires c.Valid() && s.lastRefill <= now
  {
    var elapsed := now - s.lastRefill;
    var tokensToAdd := elapsed / c.refillRate;
    if tokensToAdd > 0 then
      var remainder := elapsed - tokensToAdd * c.refillRate;
      State(Min(c.maxTokens, s.tokens + tokensToAdd), now - remainder)
    else s
  }

  function Take(s: State): (State, bool) {
    if s.tokens > 0 then (s.(tokens := s.tokens - 1), true) else (s, false)
  }

  /** Time between now and the last refill, split into whole periods and the rest. */
  lemma {:induction false} RefillShape(c: Config, s: State, now: int)
    requires c.Valid() && s.lastRefill <= now && s.tokens <= c.maxTokens
    ensures var k: nat := (now - s.lastRefill) / c.refillRate;
            var s' := Refill(c, s, now);
            && s' == State(Min(c.maxTokens, s.tokens + k), s.lastRefill + Times(k, c.refillRate))
            && 0 <= now - s'.lastRefill < c.refillRate
  {
    var k: nat := (now - s.lastRefill) / c.refillRate;
    TimesIsProduct(k, c.refillRate);
  }

  lemma {:induction false} DivAfterWholePeriods(x: int, k: nat, m: nat)
    requires m > 0 && Times(k, m) <= x
    ensures x >= 0 && (x - Times(k, m)) / m == x / m - k
    decreases k
  {
    if k > 0 {
      DivAfterWholePeriods(x - m, k - 1, m);
      DivStep(x - m, m);
      assert x - Times(k, m) == (x - m) - Times(k - 1, m);
    }
  }

  /** No fraction of a token is lost: refilling at t1 and then at t2 is refilling once at t2. */
  lemma {:induction false} RefillComposes(c: Config, s: State, t1: int, t2: int)
    requires c.Valid() && s.lastRefill <= t1 <= t2 && s.tokens <= c.maxTokens
    ensures Refill(c, s, t1).lastRefill <= t2
    ensures Refill(c, Refill(c, s, t1), t2) == Refill(c, s, t2)
  {
    var r := c.refillRate;
    var k1: nat := (t1 - s.lastRefill) / r;
    RefillShape(c, s, t1);
    var s1 := Refill(c, s, t1);
    var k2: nat := (t2 - s1.lastRefill) / r;
    RefillShape(c, s1, t2);
    RefillShape(c, s, t2);
    DivAfterWholePeriods(t2 - s.lastRefill, k1, r);
    TimesAdd(k1, k2, r);
  }

  function AllowAt(c: Config, s: State, now: int): (State, bool)
    requires c.Valid() && s.lastRefill <= now
  {
    Take(Refill(c, s, now))
  }

  ghost predicate Reachable(c: Config, s: State, now: int) {
    s.lastRefill <= now && s.tokens <= c.maxTokens
  }

  lemma {:induction false} AllowKeeps(c: Config, s: State, now: int)
    requires c.Valid() && Reachable(c, s, now)
    ensures Reachable(c, AllowAt(c, s, now).0, now)
    ensures now - AllowAt(c, s, now).0.lastRefill < c.refillRate
  {
    RefillShape(c, s, now);
  }

  predicate Ordered(clock: int, times: seq<int>) {
    (times != [] ==> clock <= times[0]) && forall i :: 0 < i < |times| ==> times[i - 1] <= times[i]
  }

  /** How many of the calls at the given times are allowed. */
  ghost function Granted(c: Config, s: State, clock: int, times: seq<int>): nat
    requires c.Valid() && Reachable(c, s, clock) && Ordered(clock, times)
    decreases |times|
  {
    if times == [] then 0
    else
      AllowKeeps(c, s, times[0]);
      var (s', ok) := AllowAt(c, s, times[0]);
      (if ok then 1 else 0) + Granted(c, s', times[0], times[1..])
  }

  /** Every grant is paid for by a token at hand or by a whole refill period. */
  lemma {:induction false} GrantsArePaidFor(c: Config, s: State, clock: int, times: seq<int>, end: int)
    requires c.Valid() && Reachable(c, s, clock) && Ordered(clock, times) && clock <= end
    requires forall i :: 0 <= i < |times| ==> times[i] <= end
    ensures Granted(c, s, clock, times) <= Positive(s.tokens) + (end - s.lastRefill) / c.refillRate
    decreases |times|
  {
    if times != [] {
      var now := times[0];
      AllowKeeps(c, s, now);
      AllowPays(c, s, now, end);
      assert forall i :: 0 <= i < |times[1..]| ==> times[1..][i] == times[i + 1];
      GrantsArePaidFor(c, AllowAt(c, s, now).0, now, times[1..], end);
    } else {
      NonNegativeQuotient(end - s.lastRefill, c.refillRate);
    }
  }

  /** One call moves periods still to come into tokens, and a token into a grant; nothing is created. */
  lemma {:induction false} AllowPays(c: Config, s: State, now: int, end: int)
    requires c.Valid() && Reachable(c, s, now) && now <= end
    ensures var (s', ok) := AllowAt(c, s, now);
            && s'.lastRefill <= now
            && (if ok then 1 else 0) + Positive(s'.tokens) + (end - s'.lastRefill) / c.refillRate
               <= Positive(s.tokens) + (end - s.lastRefill) / c.refillRate
  {
    RefillShape(c, s, now);
    DivAfterWholePeriods(end - s.lastRefill, (now - s.lastRefill) / c.refillRate, c.refillRate);
  }

  lemma NonNegativeQuotient(x: nat, m: nat)
    requires m > 0
    ensures x / m >= 0
  {
  }

  lemma {:induction false} QuotientOfSum(x: nat, y: nat, m: nat)
    requires y < m
    ensures (x + y) / m <= x / m + 1
  {
    var q: nat, r: nat := x / m, x % m;
    assert x == m * q + r;
    if r + y < m {
      DivModUnique(x + y, m, q, r + y);
    } else {
      assert m * (q + 1) == m * q + m;
      DivModUnique(x + y, m, q + 1, r + y - m);
    }
  }

  /** From creation: the burst, and one request per refill period. */
  lemma GrantsSinceCreation(c: Config, created: int, times: seq<int>, end: int)
    requires c.Valid() && Ordered(created, times) && created <= end
    requires forall i :: 0 <= i < |times| ==> times[i] <= end
    ensures Granted(c, State(c.maxTokens, created), created, times)
            <= Positive(c.maxTokens) + (end - created) / c.refillRate
  {
    GrantsArePaidFor(c, State(c.maxTokens, created), created, times, end);
  }

  /** Any window that starts just after a call: at most one token more, for the remainder carried over. */
  lemma GrantsInWindow(c: Config, s: State, a: int, times: seq<int>, b: int)
    requires c.Valid() && Reachable(c, s, a) && a <= b
    requires Ordered(a, times) && forall i :: 0 <= i < |times| ==> times[i] <= b
    ensures var after := AllowAt(c, s, a).0;
            Reachable(c, after, a)
            && Granted(c, after, a, times) <= Positive(c.maxTokens) + (b - a) / c.refillRate + 1
  {
    AllowKeeps(c, s, a);
    var after := AllowAt(c, s, a).0;
    GrantsArePaidFor(c, after, a, times, b);
    QuotientOfSum(b - a, a - after.lastRefill, c.refillRate);
    NonNegativeQuotient(b - a, c.refillRate);
  }

  /** Each grant takes one token, and a refusal none. */
  lemma {:induction false} GrantCostsOne(c: Config, s: State, now: int)
    requires c.Valid() && Reachable(c, s, now)
    ensures var (s', ok) := AllowAt(c, s, now);
            var full := Refill(c, s, now);
            s'.lastRefill == full.lastRefill && s'.tokens == full.tokens - (if ok then 1 else 0)
  {
  }

  /** n calls at one moment are granted exactly as far as the tokens after the refill reach. */
  lemma {:induction false} BurstIsExact(c: Config, s: State, now: int, times: seq<int>)
    requires c.Valid() && Reachable(c, s, now) && forall i :: 0 <= i < |times| ==> times[i] == now
    ensures Granted(c, s, now, times) == Min(|times|, Positive(Refill(c, s, now).tokens))
    decreases |times|
  {
    if times != [] {
      AllowKeeps(c, s, now);
      var s' := AllowAt(c, s, now).0;
      RefillTwice(c, s, now);
      assert forall i :: 0 <= i < |times[1..]| ==> times[1..][i] == times[i + 1];
      BurstIsExact(c, s', now, times[1..]);
    }
  }

  /** A second refill at the same moment adds nothing, also after a take. */
  lemma {:induction false} RefillTwice(c: Config, s: State, now: int)
    requires c.Valid() && Reachable(c, s, now)
    ensures var s' := AllowAt(c, s, now).0; s'.lastRefill <= now && Refill(c, s', now) == s'
  {
    AllowKeeps(c, s, now);
    var s' := AllowAt(c, s, now).0;
    DivModUnique(now - s'.lastRefill, c.refillRate, 0, now - s'.lastRefill);
  }

  /** A request is turned away only when the tokens at hand and the periods elapsed are both used up. */
  lemma AllowedIff(c: Config, s: State, now: int)
    requires c.Valid() && Reachable(c, s, now)
    ensures AllowAt(c, s, now).1 <==> c.maxTokens > 0 && s.tokens + (now - s.lastRefill) / c.refillRate > 0
  {
    RefillShape(c, s, now);
  }

  /** Go's division truncates toward zero. */
  function Quotient(x: int, y: int): int
    requires x >= 0 && y != 0
  {
    if y > 0 then x / y else -(x / -y)
  }

  /** One call for any rate: zero divides by zero, which panics, and a negative rate never refills. */
  function Attempt(c: Config, s: State, now: int): (State, Option<bool>)
    requires s.lastRefill <= now
  {
    if c.refillRate == 0 then (s, None)
    else
      var (s', ok) := if c.refillRate > 0 then AllowAt(c, s, now) else Take(s);
      (s', Some(ok))
  }

  /** A rate of zero panics and no other does; a negative rate leaves it at the tokens at hand. */
  lemma {:induction false} OtherRates(c: Config, s: State, now: int)
    requires s.lastRefill <= now
    ensures Attempt(c, s, now).1.None? <==> c.refillRate == 0
    ensures c.refillRate == 0 ==> Attempt(c, s, now).0 == s
    ensures c.refillRate < 0 ==>
              Attempt(c, s, now) == (s.(tokens := s.tokens - if s.tokens > 0 then 1 else 0), Some(s.tokens > 0))
  {
  }

  class RateLimiter {
    const config: Config
    var tokens: int
    var lastRefill: int

    ghost function View(): State
      reads this
    {
      State(tokens, lastRefill)
    }

    constructor (maxTokens: int, refillRate: int, now: int)
      ensures config == Config(maxTokens, refillRate) && View() == State(maxTokens, now)
    {
      config := Config(maxTokens, refillRate);
      tokens, lastRefill := maxTokens, now;
    }

    /** None is the panic. */
    method Allow(now: int) returns (ok: Option<bool>)
      requires Reachable(config, View(), now)
      modifies this
      ensures (View(), ok) == Attempt(config, old(View()), now)
      ensures Reachable(config, View(), now)
    {
      if config.Valid() {
        AllowKeeps(config, View(), now);
      }
      var elapsed := now - lastRefill;
      if config.refillRate == 0 {
        return None;
      }
      var tokensToAdd := Quotient(elapsed, config.refillRate);
      if tokensToAdd > 0 {
        tokens := Min(config.maxTokens, tokens + tokensToAdd);
        var remainder := elapsed - tokensToAdd * config.refillRate;
        lastRefill := now - remainder;
      }
      if tokens > 0 {
        tokens := tokens - 1;
        return Some(true);
      }
      return Some(false);
    }
  }
}
