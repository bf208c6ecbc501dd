/** The two retry components: RetryPolicy, with several strategies, and RetryAdapter,
    exponential only.  Attempts are numbered from 1; `outcome(n)` is what attempt `n`
    does, and `draw(n)`, between -1 and 1, is the jitter drawn after it. */
module Retry {
  import opened Powers

  datatype Strategy = Fixed | Exponential | Linear | Custom

  datatype Config = Config(
    maxAttempts: nat, baseDelay: real, maxDelay: real, strategy: Strategy, jitter: bool, multiplier: real)

  datatype Outcome = Returns | RaisesRetryable | RaisesFatal

  datatype Result = Success | Exhausted | NotRetryable

  /** What a caller and the clock see of one call. */
  datatype Trace = Trace(result: Result, invocations: nat, waits: seq<real>)

  function Min(x: real, y: real): real {
    if x <= y then x else y
  }

  function NonNegative(x: real): real {
    if x >= 0.0 then x else 0.0
  }

  function Exponentially(c: Config, n: nat): real
    requires n >= 1
  {
    Min(c.baseDelay * Power(c.multiplier, n - 1), c.maxDelay)
  }

  /** What a uniform draw may give, scaled to the jitter range. */
  predicate IsDraw(u: real) {
    -1.0 <= u <= 1.0
  }

  function Jittered(delay: real, draw: real): real {
    delay + draw * (delay * 0.1)
  }

  /** RetryPolicy._calculate_delay. */
  function PolicyDelay(c: Config, n: nat, draw: real): real
    requires n >= 1
  {
    var delay :=
      match c.strategy
      case Exponential => Exponentially(c, n)
      case Linear => Min(c.baseDelay * n as real, c.maxDelay)
      case _ => Min(c.baseDelay, c.maxDelay);
    if c.jitter then NonNegative(Jittered(delay, draw)) else delay
  }

  /** RetryConfig.calculate_delay. */
  function AdapterDelay(c: Config, n: nat, draw: real): real
    requires n >= 1
  {
    var delay := Exponentially(c, n);
    NonNegative(if c.jitter then Jittered(delay, draw) else delay)
  }

  /** The attempt at which a call stops: the first that returns or raises a fatal
      exception, or the last one allowed. */
  function Stop(outcome: nat -> Outcome, max: nat, n: nat): (r: nat)
    requires 1 <= n <= max
    ensures n <= r <= max
    ensures forall i | n <= i < r :: outcome(i) == RaisesRetryable
    ensures r < max ==> outcome(r) != RaisesRetryable
    decreases max - n
  {
    if n == max || outcome(n) != RaisesRetryable then n else Stop(outcome, max, n + 1)
  }

  lemma StopUnfolds(outcome: nat -> Outcome, max: nat, n: nat)
    requires 1 <= n <= max
    ensures Stop(outcome, max, n) == if n == max || outcome(n) != RaisesRetryable then n else Stop(outcome, max, n + 1)
  {
  }

  function ResultOf(o: Outcome): Result {
    match o
    case Returns => Success
    case RaisesRetryable => Exhausted
    case RaisesFatal => NotRetryable
  }

  /** What the caller gets: a value, the exception of the last attempt, an exception of the
      policy's own, or one that the adapter meets when it logs a callable without a name. */
  datatype Surface = Value | LastException | RetryExhaustedError | AttributeError

  function PolicySurface(r: Result): Surface {
    match r
    case Success => Value
    case Exhausted => RetryExhaustedError
    case NotRetryable => LastException
  }

  function AdapterSurface(r: Result): Surface {
    if r.Success? then Value else LastException
  }

  function PolicyRun(c: Config, outcome: nat -> Outcome, draw: nat -> real): Trace
    requires c.maxAttempts >= 1
  {
    var n := Stop(outcome, c.maxAttempts, 1);
    Trace(ResultOf(outcome(n)), n, seq(n - 1, i requires i >= 0 => PolicyDelay(c, i + 1, draw(i + 1))))
  }

  function AdapterRun(c: Config, outcome: nat -> Outcome, draw: nat -> real): Trace
    requires c.maxAttempts >= 1
  {
    var n := Stop(outcome, c.maxAttempts, 1);
    Trace(ResultOf(outcome(n)), n, seq(n - 1, i requires i >= 0 => AdapterDelay(c, i + 1, draw(i + 1))))
  }

  /** The two delay formulas agree exactly when there is jitter or the capped delay is
      not negative: only one of the components clips a negative delay without jitter. */
  lemma SameDelayIff(c: Config, n: nat, draw: real)
    requires c.strategy == Exponential && n >= 1
    ensures PolicyDelay(c, n, draw) == AdapterDelay(c, n, draw) <==> c.jitter || Exponentially(c, n) >= 0.0
  {
    hide Exponentially, Jittered;
  }

  /** A negative delay is clipped to zero; jitter cannot make it positive. */
  lemma NegativeDelaysAreClipped(c: Config, n: nat, draw: real)
    requires n >= 1 && Exponentially(c, n) < 0.0 && IsDraw(draw)
    ensures AdapterDelay(c, n, draw) == 0.0
    ensures c.strategy == Exponential ==>
              PolicyDelay(c, n, draw) == if c.jitter then 0.0 else Exponentially(c, n)
  {
    var d := Exponentially(c, n);
    hide Exponentially, Jittered;
    assert Jittered(d, draw) == -Jittered(-d, draw) by {
      MirrorJitter(d, draw);
    }
    JitterIsTenPercent(-d, draw);
  }

  lemma MirrorJitter(d: real, draw: real)
    ensures Jittered(d, draw) == -Jittered(-d, draw)
  {
  }

  /** With the exponential strategy and parameters that are not negative, the policy and
      the adapter make the same invocations and the same waits, and succeed together; what
      they raise is the same exactly if the attempts are not exhausted. */
  lemma SameRuns(c: Config, outcome: nat -> Outcome, draw: nat -> real)
    requires c.strategy == Exponential && c.maxAttempts >= 1
    requires c.baseDelay >= 0.0 && c.multiplier >= 0.0 && c.maxDelay >= 0.0
    ensures PolicyRun(c, outcome, draw) == AdapterRun(c, outcome, draw)
    ensures var r := PolicyRun(c, outcome, draw).result;
            && (PolicySurface(r) == Value <==> AdapterSurface(r) == Value)
            && (PolicySurface(r) == AdapterSurface(r) <==> r != Exhausted)
  {
    hide PolicyDelay, AdapterDelay, Exponentially;
    var p, a := PolicyRun(c, outcome, draw).waits, AdapterRun(c, outcome, draw).waits;
    forall i | 0 <= i < |p| ensures p[i] == a[i] {
      DelayIsNotNegative(c, i + 1);
      SameDelayIff(c, i + 1, draw(i + 1));
    }
    assert p == a;
  }

  lemma {:induction false} PowerIsNotNegative(x: real, n: nat)
    requires x >= 0.0
    ensures Power(x, n) >= 0.0 && (x > 0.0 ==> Power(x, n) > 0.0)
  {
    if n > 0 {
      PowerIsNotNegative(x, n - 1);
    }
  }

  lemma DelayIsNotNegative(c: Config, n: nat)
    requires n >= 1 && c.baseDelay >= 0.0 && c.multiplier >= 0.0 && c.maxDelay >= 0.0
    ensures Exponentially(c, n) >= 0.0
  {
    PowerIsNotNegative(c.multiplier, n - 1);
  }

  lemma JitterIsTenPercent(delay: real, draw: real)
    requires delay >= 0.0 && IsDraw(draw)
    ensures 0.9 * delay <= Jittered(delay, draw) <= 1.1 * delay
  {
    var tenth := delay * 0.1;
    Product(draw + 1.0, tenth);
    Product(1.0 - draw, tenth);
    assert (draw + 1.0) * tenth == draw * tenth + tenth;
    assert (1.0 - draw) * tenth == tenth - draw * tenth;
  }

  lemma Product(x: real, y: real)
    requires x >= 0.0 && y >= 0.0
    ensures x * y >= 0.0
  {
  }

  // ---- What each strategy waits ----

  lemma LinearIs(c: Config, n: nat, x: real, draw: real)
    requires n >= 1 && !c.jitter && c.strategy == Linear && x == c.baseDelay * n as real
    ensures PolicyDelay(c, n, draw) == Min(x, c.maxDelay)
  {
  }

  lemma NextLinearly(c: Config, n: nat, u: real, v: real)
    requires n >= 1 && !c.jitter && c.strategy == Linear && c.baseDelay >= 0.0
    ensures PolicyDelay(c, 1, u) == Min(c.baseDelay, c.maxDelay)
    ensures PolicyDelay(c, n + 1, u) == Min(PolicyDelay(c, n, v) + c.baseDelay, c.maxDelay)
  {
    var x, d := c.baseDelay * n as real, PolicyDelay(c, n, v);
    var next := x + c.baseDelay;
    assert next == c.baseDelay * (n + 1) as real;
    hide PolicyDelay;
    LinearIs(c, 1, c.baseDelay, u);
    LinearIs(c, n, x, v);
    LinearIs(c, n + 1, next, u);
    assert Min(next, c.maxDelay) == Min(d + c.baseDelay, c.maxDelay);
  }

  lemma ExponentiallyIs(c: Config, n: nat, p: real, x: real)
    requires n >= 1 && p == Power(c.multiplier, n - 1) && x == c.baseDelay * p
    ensures Exponentially(c, n) == Min(x, c.maxDelay)
  {
  }

  lemma NextNominal(c: Config, n: nat) returns (x: real, y: real)
    requires n >= 1
    ensures Exponentially(c, n) == Min(x, c.maxDelay) && Exponentially(c, n + 1) == Min(y, c.maxDelay)
    ensures y == x * c.multiplier
  {
    var p, next := Power(c.multiplier, n - 1), Power(c.multiplier, n);
    x, y := c.baseDelay * p, c.baseDelay * next;
    ExponentiallyIs(c, n, p, x);
    ExponentiallyIs(c, n + 1, next, y);
    assert next == c.multiplier * p;
    hide *;
    assert c.baseDelay * (c.multiplier * p) == c.baseDelay * p * c.multiplier;
  }

  lemma NextExponentially(c: Config, n: nat, d: real)
    requires n >= 1 && c.multiplier >= 1.0 && c.maxDelay >= 0.0 && d == Exponentially(c, n)
    ensures Exponentially(c, n + 1) == Min(d * c.multiplier, c.maxDelay)
  {
    hide Exponentially, Power;
    var x, y := NextNominal(c, n);
    GrowAndCap(x, y, d, c.multiplier, c.maxDelay);
  }

  /** Capping before or after the growth makes no difference. */
  lemma GrowAndCap(x: real, y: real, d: real, m: real, max: real)
    requires m >= 1.0 && max >= 0.0 && y == x * m && d == Min(x, max)
    ensures Min(y, max) == Min(d * m, max)
  {
    if x > max {
      Product(m - 1.0, max);
      Product(m, x - max);
      assert m * (x - max) == x * m - max * m && (m - 1.0) * max == max * m - max;
    }
  }

  /** Without jitter the first wait is the base.  After a wait of `d` the next one is a base
      longer (linear), a multiplier longer (exponential) or as long (fixed and custom), up to
      the cap. */
  lemma StrategiesWait(c: Config, n: nat, u: real, v: real, d: real)
    requires n >= 1 && !c.jitter && c.baseDelay >= 0.0 && c.maxDelay >= 0.0 && d == PolicyDelay(c, n, u)
    ensures PolicyDelay(c, 1, v) == Min(c.baseDelay, c.maxDelay)
    ensures c.strategy == Linear ==> PolicyDelay(c, n + 1, v) == Min(d + c.baseDelay, c.maxDelay)
    ensures c.strategy == Exponential && c.multiplier >= 1.0 ==>
              PolicyDelay(c, n + 1, v) == Min(d * c.multiplier, c.maxDelay)
    ensures c.strategy in {Fixed, Custom} ==> PolicyDelay(c, n + 1, v) == d
  {
    hide Exponentially, Min;
    match c.strategy
    case Linear =>
      NextLinearly(c, n, v, u);
    case Exponential =>
      ExponentiallyIs(c, 1, 1.0, c.baseDelay);
      if c.multiplier >= 1.0 {
        NextExponentially(c, n, d);
      }
    case _ =>
  }

  /** With jitter a wait may be anything within 10% of the wait without, and nothing else. */
  lemma JitterIff(c: Config, n: nat, wait: real)
    requires n >= 1 && c.jitter && PolicyDelay(c.(jitter := false), n, 0.0) >= 0.0
    ensures (exists u | IsDraw(u) :: PolicyDelay(c, n, u) == wait) <==>
            var d := PolicyDelay(c.(jitter := false), n, 0.0); 0.9 * d <= wait <= 1.1 * d
  {
    var d := PolicyDelay(c.(jitter := false), n, 0.0);
    forall u ensures PolicyDelay(c, n, u) == NonNegative(Jittered(d, u)) {
    }
    hide PolicyDelay, Jittered;
    if u :| IsDraw(u) && PolicyDelay(c, n, u) == wait {
      JitterIsTenPercent(d, u);
    }
    if 0.9 * d <= wait <= 1.1 * d {
      var u := DrawFor(d, wait);
      assert PolicyDelay(c, n, u) == wait;
    }
  }

  lemma DrawFor(d: real, wait: real) returns (u: real)
    requires d >= 0.0 && 0.9 * d <= wait <= 1.1 * d
    ensures IsDraw(u) && Jittered(d, u) == wait
  {
    if d == 0.0 {
      u := 0.0;
    } else {
      var tenth := d * 0.1;
      u := (wait - d) / tenth;
      assert u * tenth == wait - d;
      CancelBetween(u, tenth);
    }
  }

  lemma CancelBetween(u: real, y: real)
    requires y > 0.0 && -y <= u * y <= y
    ensures -1.0 <= u <= 1.0
  {
    assert (u - 1.0) * y == u * y - y && (u + 1.0) * y == u * y + y;
  }

  // ---- How a call ends ----

  /** The first attempt that does not raise a retryable exception is allowed and does `o`. */
  ghost predicate FirstDoes(outcome: nat -> Outcome, max: nat, o: Outcome) {
    exists n | 1 <= n <= max :: outcome(n) == o && forall i | 1 <= i < n :: outcome(i) == RaisesRetryable
  }

  /** The caller gets a value, the exception or RetryExhaustedError if and only if that attempt
      returns, raises a fatal exception or does not exist. */
  lemma SurfacesIff(c: Config, outcome: nat -> Outcome, draw: nat -> real)
    requires c.maxAttempts >= 1
    ensures var surface := PolicySurface(PolicyRun(c, outcome, draw).result);
            && (surface == Value <==> FirstDoes(outcome, c.maxAttempts, Returns))
            && (surface == LastException <==> FirstDoes(outcome, c.maxAttempts, RaisesFatal))
            && (surface == RetryExhaustedError <==> forall n | 1 <= n <= c.maxAttempts :: outcome(n) == RaisesRetryable)
  {
    hide PolicyDelay;
    var n := Stop(outcome, c.maxAttempts, 1);
    hide Stop;
    assert outcome(n) != RaisesRetryable ==> FirstDoes(outcome, c.maxAttempts, outcome(n));
    forall o | FirstDoes(outcome, c.maxAttempts, o) && o != RaisesRetryable ensures o == outcome(n) {
      var m :| 1 <= m <= c.maxAttempts && outcome(m) == o && forall i | 1 <= i < m :: outcome(i) == RaisesRetryable;
      assert m == n;
    }
  }

  lemma WaitIsNear(c: Config, n: nat, draw: real)
    requires n >= 1 && c.baseDelay >= 0.0 && c.multiplier >= 0.0 && c.maxDelay >= 0.0
    requires IsDraw(draw)
    ensures 0.9 * Exponentially(c, n) <= AdapterDelay(c, n, draw) <= 1.1 * Exponentially(c, n)
  {
    hide Exponentially, Jittered;
    DelayIsNotNegative(c, n);
    JitterIsTenPercent(Exponentially(c, n), draw);
  }

  /** Every wait is within 10% of the capped exponential delay, where `p` is the factor by
      which the base has grown. */
  lemma WaitIsNearNominal(c: Config, n: nat, p: real, draw: real)
    requires n >= 1 && c.baseDelay >= 0.0 && c.multiplier >= 0.0 && c.maxDelay >= 0.0
    requires IsDraw(draw) && p == Power(c.multiplier, n - 1)
    ensures var d := Min(c.baseDelay * p, c.maxDelay);
            0.9 * d <= AdapterDelay(c, n, draw) <= 1.1 * d
  {
    hide AdapterDelay;
    WaitIsNear(c, n, draw);
    ExponentiallyIs(c, n, p, c.baseDelay * p);
  }

  /** Below the cap, jittered waits never decrease, whatever is drawn, exactly when the
      multiplier is at least 11/9. */
  lemma WaitsGrowIff(c: Config, n: nat)
    requires n >= 1 && c.jitter && c.baseDelay > 0.0 && c.multiplier > 0.0
    requires c.baseDelay * Power(c.multiplier, n - 1) <= c.maxDelay && c.baseDelay * Power(c.multiplier, n) <= c.maxDelay
    ensures (forall u, v | IsDraw(u) && IsDraw(v) :: AdapterDelay(c, n, u) <= AdapterDelay(c, n + 1, v))
       <==> c.multiplier * 9.0 >= 11.0
  {
    var d, e := Exponentially(c, n), Exponentially(c, n + 1);
    ExtremesCompare(c, n);
    hide Exponentially, Power;
    if c.multiplier * 9.0 >= 11.0 {
      assert 1.1 * d <= 0.9 * e;
      forall u, v | IsDraw(u) && IsDraw(v)
        ensures AdapterDelay(c, n, u) <= AdapterDelay(c, n + 1, v)
      {
        hide AdapterDelay, Jittered;
        WaitIsNear(c, n, u);
        WaitIsNear(c, n + 1, v);
      }
    } else {
      assert AdapterDelay(c, n, 1.0) == 1.1 * d && AdapterDelay(c, n + 1, -1.0) == 0.9 * e;
      hide AdapterDelay;
      assert IsDraw(1.0) && IsDraw(-1.0);
      assert AdapterDelay(c, n, 1.0) > AdapterDelay(c, n + 1, -1.0);
    }
  }

  lemma NextDelay(c: Config, n: nat)
    requires n >= 1 && c.baseDelay > 0.0 && c.multiplier > 0.0
    requires c.baseDelay * Power(c.multiplier, n - 1) <= c.maxDelay && c.baseDelay * Power(c.multiplier, n) <= c.maxDelay
    ensures Exponentially(c, n) > 0.0 && Exponentially(c, n + 1) > 0.0
    ensures Exponentially(c, n + 1) == c.multiplier * Exponentially(c, n)
  {
    var p := Power(c.multiplier, n - 1);
    PowerIsNotNegative(c.multiplier, n - 1);
    PowerIsNotNegative(c.multiplier, n);
    assert Power(c.multiplier, n) == c.multiplier * p;
    assert c.baseDelay * (c.multiplier * p) == c.multiplier * (c.baseDelay * p);
  }

  lemma ExtremesCompare(c: Config, n: nat)
    requires n >= 1 && c.baseDelay > 0.0 && c.multiplier > 0.0
    requires c.baseDelay * Power(c.multiplier, n - 1) <= c.maxDelay && c.baseDelay * Power(c.multiplier, n) <= c.maxDelay
    ensures Exponentially(c, n) > 0.0 && Exponentially(c, n + 1) > 0.0
    ensures 1.1 * Exponentially(c, n) <= 0.9 * Exponentially(c, n + 1) <==> c.multiplier * 9.0 >= 11.0
  {
    NextDelay(c, n);
    hide *;
    CompareScaled(c.multiplier, Exponentially(c, n));
  }

  lemma CompareScaled(m: real, d: real)
    requires d > 0.0
    ensures 1.1 * d <= 0.9 * (m * d) <==> m * 9.0 >= 11.0
  {
    assert (m * 9.0 - 11.0) * d == 9.0 * (m * d) - 11.0 * d;
    if m * 9.0 >= 11.0 {
      assert (m * 9.0 - 11.0) * d >= 0.0;
    } else {
      assert (m * 9.0 - 11.0) * d < 0.0;
    }
  }

  /** The total of the first `r` waits. */
  function Total(c: Config, draw: nat -> real, r: nat): real {
    if r == 0 then 0.0 else Total(c, draw, r - 1) + AdapterDelay(c, r, draw(r))
  }

  lemma TotalStep(c: Config, draw: nat -> real, r: nat)
    ensures Total(c, draw, 0) == 0.0
    ensures Total(c, draw, r + 1) == Total(c, draw, r) + AdapterDelay(c, r + 1, draw(r + 1))
  {
    hide AdapterDelay;
  }

  /** With a multiplier of two, `r` retries wait at most 1.1 * min(base * (2^r - 1), r * max). */
  lemma {:induction false} TotalWaitBounded(c: Config, draw: nat -> real, r: nat)
    requires c.baseDelay >= 0.0 && c.multiplier == 2.0 && c.maxDelay >= 0.0
    requires forall n | 1 <= n <= r :: IsDraw(draw(n))
    ensures Total(c, draw, r) <= 1.1 * (c.baseDelay * (Power(2.0, r) - 1.0))
    ensures Total(c, draw, r) <= 1.1 * (r as real * c.maxDelay)
  {
    hide AdapterDelay;
    if r > 0 {
      TotalWaitBounded(c, draw, r - 1);
      var wait, p := AdapterDelay(c, r, draw(r)), Power(2.0, r - 1);
      WaitUnderBoth(c, r, draw(r));
      assert Power(2.0, r) == 2.0 * p && Total(c, draw, r) == Total(c, draw, r - 1) + wait;
      hide *;
      AddWait(Total(c, draw, r - 1), wait, c.baseDelay, p, r as real, c.maxDelay);
    }
  }

  lemma WaitUnderBoth(c: Config, n: nat, draw: real)
    requires n >= 1 && c.baseDelay >= 0.0 && c.multiplier >= 0.0 && c.maxDelay >= 0.0
    requires IsDraw(draw)
    ensures AdapterDelay(c, n, draw) <= 1.1 * (c.baseDelay * Power(c.multiplier, n - 1))
    ensures AdapterDelay(c, n, draw) <= 1.1 * c.maxDelay
  {
    WaitIsNear(c, n, draw);
    assert Exponentially(c, n) <= c.baseDelay * Power(c.multiplier, n - 1) && Exponentially(c, n) <= c.maxDelay;
    hide AdapterDelay, Power;
  }

  lemma AddWait(total: real, wait: real, base: real, p: real, r: real, max: real)
    requires total <= 1.1 * (base * (p - 1.0)) && wait <= 1.1 * (base * p)
    requires total <= 1.1 * ((r - 1.0) * max) && wait <= 1.1 * max
    ensures total + wait <= 1.1 * (base * (2.0 * p - 1.0))
    ensures total + wait <= 1.1 * (r * max)
  {
    assert base * (2.0 * p - 1.0) == base * (p - 1.0) + base * p;
    assert r * max == (r - 1.0) * max + max;
  }

  class RetryPolicy {
    const config: Config

    constructor (config: Config)
      ensures this.config == config
    {
      this.config := config;
    }

    method Execute(outcome: nat -> Outcome, draw: nat -> real) returns (t: Trace, surface: Surface)
      requires config.maxAttempts >= 1
      ensures t == PolicyRun(config, outcome, draw) && surface == PolicySurface(t.result)
    {
      hide PolicyDelay;
      var waits := [];
      for attempt := 1 to config.maxAttempts + 1
        invariant attempt <= config.maxAttempts
        invariant Stop(outcome, config.maxAttempts, 1) == Stop(outcome, config.maxAttempts, attempt)
        invariant |waits| == attempt - 1
        invariant forall i | 0 <= i < |waits| :: waits[i] == PolicyDelay(config, i + 1, draw(i + 1))
      {
        var o := outcome(attempt);
        if o == Returns {
          return Trace(Success, attempt, waits), Value;
        }
        if o == RaisesFatal {
          return Trace(NotRetryable, attempt, waits), LastException;
        }
        if attempt >= config.maxAttempts {
          return Trace(Exhausted, attempt, waits), RetryExhaustedError;
        }
        waits := waits + [PolicyDelay(config, attempt, draw(attempt))];
      }
      assert false;
    }
  }

  /** What the loop has done before attempt `n`: every earlier attempt raised a retryable
      exception, and it waited after each of them. */
  ghost predicate Underway(c: Config, outcome: nat -> Outcome, draw: nat -> real, n: nat, waits: seq<real>)
    requires 1 <= n <= c.maxAttempts
  {
    && Stop(outcome, c.maxAttempts, 1) == Stop(outcome, c.maxAttempts, n)
    && |waits| == n - 1
    && forall i | 0 <= i < |waits| :: waits[i] == AdapterDelay(c, i + 1, draw(i + 1))
  }

  lemma UnderwayStep(c: Config, outcome: nat -> Outcome, draw: nat -> real, n: nat, waits: seq<real>)
    requires 1 <= n < c.maxAttempts && outcome(n) == RaisesRetryable
    requires Underway(c, outcome, draw, n, waits)
    ensures |waits| == n - 1 && Underway(c, outcome, draw, n + 1, waits + [AdapterDelay(c, n, draw(n))])
  {
    StopUnfolds(outcome, c.maxAttempts, n);
    hide Stop, AdapterDelay;
  }

  lemma AdapterRunIs(c: Config, outcome: nat -> Outcome, draw: nat -> real, n: nat, waits: seq<real>)
    requires 1 <= n <= c.maxAttempts && (n == c.maxAttempts || outcome(n) != RaisesRetryable)
    requires Underway(c, outcome, draw, n, waits)
    ensures |waits| == n - 1 && AdapterRun(c, outcome, draw) == Trace(ResultOf(outcome(n)), n, waits)
    ensures ResultOf(outcome(n)) == Success <==> outcome(n) == Returns
    ensures AdapterSurface(ResultOf(outcome(n))) == if outcome(n) == Returns then Value else LastException
  {
    hide AdapterDelay;
    assert waits == seq(n - 1, i requires i >= 0 => AdapterDelay(c, i + 1, draw(i + 1)));
  }

  /** Whether the first log entry of a call fails: it names the callable, which need not
      have a name, and there is one as soon as the first attempt raises. */
  predicate LoggingFails(named: bool, outcome: nat -> Outcome) {
    !named && outcome(1) != Returns
  }

  lemma NothingYet(c: Config, outcome: nat -> Outcome, draw: nat -> real, named: bool)
    requires c.maxAttempts >= 1
    ensures Underway(c, outcome, draw, 1, []) && Total(c, draw, 0) == 0.0
    ensures LoggingFails(named, outcome) <==> !named && outcome(1) != Returns
  {
  }

  class RetryAdapter {
    const config: Config
    var totalCalls: nat
    var successfulCalls: nat
    var failedCalls: nat
    var retryAttempts: nat
    var totalRetryDelay: real
    ghost var uncounted: nat

    /** Every call is counted as successful or failed, but for those that logging broke. */
    ghost predicate Valid()
      reads this
    {
      totalCalls == successfulCalls + failedCalls + uncounted
    }

    constructor (config: Config)
      ensures Valid() && this.config == config
    {
      this.config := config;
      totalCalls, successfulCalls, failedCalls, retryAttempts := 0, 0, 0, 0;
      totalRetryDelay, uncounted := 0.0, 0;
    }

    /** `call`; `named` says whether the callable has a `__name__`. */
    method Invoke(named: bool, outcome: nat -> Outcome, draw: nat -> real) returns (t: Trace, surface: Surface)
      requires config.maxAttempts >= 1 && Valid()
      modifies this
      ensures Valid() && totalCalls == old(totalCalls) + 1
      ensures uncounted == old(uncounted) + if LoggingFails(named, outcome) then 1 else 0
      ensures !LoggingFails(named, outcome) ==>
                && t == AdapterRun(config, outcome, draw) && surface == AdapterSurface(t.result)
                && successfulCalls == old(successfulCalls) + (if t.result.Success? then 1 else 0)
                && retryAttempts == old(retryAttempts) + t.invocations - 1
                && totalRetryDelay == old(totalRetryDelay) + Total(config, draw, t.invocations - 1)
      ensures LoggingFails(named, outcome) ==>
                && t.invocations == 1 && |t.waits| == 0 && surface == AttributeError
                && successfulCalls == old(successfulCalls) && failedCalls == old(failedCalls)
    {
      hide AdapterRun, Underway, Stop, Total;
      totalCalls := totalCalls + 1;
      var attempt, waits := Attempt(named, outcome, draw);
      t := Trace(ResultOf(outcome(attempt)), attempt, waits);
      if !named && outcome(1) != Returns {
        uncounted := uncounted + 1;
        surface := AttributeError;
      } else {
        AdapterRunIs(config, outcome, draw, attempt, waits);
        if outcome(attempt) == Returns {
          successfulCalls := successfulCalls + 1;
          surface := Value;
        } else {
          failedCalls := failedCalls + 1;
          surface := LastException;
        }
      }
    }

    /** The loop of `call`, up to the attempt at which it is left. */
    method Attempt(named: bool, outcome: nat -> Outcome, draw: nat -> real) returns (attempt: nat, waits: seq<real>)
      requires config.maxAttempts >= 1
      modifies this`retryAttempts, this`totalRetryDelay
      ensures 1 <= attempt <= config.maxAttempts && |waits| == attempt - 1
      ensures LoggingFails(named, outcome) ==> attempt == 1
      ensures !LoggingFails(named, outcome) ==>
                && Underway(config, outcome, draw, attempt, waits)
                && (attempt == config.maxAttempts || outcome(attempt) != RaisesRetryable)
                && retryAttempts == old(retryAttempts) + attempt - 1
                && totalRetryDelay == old(totalRetryDelay) + Total(config, draw, attempt - 1)
    {
      hide *;
      NothingYet(config, outcome, draw, named);
      attempt, waits := 1, [];
      while outcome(attempt) == RaisesRetryable && attempt < config.maxAttempts
        invariant 1 <= attempt <= config.maxAttempts && |waits| == attempt - 1
        invariant attempt > 1 ==> named
        invariant Underway(config, outcome, draw, attempt, waits)
        invariant retryAttempts == old(retryAttempts) + attempt - 1
        invariant totalRetryDelay == old(totalRetryDelay) + Total(config, draw, attempt - 1)
      {
        var delay := AdapterDelay(config, attempt, draw(attempt));
        TotalStep(config, draw, attempt - 1);
        retryAttempts, totalRetryDelay := retryAttempts + 1, totalRetryDelay + delay;
        if !named {
          return;
        }
        UnderwayStep(config, outcome, draw, attempt, waits);
        waits := waits + [delay];
        attempt := attempt + 1;
      }
    }
  }
}
