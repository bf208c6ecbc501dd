/** The Redis bucket against the local one, with equal capacity and equal rate, on the
    same call times. */
module BucketRefinement {
  import opened Wrappers
  import opened History
  import opened RateLimitConfig
  import R = RedisLimiter
  import TB = TokenBucket

  /** The local bucket with the same capacity and the same tokens per second. */
  function Local(p: R.Params): Config
    requires p.Valid()
  {
    Config(p.tokens as real / p.interval as real, p.capacity, TokenBucket, 1.0)
  }

  predicate SameTimes(times: seq<int>, h: seq<Call>) {
    |times| == |h| && forall k | 0 <= k < |h| :: h[k].time == times[k] as real
  }

  /** An hour at this rate fills the bucket. */
  predicate FillsInAnHour(p: R.Params) {
    R.EXPIRY * p.tokens >= p.capacity * p.interval
  }

  // Arithmetic on named products, one step at a time.

  lemma RealProduct(a: int, b: int)
    ensures (a * b) as real == a as real * b as real
  {
  }

  lemma Regroup(x: real, y: real, z: real)
    ensures x * y * z == x * (y * z) == (x * z) * y
  {
  }

  lemma ScaleBoth(x: real, y: real, n: real)
    requires n > 0.0
    ensures x * n <= y * n <==> x <= y
    ensures x * n < y * n <==> x < y
  {
    assert (y - x) * n == y * n - x * n;
    if x < y {
      assert (y - x) * n > 0.0;
    } else if x > y {
      assert (x - y) * n > 0.0;
    }
  }

  lemma GrowBoth(x: real, y: real, n: real)
    requires x <= y && n >= 0.0
    ensures x * n <= y * n
  {
    assert (y - x) * n >= 0.0;
    assert (y - x) * n == y * n - x * n;
  }

  lemma AtMost(a: int, i: int, e: int, x: real)
    requires i >= 1 && a * i <= e && x * i as real == e as real
    ensures a as real <= x
  {
    RealProduct(a, i);
    ScaleBoth(a as real, x, i as real);
  }

  lemma Below(a: int, i: int, e: int, x: real)
    requires i >= 1 && e < a * i && x * i as real == e as real
    ensures x < a as real
  {
    RealProduct(a, i);
    ScaleBoth(x, a as real, i as real);
  }

  lemma RateIs(p: R.Params)
    requires p.Valid()
    ensures Local(p).rate >= 0.0 && Local(p).rate * p.interval as real == p.tokens as real
  {
    assert p.tokens as real / p.interval as real >= 0.0;
  }

  /** What an hour earns at the local rate, times the interval. */
  lemma HourTimesInterval(p: R.Params)
    requires p.Valid()
    ensures TB.Accrued(Local(p), 0.0, R.EXPIRY as real) * p.interval as real == (R.EXPIRY * p.tokens) as real
  {
    var e, rate, n := R.EXPIRY as real, Local(p).rate, p.interval as real;
    assert TB.Accrued(Local(p), 0.0, e) == e * rate;
    hide *;
    RateIs(p);
    Regroup(e, rate, n);
    RealProduct(R.EXPIRY, p.tokens);
  }

  lemma WholeIntervalsEarnLess(p: R.Params, from: int, to: int)
    requires p.Valid() && from <= to
    ensures R.Earned(p, to - from) as real <= TB.Accrued(Local(p), from as real, to as real)
  {
    var elapsed, rate, n := to - from, Local(p).rate, p.interval;
    var q := elapsed / n;
    assert R.Earned(p, elapsed) == q * p.tokens;
    assert TB.Accrued(Local(p), from as real, to as real) == elapsed as real * rate;
    assert q * n <= elapsed;
    hide *;
    RateIs(p);
    RealProduct(q, p.tokens);
    RealProduct(q, n);
    Regroup(q as real, rate, n as real);
    GrowBoth((q * n) as real, elapsed as real, rate);
  }

  lemma HourAccrues(p: R.Params, from: real, to: real)
    requires p.Valid() && FillsInAnHour(p) && to - from >= R.EXPIRY as real
    ensures TB.Accrued(Local(p), from, to) >= p.capacity as real
  {
    var e, i, hour := R.EXPIRY * p.tokens, p.interval, TB.Accrued(Local(p), 0.0, R.EXPIRY as real);
    assert p.capacity * i <= e;
    RateIs(p);
    hide *;
    HourTimesInterval(p);
    AtMost(p.capacity, i, e, hour);
    LongerAccruesMore(Local(p), R.EXPIRY as real, from, to);
  }

  lemma LongerAccruesMore(c: Config, time: real, from: real, to: real)
    requires c.rate >= 0.0 && to - from >= time
    ensures TB.Accrued(c, 0.0, time) <= TB.Accrued(c, from, to)
  {
    GrowBoth(time, to - from, c.rate);
  }

  /** The Redis bucket never holds more than the local one. */
  lemma {:induction false} NeverHoldsMore(
    p: R.Params, times: seq<int>, bs: seq<TB.Bucket>, h: seq<Call>, k: nat)
    requires p.Valid() && TB.IsRun(Local(p), bs, h) && SameTimes(times, h) && R.Nondecreasing(times)
    requires R.GapsBelow(times, R.EXPIRY) || FillsInAnHour(p)
    requires k < |h| && bs[0].lastRefill <= h[0].time
    ensures 0.0 <= TB.Refilled(Local(p), bs[k], h[k].time)
    ensures R.Level(p, times, k) as real <= TB.Refilled(Local(p), bs[k], h[k].time)
  {
    var c := Local(p);
    hide R.Earned, TB.Accrued, TB.Refilled, TB.Step;
    if k == 0 {
      TB.FirstLevel(c, bs, h);
    } else {
      NeverHoldsMore(p, times, bs, h, k - 1);
      TB.LevelStep(c, bs, h, k);
      assert h[k - 1].admitted == (TB.Refilled(c, bs[k - 1], h[k - 1].time) >= 1.0) by {
        LocalDecides(c, bs, h, k - 1);
      }
      TB.AccruesForward(c, h[k - 1].time, h[k].time);
      WholeIntervalsEarnLess(p, times[k - 1], times[k]);
      if R.Gap(times, k) >= R.EXPIRY {
        HourAccrues(p, h[k - 1].time, h[k].time);
      }
    }
  }

  lemma LocalDecides(c: Config, bs: seq<TB.Bucket>, h: seq<Call>, k: nat)
    requires TB.IsRun(c, bs, h) && k < |h|
    ensures h[k].admitted == (TB.Refilled(c, bs[k], h[k].time) >= 1.0)
  {
    hide TB.Refilled;
    assert TB.Step(c, bs[k], h[k].time) == (bs[k + 1], h[k].admitted);
  }

  /** Both buckets run over the same calls, on a clock that never runs backwards. */
  ghost predicate SideBySide(p: R.Params, hs: seq<Option<R.Hash>>, times: seq<int>, log: seq<bool>,
                             bs: seq<TB.Bucket>, h: seq<Call>)
    requires p.Valid()
  {
    && R.IsRun(p, hs, times, log)
    && TB.IsRun(Local(p), bs, h)
    && SameTimes(times, h)
    && R.Nondecreasing(times)
    && (h != [] ==> bs[0].lastRefill <= h[0].time)
  }

  /** Every request the Redis bucket admits, the local one admits too. */
  ghost predicate Refines(p: R.Params)
    requires p.Valid()
  {
    forall hs, times, log, bs, h | SideBySide(p, hs, times, log, bs, h) :: AdmitsNoMore(log, h)
  }

  predicate AdmitsNoMore(log: seq<bool>, h: seq<Call>) {
    |log| == |h| && forall k | 0 <= k < |h| :: log[k] ==> h[k].admitted
  }

  lemma RunRefines(p: R.Params, hs: seq<Option<R.Hash>>, times: seq<int>, log: seq<bool>,
                   bs: seq<TB.Bucket>, h: seq<Call>)
    requires p.Valid() && SideBySide(p, hs, times, log, bs, h)
    requires R.GapsBelow(times, R.EXPIRY) || FillsInAnHour(p)
    ensures AdmitsNoMore(log, h)
  {
    hide R.Level, TB.Refilled, R.GapsBelow, FillsInAnHour, R.Script;
    forall k | 0 <= k < |h| ensures log[k] ==> h[k].admitted {
      R.RunFollowsLevel(p, hs, times, log, k);
      NeverHoldsMore(p, times, bs, h, k);
      LocalDecides(Local(p), bs, h, k);
    }
  }

  lemma LocalRejectsLast(c: Config, n: nat, m: nat, x: real) returns (bs: seq<TB.Bucket>, h: seq<Call>)
    requires c.burst == n && x == TB.Accrued(c, 0.0, R.EXPIRY as real)
    requires m < n && m as real <= x < (m + 1) as real && x < n as real
    ensures TB.IsRun(c, bs, h) && SameTimes(R.OvertakingTimes(n, m), h)
    ensures bs[0].lastRefill == 0.0 && !h[n + m].admitted
  {
    NoTime(c);
    hide TB.Accrued;
    h := seq(n + m + 1, k => Call(if k < n then 0.0 else R.EXPIRY as real, k < n + m));
    bs := seq(n + m + 2, k => if k <= n then TB.Bucket((n - k) as real, 0.0)
                              else TB.Bucket(x - (if k <= n + m then k - n else m) as real, R.EXPIRY as real));
    forall k | 0 <= k < |h| ensures TB.Step(c, bs[k], h[k].time) == (bs[k + 1], h[k].admitted) {
    }
  }

  lemma NoTime(c: Config)
    ensures TB.Accrued(c, 0.0, 0.0) == 0.0 == TB.Accrued(c, R.EXPIRY as real, R.EXPIRY as real)
  {
  }

  /** After the hour the expired hash is full again, the local bucket is not, and it
      admits fewer requests than Redis does. */
  lemma ExpiryOvertakes(p: R.Params)
    returns (hs: seq<Option<R.Hash>>, times: seq<int>, log: seq<bool>, bs: seq<TB.Bucket>, h: seq<Call>)
    requires p.Valid() && !FillsInAnHour(p)
    ensures SideBySide(p, hs, times, log, bs, h)
    ensures !AdmitsNoMore(log, h)
  {
    var m := R.EXPIRY * p.tokens / p.interval;
    HourFallsShort(p);
    times := R.OvertakingTimes(p.capacity, m);
    hs, log := R.AdmitsAll(p, m);
    hide TB.Accrued, R.Script, TB.Step;
    bs, h := LocalRejectsLast(Local(p), p.capacity, m, TB.Accrued(Local(p), 0.0, R.EXPIRY as real));
    assert log[p.capacity + m] && !h[p.capacity + m].admitted;
  }

  lemma HourFallsShort(p: R.Params)
    requires p.Valid() && !FillsInAnHour(p)
    ensures var m := R.EXPIRY * p.tokens / p.interval;
            var x := TB.Accrued(Local(p), 0.0, R.EXPIRY as real);
            0 <= m < p.capacity && m as real <= x < (m + 1) as real && x < p.capacity as real
  {
    var e, i, x := R.EXPIRY * p.tokens, p.interval, TB.Accrued(Local(p), 0.0, R.EXPIRY as real);
    HourTimesInterval(p);
    assert e < p.capacity * i;
    hide *;
    Below(p.capacity, i, e, x);
    var m := e / i;
    assert 0 <= m && m as real <= x < (m + 1) as real by {
      WholePart(e, i);
      AtMost(m, i, e, x);
      Below(m + 1, i, e, x);
    }
  }

  lemma WholePart(e: nat, n: nat)
    requires n >= 1
    ensures 0 <= e / n && e / n * n <= e < (e / n + 1) * n
  {
  }

  /** The Redis bucket refines the local one on every run exactly when an hour at its
      rate fills it. */
  lemma RefinesIffFillsInAnHour(p: R.Params)
    requires p.Valid()
    ensures Refines(p) <==> FillsInAnHour(p)
  {
    if FillsInAnHour(p) {
      forall hs, times, log, bs, h | SideBySide(p, hs, times, log, bs, h)
        ensures AdmitsNoMore(log, h)
      {
        RunRefines(p, hs, times, log, bs, h);
      }
    } else {
      var hs, times, log, bs, h := ExpiryOvertakes(p);
    }
  }
}
