/** What the lazily refilled token bucket means: a call is admitted exactly when
    admitting it breaks no (burst, rate) bound over any window that ends now. */
module TokenBucket {
  import opened History
  import opened Greedy
  import opened RateLimitConfig

  datatype Bucket = Bucket(tokens: real, lastRefill: real)

  function Init(c: Config, created: real): Bucket {
    Bucket(c.burst as real, created)
  }

  function Accrued(c: Config, from: real, to: real): real {
    (to - from) * c.rate
  }

  function Refilled(c: Config, b: Bucket, now: real): real {
    var tokens := b.tokens + Accrued(c, b.lastRefill, now);
    if tokens <= c.burst as real then tokens else c.burst as real
  }

  function Step(c: Config, b: Bucket, now: real): (Bucket, bool) {
    var tokens := Refilled(c, b, now);
    if tokens >= 1.0 then (Bucket(tokens - 1.0, now), true) else (Bucket(tokens, now), false)
  }

  /** `bs` are the states a bucket goes through while it decides the calls of `h`. */
  ghost predicate IsRun(c: Config, bs: seq<Bucket>, h: seq<Call>) {
    && |bs| == |h| + 1
    && bs[0] == Init(c, bs[0].lastRefill)
    && (forall k {:trigger h[k]} | 0 <= k < |h| :: Step(c, bs[k], h[k].time) == (bs[k + 1], h[k].admitted))
  }

  /** The (burst, rate) bound on the calls i..k. */
  function Bound(c: Config, h: seq<Call>): (int, int) -> real {
    (i, k) => if 0 <= i <= k < |h| then c.burst as real + Accrued(c, h[i].time, h[k].time) else 0.0
  }

  lemma BoundGrows(c: Config, h: seq<Call>, i: nat, k: nat)
    requires i < k < |h|
    ensures Bound(c, h)(i, k) == Bound(c, h)(i, k - 1) + Accrued(c, h[k - 1].time, h[k].time)
  {
  }

  lemma BoundStarts(c: Config, h: seq<Call>, k: nat)
    requires k < |h|
    ensures Bound(c, h)(k, k) == c.burst as real
  {
  }

  lemma AccruesForward(c: Config, from: real, to: real)
    requires c.rate >= 0.0 && from <= to
    ensures Accrued(c, from, to) >= 0.0
  {
  }

  /** `x` is the least of what the bounds leave over, over all windows ending at call `k`. */
  ghost predicate IsLeastSlack(x: real, h: seq<Call>, bound: (int, int) -> real, k: nat)
    requires k < |h|
  {
    && (forall i | 0 <= i <= k :: x <= bound(i, k) - Admitted(h, i, k) as real)
    && (exists i | 0 <= i <= k :: x == bound(i, k) - Admitted(h, i, k) as real)
  }

  lemma LeastSlackStep(was: real, x: real, growth: real, burst: real, h: seq<Call>, bound: (int, int) -> real, k: nat)
    requires 0 < k < |h| && IsLeastSlack(was, h, bound, k - 1)
    requires bound(k, k) == burst
    requires forall i | 0 <= i < k :: bound(i, k) == bound(i, k - 1) + growth
    requires var filled := was - (if h[k - 1].admitted then 1.0 else 0.0) + growth;
             x == if filled <= burst then filled else burst
    ensures IsLeastSlack(x, h, bound, k)
  {
    forall i | 0 <= i <= k ensures x <= bound(i, k) - Admitted(h, i, k) as real {
      if i < k {
        assert was <= bound(i, k - 1) - Admitted(h, i, k - 1) as real;
      }
    }
    var j :| 0 <= j <= k - 1 && was == bound(j, k - 1) - Admitted(h, j, k - 1) as real;
    var j' := if x == burst then k else j;
    assert x == bound(j', k) - Admitted(h, j', k) as real;
  }

  lemma LevelStep(c: Config, bs: seq<Bucket>, h: seq<Call>, k: nat)
    requires IsRun(c, bs, h) && 0 < k < |h|
    ensures var filled := Refilled(c, bs[k - 1], h[k - 1].time) - (if h[k - 1].admitted then 1.0 else 0.0)
                          + Accrued(c, h[k - 1].time, h[k].time);
            Refilled(c, bs[k], h[k].time) == if filled <= c.burst as real then filled else c.burst as real
  {
    assert Step(c, bs[k - 1], h[k - 1].time) == (bs[k], h[k - 1].admitted);
  }

  lemma FirstLevel(c: Config, bs: seq<Bucket>, h: seq<Call>)
    requires c.rate >= 0.0 && IsRun(c, bs, h)
    requires h != [] && bs[0].lastRefill <= h[0].time
    ensures Refilled(c, bs[0], h[0].time) == c.burst as real == Bound(c, h)(0, 0)
  {
    AccruesForward(c, bs[0].lastRefill, h[0].time);
  }

  /** The one number the bucket keeps is the least slack over all windows. */
  lemma {:induction false} TokensAreLeastSlack(c: Config, bs: seq<Bucket>, h: seq<Call>, k: nat)
    requires c.Valid() && IsRun(c, bs, h)
    requires k < |h| && bs[0].lastRefill <= h[0].time
    ensures IsLeastSlack(Refilled(c, bs[k], h[k].time), h, Bound(c, h), k)
  {
    hide Refilled, Accrued, Step, Bound;
    var bound := Bound(c, h);
    if k == 0 {
      FirstLevel(c, bs, h);
      assert Refilled(c, bs[0], h[0].time) == bound(0, 0) - Admitted(h, 0, 0) as real;
    } else {
      TokensAreLeastSlack(c, bs, h, k - 1);
      LevelStep(c, bs, h, k);
      BoundStarts(c, h, k);
      forall i | 0 <= i < k ensures bound(i, k) == bound(i, k - 1) + Accrued(c, h[k - 1].time, h[k].time) {
        BoundGrows(c, h, i, k);
      }
      LeastSlackStep(Refilled(c, bs[k - 1], h[k - 1].time), Refilled(c, bs[k], h[k].time),
                     Accrued(c, h[k - 1].time, h[k].time), c.burst as real, h, bound, k);
    }
  }

  /** A call is admitted exactly when, for every window that ends with it, the
      window's admissions including this one are at most burst + rate * length. */
  lemma AdmittedIffNoWindowBreaks(c: Config, bs: seq<Bucket>, h: seq<Call>)
    requires c.Valid() && IsRun(c, bs, h)
    requires h != [] ==> bs[0].lastRefill <= h[0].time
    ensures IsGreedy(h, Bound(c, h))
  {
    hide Bound, Refilled;
    var bound := Bound(c, h);
    forall k | 0 <= k < |h|
      ensures h[k].admitted <==> forall i | 0 <= i <= k :: (Admitted(h, i, k) + 1) as real <= bound(i, k)
    {
      TokensAreLeastSlack(c, bs, h, k);
      var level := Refilled(c, bs[k], h[k].time);
      if level >= 1.0 {
        forall i | 0 <= i <= k ensures (Admitted(h, i, k) + 1) as real <= bound(i, k) {
          assert level <= bound(i, k) - Admitted(h, i, k) as real;
        }
      } else {
        var j :| 0 <= j <= k && level == bound(j, k) - Admitted(h, j, k) as real;
        assert (Admitted(h, j, k) + 1) as real > bound(j, k);
      }
    }
  }

  lemma BoundIsSteady(c: Config, h: seq<Call>)
    requires c.Valid() && InOrder(h)
    ensures Steady(|h|, Bound(c, h))
  {
    hide Bound, Accrued;
    var bound := Bound(c, h);
    forall k | 0 <= k < |h| ensures bound(k, k) >= 0.0 {
      BoundStarts(c, h, k);
    }
    forall i, k | 0 <= i < k < |h| ensures bound(i, k) >= bound(i, k - 1) {
      BoundGrows(c, h, i, k);
      AccruesForward(c, h[k - 1].time, h[k].time);
    }
  }

  lemma BoundWithin(c: Config, h: seq<Call>, i: nat, k: nat, from: real, to: real)
    requires c.Valid() && i <= k < |h| && from <= h[i].time && h[k].time <= to
    ensures Bound(c, h)(i, k) <= c.burst as real + Accrued(c, from, to)
  {
    assert (h[k].time - h[i].time) * c.rate <= (to - from) * c.rate;
  }

  /** Every interval of length L admits at most burst + rate * L requests. */
  lemma IntervalBounded(c: Config, bs: seq<Bucket>, h: seq<Call>, from: real, to: real)
    requires c.Valid() && IsRun(c, bs, h) && from <= to
    requires InOrder(h) && (h != [] ==> bs[0].lastRefill <= h[0].time)
    ensures AdmittedBetween(h, from, to) as real <= c.burst as real + (to - from) * c.rate
  {
    assert Accrued(c, from, to) == (to - from) * c.rate;
    hide Bound, Accrued, IsRun;
    var limit := c.burst as real + Accrued(c, from, to);
    AdmittedIffNoWindowBreaks(c, bs, h);
    BoundIsSteady(c, h);
    forall i, k | 0 <= i <= k < |h| && from <= h[i].time && h[k].time <= to
      ensures Admitted(h, i, k + 1) as real <= limit
    {
      BoundWithin(c, h, i, k, from, to);
      GreedyConforms(h, Bound(c, h), i, k);
    }
    AccruesForward(c, from, to);
    BoundInterval(h, from, to, limit);
  }

  /** No policy that keeps every window within (burst, rate) has admitted more by
      any point of the run. */
  lemma NoConformingPolicyAdmitsMore(c: Config, bs: seq<Bucket>, h: seq<Call>, policy: seq<Call>, k: nat)
    requires c.Valid() && IsRun(c, bs, h)
    requires h != [] ==> bs[0].lastRefill <= h[0].time
    requires k <= |h| == |policy| && Conforms(policy, Bound(c, h))
    ensures Admitted(policy, 0, k) <= Admitted(h, 0, k)
  {
    AdmittedIffNoWindowBreaks(c, bs, h);
    GreedyIsMaximal(h, policy, Bound(c, h), k);
  }
}
