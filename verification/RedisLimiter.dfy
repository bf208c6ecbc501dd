/** The shared rate limiter: an integer token bucket kept in Redis, one hash per
    (tenant, plan, scope), updated by a script that runs atomically. */
module RedisLimiter {
  import opened Wrappers

  const EXPIRY := 3600

  datatype Params = Params(capacity: nat, tokens: nat, interval: nat) {
    predicate Valid() {
      interval >= 1
    }
  }

  datatype Hash = Hash(tokens: int, lastRefill: int)

  /** What the script finds under the key: a hash not written for an hour is gone. */
  function Stored(h: Option<Hash>, now: int): Option<Hash> {
    if h.Some? && now - h.value.lastRefill < EXPIRY then h else None
  }

  /** The tokens earned over `elapsed` seconds; a started interval earns nothing. */
  function Earned(p: Params, elapsed: int): int
    requires p.Valid()
  {
    elapsed / p.interval * p.tokens
  }

  function Refilled(p: Params, h: Option<Hash>, now: int): int
    requires p.Valid()
  {
    var bucket := Stored(h, now).GetOr(Hash(p.capacity, now));
    var tokens := bucket.tokens + Earned(p, now - bucket.lastRefill);
    if tokens <= p.capacity then tokens else p.capacity
  }

  function Script(p: Params, h: Option<Hash>, now: int): (Hash, bool)
    requires p.Valid()
  {
    var tokens := Refilled(p, h, now);
    if tokens >= 1 then (Hash(tokens - 1, now), true) else (Hash(tokens, now), false)
  }

  /** A token is taken exactly if there was one. */
  lemma ScriptDecides(p: Params, h: Option<Hash>, now: int)
    requires p.Valid()
    ensures var (left, ok) := Script(p, h, now);
            if ok then 0 <= left.tokens < p.capacity else left.tokens <= 0
  {
    hide Earned;
  }

  /** `hs` are the hashes one key goes through while the script decides the calls made
      at the whole seconds `times`; `log` are the decisions. */
  ghost predicate IsRun(p: Params, hs: seq<Option<Hash>>, times: seq<int>, log: seq<bool>)
    requires p.Valid()
  {
    && |hs| == |times| + 1 == |log| + 1
    && hs[0] == None
    && (forall k {:trigger log[k]} | 0 <= k < |log| ::
          hs[k + 1] == Some(Script(p, hs[k], times[k]).0) && log[k] == Script(p, hs[k], times[k]).1)
  }

  predicate Nondecreasing(times: seq<int>) {
    forall i, j :: 0 <= i <= j < |times| ==> times[i] <= times[j]
  }

  /** The time between call `k` and the one before it. */
  function Gap(times: seq<int>, k: int): int
    requires 0 < k < |times|
  {
    times[k] - times[k - 1]
  }

  predicate GapsBelow(times: seq<int>, bound: int) {
    forall k | 0 < k < |times| :: Gap(times, k) < bound
  }

  function Admitted(log: seq<bool>, i: nat, k: nat): (n: nat)
    requires k <= |log|
  {
    if i >= k then 0 else Admitted(log, i, k - 1) + if log[k - 1] then 1 else 0
  }

  lemma EarnsForward(p: Params, elapsed: nat)
    requires p.Valid()
    ensures Earned(p, elapsed) >= 0
    ensures elapsed < p.interval ==> Earned(p, elapsed) == 0
  {
  }

  /** The tokens call `k` finds: full at first and after an hour's silence, otherwise
      what the previous call left plus what the whole intervals since it earned. */
  function Level(p: Params, times: seq<int>, k: nat): int
    requires p.Valid() && k < |times|
  {
    if k == 0 || Gap(times, k) >= EXPIRY then p.capacity else
      var was := Level(p, times, k - 1);
      var filled := was - (if was >= 1 then 1 else 0) + Earned(p, Gap(times, k));
      if filled <= p.capacity then filled else p.capacity
  }

  lemma {:induction false} RunFollowsLevel(
    p: Params, hs: seq<Option<Hash>>, times: seq<int>, log: seq<bool>, k: nat)
    requires p.Valid() && IsRun(p, hs, times, log) && k < |times|
    ensures Refilled(p, hs[k], times[k]) == Level(p, times, k)
    ensures log[k] == (Level(p, times, k) >= 1)
  {
    hide Earned;
    EarnsForward(p, 0);
    assert log[k] == Script(p, hs[k], times[k]).1;
    if k > 0 {
      RunFollowsLevel(p, hs, times, log, k - 1);
      assert log[k - 1] == Script(p, hs[k - 1], times[k - 1]).1;
    }
  }

  lemma WholeParts(q: int, m: int, n: nat)
    requires n >= 1 && q * n <= m
    ensures q <= m / n
  {
    var d := m / n;
    assert m < (d + 1) * n;
    if q >= d + 1 {
      MultiplyBoth(d + 1, q, n);
    }
  }

  lemma MultiplyBoth(x: int, y: int, n: nat)
    requires x <= y
    ensures x * n <= y * n
  {
  }

  lemma Superadditive(p: Params, a: nat, b: nat)
    requires p.Valid()
    ensures Earned(p, a) + Earned(p, b) <= Earned(p, a + b)
  {
    var x, y, z := a / p.interval, b / p.interval, (a + b) / p.interval;
    assert (x + y) * p.interval <= a + b;
    WholeParts(x + y, a + b, p.interval);
    MultiplyBoth(x + y, z, p.tokens);
    assert x * p.tokens + y * p.tokens == (x + y) * p.tokens;
  }

  function Capped(p: Params, tokens: int): int {
    if tokens <= p.capacity then tokens else p.capacity
  }

  lemma LevelStep(p: Params, times: seq<int>, k: nat)
    requires p.Valid() && 0 < k < |times| && Gap(times, k) < EXPIRY
    ensures var was := Level(p, times, k - 1);
            Level(p, times, k) == Capped(p, was - (if was >= 1 then 1 else 0) + Earned(p, Gap(times, k)))
  {
    hide Earned;
  }

  lemma FirstLevel(p: Params, times: seq<int>)
    requires p.Valid() && |times| > 0
    ensures Level(p, times, 0) == p.capacity
  {
  }

  lemma InOrderGap(times: seq<int>, i: nat, k: nat)
    requires Nondecreasing(times) && i < k < |times|
    ensures times[i] <= times[k - 1] && 0 <= Gap(times, k)
    ensures times[k - 1] - times[i] + Gap(times, k) == times[k] - times[i]
  {
  }

  lemma GapIsBelow(times: seq<int>, bound: int, k: nat)
    requires GapsBelow(times, bound) && 0 < k < |times|
    ensures Gap(times, k) < bound
  {
  }

  lemma AdmittedStep(log: seq<bool>, i: nat, k: nat)
    requires i < k <= |log|
    ensures Admitted(log, i, k) == Admitted(log, i, k - 1) + if log[k - 1] then 1 else 0
  {
  }

  lemma {:induction false} LevelBounded(p: Params, times: seq<int>, log: seq<bool>, i: nat, k: nat)
    requires p.Valid() && Nondecreasing(times) && GapsBelow(times, EXPIRY)
    requires i <= k < |times| == |log| && forall j | 0 <= j < |log| :: log[j] == (Level(p, times, j) >= 1)
    ensures 0 <= Level(p, times, k) <= p.capacity + Earned(p, times[k] - times[i]) - Admitted(log, i, k)
  {
    hide Earned, Level, Nondecreasing, GapsBelow, Gap, Admitted;
    EarnsForward(p, 0);
    if k == 0 {
      FirstLevel(p, times);
      assert Admitted(log, 0, 0) == 0 by { NothingAdmitted(log, 0); }
    } else {
      var gap := Gap(times, k);
      InOrderGap(times, if i < k then i else k - 1, k);
      GapIsBelow(times, EXPIRY, k);
      EarnsForward(p, gap);
      LevelStep(p, times, k);
      LevelBounded(p, times, log, if i < k then i else k - 1, k - 1);
      if i < k {
        Superadditive(p, times[k - 1] - times[i], gap);
        AdmittedStep(log, i, k);
      } else {
        NothingAdmitted(log, k);
      }
    }
  }

  lemma NothingAdmitted(log: seq<bool>, k: nat)
    requires k <= |log|
    ensures Admitted(log, k, k) == 0
  {
  }

  /** While the hash never expires, the calls i..k admit at most the capacity plus
      the tokens of the whole intervals between them. */
  lemma CallsBounded(p: Params, hs: seq<Option<Hash>>, times: seq<int>, log: seq<bool>, i: nat, k: nat)
    requires p.Valid() && IsRun(p, hs, times, log)
    requires Nondecreasing(times) && GapsBelow(times, EXPIRY)
    requires i <= k < |times|
    ensures Admitted(log, i, k + 1) <= p.capacity + (times[k] - times[i]) / p.interval * p.tokens
  {
    assert Earned(p, times[k] - times[i]) == (times[k] - times[i]) / p.interval * p.tokens;
    hide Earned, Level;
    forall j | 0 <= j < |log| ensures log[j] == (Level(p, times, j) >= 1) {
      RunFollowsLevel(p, hs, times, log, j);
    }
    LevelBounded(p, times, log, i, k);
  }

  // ---- The bound across expiry ----

  lemma {:induction false} EarnsMore(p: Params, a: nat, b: nat)
    requires p.Valid() && a <= b
    ensures Earned(p, a) <= Earned(p, b)
  {
    hide Earned;
    Superadditive(p, a, b - a);
    EarnsForward(p, b - a);
  }

  /** An hour of whole intervals fills the bucket. */
  predicate FillsBeforeExpiry(p: Params)
    requires p.Valid()
  {
    Earned(p, EXPIRY) >= p.capacity
  }

  lemma ExpiredLevel(p: Params, times: seq<int>, k: nat)
    requires p.Valid() && 0 < k < |times| && Gap(times, k) >= EXPIRY
    ensures Level(p, times, k) == p.capacity
  {
  }

  /** The level's bound, with or without expiry in between. */
  lemma {:induction false} LevelBoundedAcrossExpiry(p: Params, times: seq<int>, log: seq<bool>, i: nat, k: nat)
    requires p.Valid() && Nondecreasing(times) && FillsBeforeExpiry(p)
    requires i <= k < |times| == |log| && forall j | 0 <= j < |log| :: log[j] == (Level(p, times, j) >= 1)
    ensures 0 <= Level(p, times, k) <= p.capacity + Earned(p, times[k] - times[i]) - Admitted(log, i, k)
  {
    hide Earned, Level, Nondecreasing, Gap, Admitted;
    EarnsForward(p, 0);
    if k == 0 {
      FirstLevel(p, times);
      NothingAdmitted(log, 0);
    } else {
      var gap := Gap(times, k);
      InOrderGap(times, if i < k then i else k - 1, k);
      EarnsForward(p, gap);
      LevelBoundedAcrossExpiry(p, times, log, if i < k then i else k - 1, k - 1);
      if gap < EXPIRY {
        LevelStep(p, times, k);
      } else {
        ExpiredLevel(p, times, k);
        EarnsMore(p, EXPIRY, gap);
      }
      if i < k {
        Superadditive(p, times[k - 1] - times[i], gap);
        AdmittedStep(log, i, k);
      } else {
        NothingAdmitted(log, k);
      }
    }
  }

  /** The call times of a client that drains the bucket, waits out the hour, and comes
      back for `m` + 1 more requests. */
  function OvertakingTimes(n: nat, m: nat): seq<int> {
    seq(n + m + 1, k => if k < n then 0 else EXPIRY)
  }

  lemma AdmitsAll(p: Params, m: nat) returns (hs: seq<Option<Hash>>, log: seq<bool>)
    requires p.Valid() && m < p.capacity
    ensures IsRun(p, hs, OvertakingTimes(p.capacity, m), log)
    ensures forall k | 0 <= k < |log| :: log[k]
  {
    hide Earned;
    var n := p.capacity;
    var times := OvertakingTimes(n, m);
    log := seq(n + m + 1, k => true);
    hs := seq(n + m + 2, k => if k == 0 then None else if k <= n then Some(Hash(n - k, 0))
                              else Some(Hash(2 * n - k, EXPIRY)));
    EarnsForward(p, 0);
    forall k | 0 <= k < |log|
      ensures hs[k + 1] == Some(Script(p, hs[k], times[k]).0) && log[k] == Script(p, hs[k], times[k]).1
    {
    }
  }

  /** Every stretch of calls i..k of every run admits at most the capacity plus the tokens of
      the whole intervals between them. */
  ghost predicate AlwaysBounded(p: Params)
    requires p.Valid()
  {
    forall hs, times, log | IsRun(p, hs, times, log) && Nondecreasing(times) :: IsBounded(p, times, log)
  }

  predicate IsBounded(p: Params, times: seq<int>, log: seq<bool>)
    requires p.Valid()
  {
    |times| == |log| &&
    forall i, k | 0 <= i <= k < |times| :: Admitted(log, i, k + 1) <= p.capacity + Earned(p, times[k] - times[i])
  }

  lemma BoundedIfFills(p: Params, hs: seq<Option<Hash>>, times: seq<int>, log: seq<bool>)
    requires p.Valid() && FillsBeforeExpiry(p) && IsRun(p, hs, times, log) && Nondecreasing(times)
    ensures IsBounded(p, times, log)
  {
    assert |times| == |log|;
    hide Earned, Level, Admitted, IsRun, FillsBeforeExpiry, Nondecreasing;
    forall j | 0 <= j < |log| ensures log[j] == (Level(p, times, j) >= 1) {
      RunFollowsLevel(p, hs, times, log, j);
    }
    forall i, k | 0 <= i <= k < |times|
      ensures Admitted(log, i, k + 1) <= p.capacity + Earned(p, times[k] - times[i])
    {
      LevelBoundedAcrossExpiry(p, times, log, i, k);
      AdmittedStep(log, i, k + 1);
    }
  }

  lemma {:induction false} AllAdmitted(log: seq<bool>, k: nat)
    requires k <= |log| && forall j | 0 <= j < |log| :: log[j]
    ensures Admitted(log, 0, k) == k
  {
    if k > 0 {
      AllAdmitted(log, k - 1);
    }
  }

  /** Drain the bucket, wait for the hash to expire, drain the bucket again. */
  lemma TwoBucketsInAnHour(p: Params) returns (hs: seq<Option<Hash>>, times: seq<int>, log: seq<bool>)
    requires p.Valid() && !FillsBeforeExpiry(p)
    ensures IsRun(p, hs, times, log) && Nondecreasing(times) && !IsBounded(p, times, log)
  {
    hide Earned, IsRun;
    var n := p.capacity;
    EarnsForward(p, EXPIRY);
    times := OvertakingTimes(n, n - 1);
    hs, log := AdmitsAll(p, n - 1);
    assert |log| == |times| == 2 * n by { RunLengths(p, hs, times, log); }
    AllAdmitted(log, 2 * n);
    assert times[0] == 0 && times[2 * n - 1] == EXPIRY;
    assert Admitted(log, 0, 2 * n - 1 + 1) > n + Earned(p, times[2 * n - 1] - times[0]);
  }

  lemma RunLengths(p: Params, hs: seq<Option<Hash>>, times: seq<int>, log: seq<bool>)
    requires p.Valid() && IsRun(p, hs, times, log)
    ensures |log| == |times|
  {
  }

  /** The bound holds on every run, expiry or not, if and only if the whole intervals of an
      hour fill the bucket. */
  lemma AlwaysBoundedIff(p: Params)
    requires p.Valid()
    ensures AlwaysBounded(p) <==> EXPIRY / p.interval * p.tokens >= p.capacity
  {
    assert Earned(p, EXPIRY) == EXPIRY / p.interval * p.tokens;
    hide Earned, IsRun, IsBounded, Nondecreasing;
    if FillsBeforeExpiry(p) {
      forall hs, times, log | IsRun(p, hs, times, log) && Nondecreasing(times) ensures IsBounded(p, times, log) {
        BoundedIfFills(p, hs, times, log);
      }
    } else {
      var hs, times, log := TwoBucketsInAnHour(p);
    }
  }

  // ---- Starvation ----

  /** What is left of a full bucket after `k` calls if nothing is ever added. */
  function Unfilled(p: Params, k: nat): nat {
    if k <= p.capacity then p.capacity - k else 0
  }

  lemma {:induction false} BusyLevel(p: Params, times: seq<int>, k: nat)
    requires p.Valid() && Nondecreasing(times) && GapsBelow(times, EXPIRY)
    requires GapsBelow(times, p.interval)
    requires k < |times|
    ensures Level(p, times, k) == Unfilled(p, k)
  {
    hide Earned, Level, Nondecreasing, GapsBelow, Gap;
    if k == 0 {
      FirstLevel(p, times);
    } else {
      BusyLevel(p, times, k - 1);
      InOrderGap(times, k - 1, k);
      GapIsBelow(times, EXPIRY, k);
      GapIsBelow(times, p.interval, k);
      EarnsForward(p, Gap(times, k));
      LevelStep(p, times, k);
    }
  }

  lemma WholeIntervalEarns(p: Params, elapsed: nat)
    requires p.Valid() && elapsed >= p.interval
    ensures Earned(p, elapsed) >= p.tokens
  {
    WholeParts(1, elapsed, p.interval);
    MultiplyBoth(1, elapsed / p.interval, p.tokens);
  }

  /** While no key expires, a bucket never gets a token back if and only if no call comes a
      whole interval after the one before it. */
  lemma NeverRefilledIff(p: Params, times: seq<int>)
    requires p.Valid() && p.tokens >= 1 && p.capacity >= 1
    requires Nondecreasing(times) && GapsBelow(times, EXPIRY)
    ensures (forall k | 0 <= k < |times| :: Level(p, times, k) == Unfilled(p, k)) <==> GapsBelow(times, p.interval)
  {
    hide Earned, Level, Nondecreasing, Gap;
    if GapsBelow(times, p.interval) {
      forall k | 0 <= k < |times| ensures Level(p, times, k) == Unfilled(p, k) {
        BusyLevel(p, times, k);
      }
    } else {
      var k :| 0 < k < |times| && Gap(times, k) >= p.interval;
      InOrderGap(times, k - 1, k);
      GapIsBelow(times, EXPIRY, k);
      WholeIntervalEarns(p, Gap(times, k));
      LevelStep(p, times, k);
      assert Level(p, times, k - 1) == Unfilled(p, k - 1) ==> Level(p, times, k) > Unfilled(p, k);
    }
  }

  /** Every call restarts the interval.  As long as calls keep coming faster than one
      per interval the bucket is never refilled: over the whole run, however long,
      exactly the first `capacity` calls are admitted. */
  lemma {:induction false} BusyBucketStarves(
    p: Params, hs: seq<Option<Hash>>, times: seq<int>, log: seq<bool>, k: nat)
    requires p.Valid() && IsRun(p, hs, times, log)
    requires Nondecreasing(times) && GapsBelow(times, EXPIRY)
    requires GapsBelow(times, p.interval)
    requires k <= |times|
    ensures Admitted(log, 0, k) == if k <= p.capacity then k else p.capacity
    ensures k < |times| ==> log[k] == (k < p.capacity)
  {
    hide Refilled, Script, Level;
    if k < |times| {
      BusyLevel(p, times, k);
      RunFollowsLevel(p, hs, times, log, k);
    }
    if k > 0 {
      BusyBucketStarves(p, hs, times, log, k - 1);
    }
  }
}
