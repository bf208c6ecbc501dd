/** The in-process rate limiter: one object, three strategies.

    The ghost `log` records every call and its decision; `Valid` says that the
    object's fields are where a run of its strategy over that log has led. */
module RateLimiter {
  import opened History
  import opened RateLimitConfig
  import TB = TokenBucket
  import SW = SlidingWindow
  import FW = FixedWindow

  class RateLimiter {
    const config: Config
    var tokens: real
    var lastRefill: real
    var requestTimes: seq<real>
    var windowStart: real
    var windowRequests: nat
    var totalRequests: nat
    var allowedRequests: nat
    var rejectedRequests: nat
    ghost const created: real
    ghost var log: seq<Call>
    ghost var resetAt: nat
    ghost var buckets: seq<TB.Bucket>
    ghost var lists: seq<seq<real>>
    ghost var windows: seq<FW.Window>

    ghost predicate FollowsRun()
      reads this
    {
      match config.strategy
      case TokenBucket =>
        && TB.IsRun(config, buckets, log)
        && buckets[0].lastRefill == created
        && buckets[|log|] == TB.Bucket(tokens, lastRefill)
      case SlidingWindow =>
        && SW.IsRun(config, lists, log)
        && lists[|log|] == requestTimes
      case FixedWindow =>
        && FW.IsRun(config, windows, log)
        && windows[0].start == created
        && windows[|log|] == FW.Window(windowStart, windowRequests)
      case Unknown =>
        forall k | 0 <= k < |log| :: log[k].admitted
    }

    ghost predicate Valid()
      reads this
    {
      && FollowsRun()
      && resetAt <= |log|
      && totalRequests == |log| - resetAt
      && allowedRequests == Admitted(log, resetAt, |log|)
      && rejectedRequests == totalRequests - allowedRequests
    }

    constructor (config: Config, now: real)
      ensures Valid()
      ensures this.config == config && created == now && log == [] && resetAt == 0
    {
      this.config := config;
      tokens, lastRefill := config.burst as real, now;
      requestTimes := [];
      windowStart, windowRequests := now, 0;
      totalRequests, allowedRequests, rejectedRequests := 0, 0, 0;
      created, log, resetAt := now, [], 0;
      buckets, lists, windows := [TB.Init(config, now)], [[]], [FW.Window(now, 0)];
    }

    /** Runs the limiter in front of a protected call: `admitted` says whether the
        call goes ahead; otherwise the caller gets a RateLimitExceededError. */
    method Execute(now: real) returns (admitted: bool)
      requires Valid()
      modifies this
      ensures Valid()
      ensures log == old(log) + [Call(now, admitted)] && resetAt == old(resetAt)
      ensures totalRequests == old(totalRequests) + 1
      ensures allowedRequests == old(allowedRequests) + if admitted then 1 else 0
    {
      admitted := AllowRequest(now);
      if !admitted {
        rejectedRequests := rejectedRequests + 1;
      } else {
        allowedRequests := allowedRequests + 1;
      }
      AdmittedPrefix(old(log), log, resetAt, |old(log)|);
    }

    method AllowRequest(now: real) returns (ok: bool)
      requires FollowsRun()
      modifies this`tokens, this`lastRefill, this`requestTimes, this`windowStart, this`windowRequests,
               this`totalRequests, this`log, this`buckets, this`lists, this`windows
      ensures FollowsRun()
      ensures log == old(log) + [Call(now, ok)]
      ensures totalRequests == old(totalRequests) + 1
    {
      totalRequests := totalRequests + 1;
      match config.strategy {
        case TokenBucket =>
          ok := TokenBucketAllow(now);
          buckets := buckets + [TB.Bucket(tokens, lastRefill)];
        case SlidingWindow =>
          ok := SlidingWindowAllow(now);
          lists := lists + [requestTimes];
        case FixedWindow =>
          ok := FixedWindowAllow(now);
          windows := windows + [FW.Window(windowStart, windowRequests)];
        case Unknown =>
          ok := true;
      }
      log := log + [Call(now, ok)];
    }

    method TokenBucketAllow(now: real) returns (ok: bool)
      modifies this`tokens, this`lastRefill
      ensures (TB.Bucket(tokens, lastRefill), ok) == TB.Step(config, old(TB.Bucket(tokens, lastRefill)), now)
    {
      tokens := TB.Refilled(config, TB.Bucket(tokens, lastRefill), now);
      lastRefill := now;
      if tokens >= 1.0 {
        tokens := tokens - 1.0;
        return true;
      }
      return false;
    }

    method SlidingWindowAllow(now: real) returns (ok: bool)
      modifies this`requestTimes
      ensures (requestTimes, ok) == SW.Step(config, old(requestTimes), now)
    {
      requestTimes := Recent(requestTimes, now - config.window);
      if config.HasRoom(|requestTimes|) {
        requestTimes := requestTimes + [now];
        return true;
      }
      return false;
    }

    method FixedWindowAllow(now: real) returns (ok: bool)
      modifies this`windowStart, this`windowRequests
      ensures (FW.Window(windowStart, windowRequests), ok)
           == FW.Step(config, old(FW.Window(windowStart, windowRequests)), now)
    {
      if now - windowStart >= config.window {
        windowStart := now;
        windowRequests := 0;
      }
      if config.HasRoom(windowRequests) {
        windowRequests := windowRequests + 1;
        return true;
      }
      return false;
    }

    method ResetStats()
      requires Valid()
      modifies this`totalRequests, this`allowedRequests, this`rejectedRequests, this`resetAt
      ensures Valid()
      ensures totalRequests == allowedRequests == rejectedRequests == 0
    {
      totalRequests, allowedRequests, rejectedRequests := 0, 0, 0;
      resetAt := |log|;
    }
  }

  lemma {:induction false} AllAdmitted(h: seq<Call>, k: nat)
    requires k <= |h| && forall i | 0 <= i < |h| :: h[i].admitted
    ensures Admitted(h, 0, k) == k
  {
    if k > 0 {
      AllAdmitted(h, k - 1);
    }
  }

  /** What every limiter object keeps over its whole life, resets of the statistics
      included: no interval of time admits more than its strategy allows; a strategy that
      is none of the three admits everything. */
  lemma EveryIntervalIsBounded(limiter: RateLimiter, from: real, to: real)
    requires limiter.Valid() && limiter.config.Valid() && from <= to
    requires InOrder(limiter.log) && (limiter.log != [] ==> limiter.created <= limiter.log[0].time)
    ensures var c, n := limiter.config, AdmittedBetween(limiter.log, from, to);
            match c.strategy
            case TokenBucket => n as real <= c.burst as real + (to - from) * c.rate
            case SlidingWindow => to - from < c.window ==> n <= c.Limit()
            case FixedWindow => to == from + c.window ==> n <= 2 * c.Limit()
            case Unknown => Admitted(limiter.log, 0, |limiter.log|) == |limiter.log|
  {
    hide TB.IsRun, SW.IsRun, FW.IsRun, InOrder, AdmittedBetween, Admitted, RateLimitConfig.Config.Limit;
    match limiter.config.strategy
    case TokenBucket => TB.IntervalBounded(limiter.config, limiter.buckets, limiter.log, from, to);
    case SlidingWindow =>
      if to - from < limiter.config.window {
        SW.IntervalBounded(limiter.config, limiter.lists, limiter.log, from, to);
      }
    case FixedWindow => FW.IntervalBounded(limiter.config, limiter.windows, limiter.log, from, 1);
    case Unknown => AllAdmitted(limiter.log, |limiter.log|);
  }
}
