/** Health checks with hysteresis, and the overall status of many checkers. */
module HealthChecker {
  datatype Config = Config(failureThreshold: nat, successThreshold: nat) {
    predicate Valid() {
      failureThreshold >= 1 && successThreshold >= 1
    }

    /** The fewest checks that take a healthy checker down and up again. */
    function Cycle(): nat {
      failureThreshold + successThreshold
    }
  }

  datatype Status = Healthy | Unhealthy | Degraded | Unknown

  datatype Checker = Checker(status: Status, failures: nat, successes: nat)

  const INITIAL := Checker(Unknown, 0, 0)

  function OnSuccess(c: Config, s: Checker): Checker {
    var s := s.(successes := s.successes + 1, failures := 0);
    match s.status
    case Unhealthy => if s.successes >= c.successThreshold then s.(status := Healthy) else s
    case Unknown => s.(status := Healthy)
    case _ => s
  }

  function OnFailure(c: Config, s: Checker): Checker {
    var s := s.(failures := s.failures + 1, successes := 0);
    if s.failures >= c.failureThreshold then s.(status := Unhealthy)
    else if s.status.Unknown? then s.(status := Degraded)
    else s
  }

  function Step(c: Config, s: Checker, ok: bool): Checker {
    if ok then OnSuccess(c, s) else OnFailure(c, s)
  }

  /** `ss` are the states a new checker goes through on the check results `oks`. */
  ghost predicate IsRun(c: Config, ss: seq<Checker>, oks: seq<bool>) {
    && |ss| == |oks| + 1
    && ss[0] == INITIAL
    && (forall k {:trigger oks[k]} | 0 <= k < |oks| :: ss[k + 1] == Step(c, ss[k], oks[k]))
  }

  /** How many of the first `k` results, counted back from the last, are all `ok`. */
  function Streak(oks: seq<bool>, ok: bool, k: nat): nat
    requires k <= |oks|
  {
    if k == 0 || oks[k - 1] != ok then 0 else Streak(oks, ok, k - 1) + 1
  }

  /** The hysteresis, from the results alone: the latest long enough streak decides. */
  predicate IsDown(c: Config, oks: seq<bool>, k: nat)
    requires k <= |oks|
  {
    if k == 0 then false
    else if Streak(oks, false, k) >= c.failureThreshold then true
    else if Streak(oks, true, k) >= c.successThreshold then false
    else IsDown(c, oks, k - 1)
  }

  lemma {:induction false} StatusIsHistory(c: Config, ss: seq<Checker>, oks: seq<bool>, k: nat)
    requires c.Valid() && IsRun(c, ss, oks) && k <= |oks|
    ensures ss[k].failures == Streak(oks, false, k) && ss[k].successes == Streak(oks, true, k)
    ensures ss[k].status.Unhealthy? <==> IsDown(c, oks, k)
    ensures ss[k].status.Unhealthy? ==> ss[k].successes < c.successThreshold
    ensures !ss[k].status.Unhealthy? ==> ss[k].failures < c.failureThreshold
    ensures ss[k].status.Unknown? <==> k == 0
  {
    if k > 0 {
      StatusIsHistory(c, ss, oks, k - 1);
      assert ss[k] == Step(c, ss[k - 1], oks[k - 1]);
    }
  }

  /** Some streak of failures among the first `k` results was long enough. */
  predicate WasDown(c: Config, oks: seq<bool>, k: nat)
    requires k <= |oks|
  {
    exists j | 0 < j <= k :: Streak(oks, false, j) >= c.failureThreshold
  }

  /** The status, from the results alone. */
  function StatusOf(c: Config, oks: seq<bool>, k: nat): Status
    requires k <= |oks|
  {
    if k == 0 then Unknown
    else if IsDown(c, oks, k) then Unhealthy
    else if oks[0] || WasDown(c, oks, k) then Healthy
    else Degraded
  }

  /** A checker is degraded exactly when its first check failed and it has never been
      unhealthy, however many checks it has passed since. */
  lemma {:induction false} StatusIsOfResults(c: Config, ss: seq<Checker>, oks: seq<bool>, k: nat)
    requires c.Valid() && IsRun(c, ss, oks) && k <= |oks|
    ensures ss[k].status == StatusOf(c, oks, k)
    ensures ss[k].status.Degraded? <==>
              k > 0 && !oks[0] && forall j | 0 < j <= k :: Streak(oks, false, j) < c.failureThreshold
  {
    StatusIsHistory(c, ss, oks, k);
    if k > 0 {
      StatusIsOfResults(c, ss, oks, k - 1);
      StatusIsHistory(c, ss, oks, k - 1);
      assert ss[k] == Step(c, ss[k - 1], oks[k - 1]);
      WasDownStep(c, oks, k - 1);
      if IsDown(c, oks, k) {
        DownWasDown(c, oks, k);
      }
      if IsDown(c, oks, k - 1) {
        DownWasDown(c, oks, k - 1);
      }
      assert Streak(oks, false, k) == ss[k].failures;
      hide IsDown, Streak;
    }
  }

  lemma WasDownStep(c: Config, oks: seq<bool>, k: nat)
    requires k < |oks|
    ensures WasDown(c, oks, k + 1) <==> WasDown(c, oks, k) || Streak(oks, false, k + 1) >= c.failureThreshold
    ensures !WasDown(c, oks, 0)
  {
    hide Streak;
  }

  lemma {:induction false} DownWasDown(c: Config, oks: seq<bool>, k: nat)
    requires k <= |oks| && IsDown(c, oks, k)
    ensures WasDown(c, oks, k)
  {
    if Streak(oks, false, k) < c.failureThreshold {
      DownWasDown(c, oks, k - 1);
      WasDownStep(c, oks, k - 1);
    } else {
      assert k > 0;
    }
  }

  /** After success_threshold passed checks in a row a checker is healthy if and only if its
      first check passed or it has been unhealthy; otherwise it is degraded. */
  lemma RecoversIff(c: Config, ss: seq<Checker>, oks: seq<bool>, k: nat)
    requires c.Valid() && IsRun(c, ss, oks) && k <= |oks| && Streak(oks, true, k) >= c.successThreshold
    ensures ss[k].status.Healthy? <==> oks[0] || WasDown(c, oks, k)
    ensures !ss[k].status.Healthy? ==> ss[k].status.Degraded?
  {
    StatusIsOfResults(c, ss, oks, k);
    StatusIsHistory(c, ss, oks, k);
  }

  function FailThenPass(n: nat): seq<bool> {
    seq(n + 1, k => k > 0)
  }

  /** One failed check and then `n` passed ones leave a checker degraded, for every n, if and
      only if one failure is below the threshold. */
  lemma DegradedForeverIff(c: Config, ss: seq<Checker>, n: nat)
    requires c.Valid() && IsRun(c, ss, FailThenPass(n))
    ensures (forall k | 0 < k <= n + 1 :: ss[k].status.Degraded?) <==> c.failureThreshold >= 2
  {
    var oks := FailThenPass(n);
    forall k | 0 < k <= n + 1 ensures ss[k].status.Degraded? <==> c.failureThreshold >= 2 {
      StatusIsOfResults(c, ss, oks, k);
      forall j | 0 < j <= k ensures Streak(oks, false, j) == if j == 1 then 1 else 0 {
      }
      assert Streak(oks, false, 1) == 1;
    }
    assert n + 1 > 0 && (ss[1].status.Degraded? <==> c.failureThreshold >= 2);
  }

  /** And there is such a run. */
  lemma {:induction false} RunExists(c: Config, oks: seq<bool>) returns (ss: seq<Checker>)
    ensures IsRun(c, ss, oks)
  {
    if oks == [] {
      ss := [INITIAL];
    } else {
      var n := |oks| - 1;
      var front := RunExists(c, oks[..n]);
      ss := front + [Step(c, front[n], oks[n])];
      forall k | 0 <= k < |oks| ensures ss[k + 1] == Step(c, ss[k], oks[k]) {
        if k < n {
          assert oks[k] == oks[..n][k] && ss[k + 1] == front[k + 1];
        }
      }
    }
  }

  /** A degraded checker has no way to health but through unhealthiness: while it keeps
      passing its checks it stays degraded. */
  lemma {:induction false} DegradedStays(c: Config, ss: seq<Checker>, oks: seq<bool>, i: nat, k: nat)
    requires c.Valid() && IsRun(c, ss, oks) && i <= k <= |oks|
    requires ss[i].status.Degraded?
    requires forall j | i < j < k :: !ss[j].status.Unhealthy?
    ensures ss[k].status.Degraded? || ss[k].status.Unhealthy?
  {
    if i < k {
      DegradedStays(c, ss, oks, i, k - 1);
      assert ss[k] == Step(c, ss[k - 1], oks[k - 1]);
    }
  }

  /** How often an unhealthy checker has become healthy between the states i and k. */
  function Recoveries(ss: seq<Checker>, i: nat, k: nat): nat
    requires k < |ss|
  {
    if i >= k then 0
    else Recoveries(ss, i, k - 1) + if ss[k - 1].status.Unhealthy? && ss[k].status.Healthy? then 1 else 0
  }

  /** The checks already spent on the current cycle. */
  function Spent(c: Config, s: Checker): nat {
    if s.status.Unhealthy? then c.failureThreshold + s.successes else s.failures
  }

  /** The checks that `n` cycles take. */
  function Cycles(c: Config, n: nat): int {
    n * c.Cycle()
  }

  lemma OneMoreCycle(c: Config, n: nat)
    ensures Cycles(c, n + 1) == Cycles(c, n) + c.Cycle() && Cycles(c, 0) == 0
  {
  }

  /** One check, recovering or not, spends at most one more check on the cycle. */
  lemma SpentStep(c: Config, ss: seq<Checker>, oks: seq<bool>, k: nat)
    requires c.Valid() && IsRun(c, ss, oks) && k < |oks|
    ensures var recovers := ss[k].status.Unhealthy? && ss[k + 1].status.Healthy?;
            (if recovers then c.Cycle() else 0) + Spent(c, ss[k + 1]) <= Spent(c, ss[k]) + 1
  {
    StatusIsHistory(c, ss, oks, k);
    assert ss[k + 1] == Step(c, ss[k], oks[k]);
  }

  lemma {:induction false} CyclesTakeChecks(c: Config, ss: seq<Checker>, oks: seq<bool>, i: nat, k: nat)
    requires c.Valid() && IsRun(c, ss, oks) && i <= k <= |oks|
    ensures Cycles(c, Recoveries(ss, i, k)) + Spent(c, ss[k]) <= Spent(c, ss[i]) + (k - i)
  {
    assert |ss| == |oks| + 1;
    hide Cycles, Spent, IsRun;
    if i < k {
      CyclesTakeChecks(c, ss, oks, i, k - 1);
      SpentStep(c, ss, oks, k - 1);
      OneMoreCycle(c, Recoveries(ss, i, k - 1));
    } else {
      OneMoreCycle(c, 0);
    }
  }

  /** The status cannot flap: n recoveries need n * (failure + success threshold) checks
      from the start, and one cycle less one check fewer from anywhere else. */
  lemma NoFlapping(c: Config, ss: seq<Checker>, oks: seq<bool>, i: nat, k: nat)
    requires c.Valid() && IsRun(c, ss, oks) && i <= k <= |oks|
    ensures k >= Recoveries(ss, 0, k) * c.Cycle()
    ensures k - i >= Recoveries(ss, i, k) * c.Cycle() - (c.Cycle() - 1)
  {
    assert forall n: nat :: Cycles(c, n) == n * c.Cycle();
    hide Cycles;
    CyclesTakeChecks(c, ss, oks, 0, k);
    CyclesTakeChecks(c, ss, oks, i, k);
    StatusIsHistory(c, ss, oks, i);
  }

  // ---- Many checkers ----

  function Overall(statuses: seq<Status>): Status {
    if statuses == [] then Unknown
    else if forall s | s in statuses :: s == Healthy then Healthy
    else if exists s | s in statuses :: s == Unhealthy then Unhealthy
    else if exists s | s in statuses :: s == Degraded then Degraded
    else Unknown
  }

  function Rank(s: Status): nat {
    match s
    case Healthy => 0
    case Unknown => 1
    case Degraded => 2
    case Unhealthy => 3
  }

  function Worse(a: Status, b: Status): Status {
    if Rank(a) >= Rank(b) then a else b
  }

  lemma OverallIsWorst(statuses: seq<Status>)
    requires statuses != []
    ensures Overall(statuses) in statuses
    ensures forall s | s in statuses :: Rank(s) <= Rank(Overall(statuses))
  {
    assert statuses[0] in statuses;
    if s :| s in statuses && s != Healthy {
    }
  }

  /** The overall status depends only on which statuses occur: not on the order of the
      checkers, on repetitions or on how they are grouped. */
  lemma OverallOfTheSame(a: seq<Status>, b: seq<Status>)
    requires forall s :: s in a <==> s in b
    ensures Overall(a) == Overall(b)
  {
    assert a != [] ==> a[0] in a;
    assert b != [] ==> b[0] in b;
    if a != [] && b != [] {
      OverallIsWorst(a);
      OverallIsWorst(b);
    }
  }

  /** The overall status of two groups is the worse of theirs. */
  lemma OverallOfGroups(a: seq<Status>, b: seq<Status>)
    requires a != [] && b != []
    ensures Overall(a + b) == Worse(Overall(a), Overall(b)) == Overall(b + a)
  {
    OverallIsWorst(a);
    OverallIsWorst(b);
    OverallIsWorst(a + b);
    OverallOfTheSame(a + b, b + a);
    assert forall s :: s in a + b <==> s in a || s in b;
  }

  class HealthChecker {
    const config: Config
    var status: Status
    var consecutiveFailures: nat
    var consecutiveSuccesses: nat
    ghost var results: seq<bool>
    ghost var states: seq<Checker>

    ghost function View(): Checker
      reads this
    {
      Checker(status, consecutiveFailures, consecutiveSuccesses)
    }

    ghost predicate Valid()
      reads this
    {
      config.Valid() && IsRun(config, states, results) && states[|results|] == View()
    }

    constructor (config: Config)
      requires config.Valid()
      ensures Valid() && this.config == config && results == []
    {
      this.config := config;
      status, consecutiveFailures, consecutiveSuccesses := Unknown, 0, 0;
      results, states := [], [INITIAL];
    }

    method PerformCheck(healthy: bool)
      requires Valid()
      modifies this
      ensures Valid() && results == old(results) + [healthy]
      ensures status == StatusOf(config, results, |results|)
      ensures status.Unhealthy? <==> IsDown(config, results, |results|)
    {
      if healthy {
        HandleSuccess();
      } else {
        HandleFailure();
      }
      results, states := results + [healthy], states + [View()];
      StatusIsHistory(config, states, results, |results|);
      StatusIsOfResults(config, states, results, |results|);
    }

    method HandleSuccess()
      modifies this`status, this`consecutiveFailures, this`consecutiveSuccesses
      ensures View() == OnSuccess(config, old(View()))
    {
      consecutiveSuccesses := consecutiveSuccesses + 1;
      consecutiveFailures := 0;
      if status == Unhealthy {
        if consecutiveSuccesses >= config.successThreshold {
          status := Healthy;
        }
      } else if status == Unknown {
        status := Healthy;
      }
    }

    method HandleFailure()
      modifies this`status, this`consecutiveFailures, this`consecutiveSuccesses
      ensures View() == OnFailure(config, old(View()))
    {
      consecutiveFailures := consecutiveFailures + 1;
      consecutiveSuccesses := 0;
      if consecutiveFailures >= config.failureThreshold {
        if status != Unhealthy {
          status := Unhealthy;
        }
      } else if status == Unknown {
        status := Degraded;
      }
    }
  }
}
