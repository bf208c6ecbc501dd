/** The consecutive-failure circuit breaker.

    A call has two atomic stretches, before and after the protected function runs.
    Any number of calls can be between the two; a run is any interleaving of them,
    with resets anywhere. */
module CircuitBreaker {
  import opened Wrappers

  datatype Config = Config(failureThreshold: int, recoveryTimeout: real) {
    predicate Valid() {
      failureThreshold >= 1
    }
  }

  datatype Circuit = Closed | Open | HalfOpen

  datatype Breaker = Breaker(
    circuit: Circuit, failureCount: nat, lastFailure: Option<real>,
    totalCalls: nat, successfulCalls: nat, failedCalls: nat, openedCount: nat)

  const INITIAL := Breaker(Closed, 0, None, 0, 0, 0, 0)

  predicate ShouldAttemptReset(c: Config, b: Breaker, now: real) {
    b.lastFailure.None? || now - b.lastFailure.value >= c.recoveryTimeout
  }

  predicate Rejects(c: Config, b: Breaker, now: real) {
    b.circuit.Open? && !ShouldAttemptReset(c, b, now)
  }

  /** The stretch before the protected function: either it is let run, or the call fails. */
  function Enter(c: Config, b: Breaker, now: real): Breaker {
    var b := b.(totalCalls := b.totalCalls + 1);
    if Rejects(c, b, now) then b.(failedCalls := b.failedCalls + 1)
    else if b.circuit.Open? then b.(circuit := HalfOpen)
    else b
  }

  function Succeed(b: Breaker): Breaker {
    b.(failureCount := 0, circuit := Closed, lastFailure := None, successfulCalls := b.successfulCalls + 1)
  }

  function Fail(c: Config, b: Breaker, now: real): Breaker {
    var b := b.(failureCount := b.failureCount + 1, lastFailure := Some(now), failedCalls := b.failedCalls + 1);
    if b.failureCount >= c.failureThreshold && !b.circuit.Open?
    then b.(circuit := Open, openedCount := b.openedCount + 1)
    else b
  }

  function Reset(b: Breaker): Breaker {
    b.(circuit := Closed, failureCount := 0, lastFailure := None)
  }

  datatype Event = Begin(now: real) | Success | Failure(now: real) | ResetBreaker {
    predicate IsTimed() {
      Begin? || Failure?
    }
  }

  /** The breaker and the number of calls whose protected function is running. */
  datatype System = System(breaker: Breaker, running: nat)

  predicate Enabled(s: System, e: Event) {
    e.Success? || e.Failure? ==> s.running > 0
  }

  function Step(c: Config, s: System, e: Event): System
    requires Enabled(s, e)
  {
    match e
    case Begin(now) => System(Enter(c, s.breaker, now), if Rejects(c, s.breaker, now) then s.running else s.running + 1)
    case Success => System(Succeed(s.breaker), s.running - 1)
    case Failure(now) => System(Fail(c, s.breaker, now), s.running - 1)
    case ResetBreaker => System(Reset(s.breaker), s.running)
  }

  ghost predicate IsRun(c: Config, ss: seq<System>, es: seq<Event>) {
    && |ss| == |es| + 1
    && ss[0] == System(INITIAL, 0)
    && (forall k {:trigger es[k]} | 0 <= k < |es| :: Enabled(ss[k], es[k]) && ss[k + 1] == Step(c, ss[k], es[k]))
  }

  lemma RunSnoc(c: Config, ss: seq<System>, es: seq<Event>, e: Event)
    requires IsRun(c, ss, es) && Enabled(ss[|es|], e)
    ensures IsRun(c, ss + [Step(c, ss[|es|], e)], es + [e])
  {
    hide Step;
  }

  /** Events that read the clock read it in order. */
  predicate Clocked(es: seq<Event>) {
    forall i, j | 0 <= i <= j < |es| && es[i].IsTimed() && es[j].IsTimed() :: es[i].now <= es[j].now
  }

  /** How many calls have failed since the last success or reset. */
  function FailuresSince(es: seq<Event>, k: nat): nat
    requires k <= |es|
  {
    if k == 0 then 0 else
      match es[k - 1]
      case Failure(_) => FailuresSince(es, k - 1) + 1
      case Begin(_) => FailuresSince(es, k - 1)
      case _ => 0
  }

  /** When the last of them failed. */
  function LastFailure(es: seq<Event>, k: nat): Option<real>
    requires k <= |es|
  {
    if k == 0 then None else
      match es[k - 1]
      case Failure(now) => Some(now)
      case Begin(_) => LastFailure(es, k - 1)
      case _ => None
  }

  /** The breaker's fields, read off the history of any interleaving. */
  lemma {:induction false} StateIsHistory(c: Config, ss: seq<System>, es: seq<Event>, k: nat)
    requires c.Valid() && IsRun(c, ss, es) && k <= |es|
    ensures var b := ss[k].breaker;
            && b.failureCount == FailuresSince(es, k)
            && b.lastFailure == LastFailure(es, k)
            && (b.circuit.Closed? <==> FailuresSince(es, k) < c.failureThreshold)
            && (b.lastFailure.None? <==> b.failureCount == 0)
            && b.totalCalls == b.successfulCalls + b.failedCalls + ss[k].running
  {
    if k > 0 {
      StateIsHistory(c, ss, es, k - 1);
      assert ss[k] == Step(c, ss[k - 1], es[k - 1]);
    }
  }

  /** How often the circuit has turned from another state to open. */
  function Openings(ss: seq<System>, k: nat): nat
    requires k < |ss|
  {
    if k == 0 then 0
    else Openings(ss, k - 1) + if !ss[k - 1].breaker.circuit.Open? && ss[k].breaker.circuit.Open? then 1 else 0
  }

  lemma {:induction false} OpeningsAreCounted(c: Config, ss: seq<System>, es: seq<Event>, k: nat)
    requires IsRun(c, ss, es) && k <= |es|
    ensures ss[k].breaker.openedCount == Openings(ss, k)
  {
    if k > 0 {
      OpeningsAreCounted(c, ss, es, k - 1);
      assert ss[k] == Step(c, ss[k - 1], es[k - 1]);
    }
  }

  lemma RunStep(c: Config, ss: seq<System>, es: seq<Event>, k: nat)
    requires IsRun(c, ss, es) && k < |es|
    ensures |ss| == |es| + 1 && Enabled(ss[k], es[k]) && ss[k + 1] == Step(c, ss[k], es[k])
  {
    hide Step, Enabled;
    var e := es[k];
  }

  /** How many calls have succeeded, and how many have failed or been rejected. */
  function Successes(es: seq<Event>, k: nat): nat
    requires k <= |es|
  {
    if k == 0 then 0 else Successes(es, k - 1) + if es[k - 1].Success? then 1 else 0
  }

  function FailuresAndRejections(c: Config, ss: seq<System>, es: seq<Event>, k: nat): nat
    requires k <= |es| <= |ss|
  {
    if k == 0 then 0
    else
      FailuresAndRejections(c, ss, es, k - 1)
      + if es[k - 1].Failure? || (es[k - 1].Begin? && Rejects(c, ss[k - 1].breaker, es[k - 1].now)) then 1 else 0
  }

  function Begins(es: seq<Event>, k: nat): nat
    requires k <= |es|
  {
    if k == 0 then 0 else Begins(es, k - 1) + if es[k - 1].Begin? then 1 else 0
  }

  lemma {:induction false} CountersAreHistory(c: Config, ss: seq<System>, es: seq<Event>, k: nat)
    requires IsRun(c, ss, es) && k <= |es|
    ensures ss[k].breaker.totalCalls == Begins(es, k)
    ensures ss[k].breaker.successfulCalls == Successes(es, k)
    ensures ss[k].breaker.failedCalls == FailuresAndRejections(c, ss, es, k)
  {
    if k > 0 {
      CountersAreHistory(c, ss, es, k - 1);
      RunStep(c, ss, es, k - 1);
    }
  }

  predicate IsLate(c: Config, es: seq<Event>, k: nat, now: real)
    requires k <= |es|
  {
    LastFailure(es, k).Some? && now - LastFailure(es, k).value >= c.recoveryTimeout
  }

  /** Since a call was let through late enough after the last failure, calls have begun at
      most. */
  predicate Probing(c: Config, es: seq<Event>, k: nat)
    requires k <= |es|
  {
    k > 0 && es[k - 1].Begin? && (IsLate(c, es, k - 1, es[k - 1].now) || Probing(c, es, k - 1))
  }

  /** The state, from the history alone: closed below the threshold, otherwise half-open from
      the first late enough call to the next outcome, and open before that. */
  lemma {:induction false} CircuitIsHistory(c: Config, ss: seq<System>, es: seq<Event>, k: nat)
    requires c.Valid() && IsRun(c, ss, es) && k <= |es|
    ensures ss[k].breaker.circuit == if FailuresSince(es, k) < c.failureThreshold then Closed
                                     else if Probing(c, es, k) then HalfOpen else Open
  {
    StateIsHistory(c, ss, es, k);
    if k > 0 {
      CircuitIsHistory(c, ss, es, k - 1);
      StateIsHistory(c, ss, es, k - 1);
      RunStep(c, ss, es, k - 1);
      hide IsRun;
    }
  }

  /** A half-open circuit has let a probe through, late enough after the last failure. */
  ghost predicate Probed(c: Config, es: seq<Event>, k: nat)
    requires k <= |es|
  {
    exists j | 0 <= j < k :: es[j].Begin? && IsLate(c, es, k, es[j].now)
  }

  lemma {:induction false} HalfOpenWasProbed(c: Config, ss: seq<System>, es: seq<Event>, k: nat)
    requires c.Valid() && IsRun(c, ss, es) && k <= |es| && ss[k].breaker.circuit.HalfOpen?
    ensures Probed(c, es, k)
  {
    assert k > 0 ==> ss[k] == Step(c, ss[k - 1], es[k - 1]);
    StateIsHistory(c, ss, es, k - 1);
    if ss[k - 1].breaker.circuit.HalfOpen? {
      HalfOpenWasProbed(c, ss, es, k - 1);
      StateIsHistory(c, ss, es, k);
      var j :| 0 <= j < k - 1 && es[j].Begin? && IsLate(c, es, k - 1, es[j].now);
      assert es[j].Begin? && IsLate(c, es, k, es[j].now);
    } else {
      assert es[k - 1].Begin? && IsLate(c, es, k, es[k - 1].now);
    }
  }

  /** What a caller can predict from the history alone: a call is turned away exactly
      when at least the threshold of calls have failed since the last success or reset,
      the last of them less than the recovery timeout ago. */
  lemma RejectedIff(c: Config, ss: seq<System>, es: seq<Event>, k: nat)
    requires c.Valid() && IsRun(c, ss, es) && Clocked(es)
    requires k < |es| && es[k].Begin?
    ensures Rejects(c, ss[k].breaker, es[k].now) <==>
              FailuresSince(es, k) >= c.failureThreshold && !IsLate(c, es, k, es[k].now)
    ensures ss[k + 1].running == ss[k].running + if Rejects(c, ss[k].breaker, es[k].now) then 0 else 1
  {
    StateIsHistory(c, ss, es, k);
    if ss[k].breaker.circuit.HalfOpen? {
      HalfOpenWasProbed(c, ss, es, k);
      var j :| 0 <= j < k && es[j].Begin? && IsLate(c, es, k, es[j].now);
      assert es[j].now <= es[k].now;
    }
  }

  class CircuitBreaker {
    const config: Config
    var circuit: Circuit
    var failureCount: nat
    var lastFailureTime: Option<real>
    var totalCalls: nat
    var successfulCalls: nat
    var failedCalls: nat
    var circuitOpenedCount: nat
    ghost var running: nat
    ghost var events: seq<Event>
    ghost var states: seq<System>

    ghost function View(): Breaker
      reads this
    {
      Breaker(circuit, failureCount, lastFailureTime, totalCalls, successfulCalls, failedCalls, circuitOpenedCount)
    }

    ghost predicate Valid()
      reads this
    {
      && config.Valid()
      && IsRun(config, states, events)
      && states[|events|] == System(View(), running)
    }

    constructor (config: Config)
      requires config.Valid()
      ensures Valid() && this.config == config && events == [] && running == 0
    {
      this.config := config;
      circuit, failureCount, lastFailureTime := Closed, 0, None;
      totalCalls, successfulCalls, failedCalls, circuitOpenedCount := 0, 0, 0, 0;
      running, events, states := 0, [], [System(INITIAL, 0)];
    }

    /** One step of the run: what every method below ends with. */
    ghost method Log(before: System, e: Event)
      requires config.Valid() && IsRun(config, states, events) && states[|events|] == before
      requires Enabled(before, e) && System(View(), running) == Step(config, before, e)
      modifies this`events, this`states
      ensures Valid() && events == old(events) + [e]
    {
      RunSnoc(config, states, events, e);
      events, states := events + [e], states + [Step(config, before, e)];
      hide IsRun, Step;
    }

    /** `call` up to the protected function: `admitted` says whether that is run;
        otherwise the caller gets a CircuitBreakerOpenException. */
    method BeginCall(now: real) returns (admitted: bool)
      requires Valid()
      modifies this
      ensures Valid() && events == old(events) + [Begin(now)]
      ensures admitted == !Rejects(config, old(View()), now)
      ensures running == old(running) + if admitted then 1 else 0
    {
      ghost var before := System(View(), running);
      totalCalls := totalCalls + 1;
      admitted := true;
      if circuit == Open {
        if lastFailureTime.None? || now - lastFailureTime.value >= config.recoveryTimeout {
          circuit := HalfOpen;
        } else {
          failedCalls := failedCalls + 1;
          admitted := false;
        }
      }
      running := if admitted then running + 1 else running;
      Log(before, Begin(now));
    }

    /** `call` after its protected function has returned. */
    method FinishSuccess()
      requires Valid() && running > 0
      modifies this
      ensures Valid() && events == old(events) + [Success] && running == old(running) - 1
    {
      ghost var before := System(View(), running);
      failureCount := 0;
      circuit := Closed;
      lastFailureTime := None;
      successfulCalls := successfulCalls + 1;
      running := running - 1;
      Log(before, Success);
    }

    /** `call` after its protected function has raised. */
    method FinishFailure(now: real)
      requires Valid() && running > 0
      modifies this
      ensures Valid() && events == old(events) + [Failure(now)] && running == old(running) - 1
    {
      ghost var before := System(View(), running);
      failureCount := failureCount + 1;
      lastFailureTime := Some(now);
      if failureCount >= config.failureThreshold {
        if circuit != Open {
          circuit := Open;
          circuitOpenedCount := circuitOpenedCount + 1;
        }
      }
      failedCalls := failedCalls + 1;
      running := running - 1;
      Log(before, Failure(now));
    }

    method ResetCircuit()
      requires Valid()
      modifies this
      ensures Valid() && events == old(events) + [ResetBreaker] && running == old(running)
    {
      ghost var before := System(View(), running);
      circuit := Closed;
      failureCount := 0;
      lastFailureTime := None;
      Log(before, ResetBreaker);
    }
  }
}

/** What the breaker is for: a dependency that is down is called rarely. */
module Outage {
  import opened Wrappers
  import opened History
  import opened CircuitBreaker

  /** One caller, one call at a time, and every protected function that runs fails:
      call `k` begins at h[k].time, h[k].admitted says whether it runs, and if so it
      fails at ends[k]. */
  ghost predicate IsOutage(c: Config, bs: seq<Breaker>, h: seq<Call>, ends: seq<real>) {
    && |bs| == |h| + 1 && |ends| == |h|
    && (forall k {:trigger h[k]} | 0 <= k < |h| ::
          && h[k].admitted == !Rejects(c, bs[k], h[k].time)
          && bs[k + 1] == (if h[k].admitted then Fail(c, Enter(c, bs[k], h[k].time), ends[k])
                           else Enter(c, bs[k], h[k].time))
          && h[k].time <= ends[k])
  }

  /** What every reachable breaker satisfies: lemma StateIsHistory. */
  predicate Consistent(c: Config, b: Breaker) {
    && (b.circuit.Closed? <==> b.failureCount < c.failureThreshold)
    && (b.lastFailure.None? <==> b.failureCount == 0)
  }

  /** The time that `n` recovery timeouts take. */
  function Timeouts(c: Config, n: nat): real {
    if n == 0 then 0.0 else Timeouts(c, n - 1) + c.recoveryTimeout
  }

  lemma {:induction false} TimeoutsIsLinear(c: Config, n: nat)
    ensures Timeouts(c, n) == n as real * c.recoveryTimeout
  {
    if n > 0 {
      TimeoutsIsLinear(c, n - 1);
      assert n as real * c.recoveryTimeout == (n - 1) as real * c.recoveryTimeout + c.recoveryTimeout;
    }
  }

  /** After `n` failures in a row from call `i` on, the circuit is open once `n`
      reaches the threshold, and every further failure took one more timeout. */
  lemma {:induction false} FailuresTakeTime(
    c: Config, bs: seq<Breaker>, h: seq<Call>, ends: seq<real>, i: nat, k: nat)
    requires c.Valid() && IsOutage(c, bs, h, ends) && Consistent(c, bs[0]) && InOrder(h)
    requires i <= k <= |h|
    ensures Consistent(c, bs[k])
    ensures bs[k].failureCount >= Admitted(h, i, k)
    ensures var n := Admitted(h, i, k);
            n >= c.failureThreshold ==>
              && bs[k].circuit.Open?
              && bs[k].lastFailure.value >= h[i].time + Timeouts(c, n - c.failureThreshold)
  {
    if k > 0 {
      FailuresTakeTime(c, bs, h, ends, if i < k then i else k - 1, k - 1);
      assert Admitted(h, k, k) == 0;
      CallStep(c, bs, h, ends, k - 1);
      assert h[if i < k then i else k - 1].time <= h[k - 1].time;
      hide IsOutage, InOrder, Rejects, Enter, Fail;
    }
  }

  /** One call of an outage: what it leaves of the breaker. */
  lemma CallStep(c: Config, bs: seq<Breaker>, h: seq<Call>, ends: seq<real>, k: nat)
    requires c.Valid() && IsOutage(c, bs, h, ends) && k < |h| && Consistent(c, bs[k])
    ensures Consistent(c, bs[k + 1]) && |bs| == |h| + 1
    ensures !h[k].admitted ==>
              && bs[k + 1].circuit.Open? && bs[k].circuit.Open?
              && bs[k + 1].failureCount == bs[k].failureCount && bs[k + 1].lastFailure == bs[k].lastFailure
    ensures h[k].admitted ==>
              && bs[k + 1].failureCount == bs[k].failureCount + 1
              && bs[k + 1].lastFailure.Some? && bs[k + 1].lastFailure.value >= h[k].time
              && (bs[k + 1].failureCount >= c.failureThreshold ==> bs[k + 1].circuit.Open?)
              && (bs[k].circuit.Open? ==> h[k].time >= bs[k].lastFailure.value + c.recoveryTimeout)
  {
    assert h[k].admitted == !Rejects(c, bs[k], h[k].time);
  }

  lemma RunsBounded(c: Config, bs: seq<Breaker>, h: seq<Call>, ends: seq<real>, i: nat, k: nat)
    requires c.Valid() && IsOutage(c, bs, h, ends) && Consistent(c, bs[0]) && InOrder(h)
    requires i <= k < |h| && h[k].admitted
    ensures var n := Admitted(h, i, k + 1);
            n > c.failureThreshold ==> h[k].time - h[i].time >= Timeouts(c, n - c.failureThreshold)
  {
    FailuresTakeTime(c, bs, h, ends, i, k);
  }

  lemma WholeTimeouts(n: nat, t: real, length: real)
    requires t > 0.0 && n as real * t <= length
    ensures n <= (length / t).Floor
  {
    assert length / t >= n as real by {
      assert length / t * t == length;
    }
  }

  lemma {:induction false} CallsBounded(
    c: Config, bs: seq<Breaker>, h: seq<Call>, ends: seq<real>, i: nat, k: nat, length: real)
    requires c.Valid() && c.recoveryTimeout > 0.0
    requires IsOutage(c, bs, h, ends) && Consistent(c, bs[0]) && InOrder(h)
    requires i <= k < |h| && h[k].time - h[i].time <= length
    ensures Admitted(h, i, k + 1) <= c.failureThreshold + (length / c.recoveryTimeout).Floor
  {
    var n := Admitted(h, i, k + 1);
    hide IsOutage;
    WholeTimeouts(0, c.recoveryTimeout, length);
    if !h[k].admitted && i < k {
      CallsBounded(c, bs, h, ends, i, k - 1, length);
    } else if h[k].admitted && n > c.failureThreshold {
      RunsBounded(c, bs, h, ends, i, k);
      TimeoutsIsLinear(c, n - c.failureThreshold);
      WholeTimeouts(n - c.failureThreshold, c.recoveryTimeout, length);
    } else {
      assert Admitted(h, i, i) == 0;
    }
  }

  /** During an outage the protected function is started at most threshold +
      floor(L / recovery timeout) times in any interval of length L, from any
      reachable state of the breaker. */
  lemma IntervalBounded(c: Config, bs: seq<Breaker>, h: seq<Call>, ends: seq<real>, from: real, length: real)
    requires c.Valid() && c.recoveryTimeout > 0.0 && length >= 0.0
    requires IsOutage(c, bs, h, ends) && Consistent(c, bs[0]) && InOrder(h)
    ensures AdmittedBetween(h, from, from + length) <= c.failureThreshold + (length / c.recoveryTimeout).Floor
  {
    hide IsOutage;
    var limit := c.failureThreshold + (length / c.recoveryTimeout).Floor;
    WholeTimeouts(0, c.recoveryTimeout, length);
    forall i, k | 0 <= i <= k < |h| && from <= h[i].time && h[k].time <= from + length
      ensures Admitted(h, i, k + 1) as real <= limit as real
    {
      CallsBounded(c, bs, h, ends, i, k, length);
    }
    BoundInterval(h, from, from + length, limit as real);
  }
}
