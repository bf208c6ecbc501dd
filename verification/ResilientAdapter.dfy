/** The resilient adapter: circuit breaker, bulkhead and retry loop around one call.

    A call arrives, waits for a bulkhead permit, and then alternates attempts and
    backoff sleeps until it is done.  Each stretch between two suspensions is one
    event; a run is any interleaving of the events of any number of calls. */
module ResilientAdapter {
  import opened Powers

  datatype Config = Config(
    maxRetries: nat, baseDelay: real, maxDelay: real,
    failureThreshold: int, recoveryTimeout: real, bulkheadSize: nat)
  {
    predicate Valid() {
      failureThreshold >= 1 && bulkheadSize >= 1
    }
  }

  datatype Circuit = Closed | Open | HalfOpen

  datatype Stats = Stats(
    total: nat, successful: nat, failed: nat, timeouts: nat,
    circuitOpen: nat, retries: nat, bulkheadRejections: nat)

  datatype Adapter = Adapter(circuit: Circuit, failureCount: nat, nextAttempt: real, permits: nat, stats: Stats)

  function Init(c: Config): Adapter {
    Adapter(Closed, 0, 0.0, c.bulkheadSize, Stats(0, 0, 0, 0, 0, 0, 0))
  }

  predicate Blocks(a: Adapter, now: real) {
    a.circuit.Open? && now < a.nextAttempt
  }

  /** The circuit check, which also lets the first late call probe an open circuit. */
  function Check(a: Adapter, now: real): Adapter {
    if a.circuit.Open? && !Blocks(a, now) then a.(circuit := HalfOpen) else a
  }

  function RecordSuccess(a: Adapter): Adapter {
    match a.circuit
    case HalfOpen => a.(circuit := Closed, failureCount := 0)
    case Closed => a.(failureCount := if a.failureCount >= 1 then a.failureCount - 1 else 0)
    case Open => a
  }

  function RecordFailure(c: Config, a: Adapter, now: real): Adapter {
    var a := a.(failureCount := a.failureCount + 1);
    var reopened := a.(circuit := Open, nextAttempt := now + c.recoveryTimeout);
    match a.circuit
    case Closed => if a.failureCount >= c.failureThreshold then reopened else a
    case HalfOpen => reopened
    case Open => a
  }

  datatype Phase = Waiting | Running(attempt: nat) | Sleeping(attempt: nat)

  type CallId = nat

  datatype System = System(adapter: Adapter, calls: map<CallId, Phase>)

  datatype Event =
    | Arrive(id: CallId, now: real)
    | Acquire(id: CallId)
    | GiveUp(id: CallId)
    | Return(id: CallId)
    | Raise(id: CallId, timedOut: bool, now: real)
    | Wake(id: CallId)
  {
    predicate IsTimed() {
      Arrive? || Raise?
    }
  }

  predicate Enabled(s: System, e: Event) {
    match e
    case Arrive(id, _) => id !in s.calls
    case Acquire(id) => id in s.calls && s.calls[id].Waiting? && s.adapter.permits > 0
    case GiveUp(id) => id in s.calls && s.calls[id].Waiting?
    case Return(id) => id in s.calls && s.calls[id].Running?
    case Raise(id, _, _) => id in s.calls && s.calls[id].Running?
    case Wake(id) => id in s.calls && s.calls[id].Sleeping?
  }

  function Arriving(s: System, id: CallId, now: real): System {
    var a := s.adapter;
    var a := a.(stats := a.stats.(total := a.stats.total + 1));
    if Blocks(a, now) then System(a.(stats := a.stats.(circuitOpen := a.stats.circuitOpen + 1)), s.calls)
    else System(Check(a, now), s.calls[id := Waiting])
  }

  function Returning(s: System, id: CallId): System {
    var a := RecordSuccess(s.adapter);
    System(a.(stats := a.stats.(successful := a.stats.successful + 1), permits := a.permits + 1), s.calls - {id})
  }

  function Raising(c: Config, s: System, id: CallId, attempt: nat, timedOut: bool, now: real): System {
    var a := s.adapter;
    var a := if timedOut then a.(stats := a.stats.(timeouts := a.stats.timeouts + 1)) else a;
    if attempt < c.maxRetries
    then System(a.(stats := a.stats.(retries := a.stats.retries + 1)), s.calls[id := Sleeping(attempt + 1)])
    else
      var a := RecordFailure(c, a, now);
      System(a.(stats := a.stats.(failed := a.stats.failed + 1), permits := a.permits + 1), s.calls - {id})
  }

  function Step(c: Config, s: System, e: Event): System
    requires Enabled(s, e)
  {
    var a := s.adapter;
    match e
    case Arrive(id, now) => Arriving(s, id, now)
    case Acquire(id) => System(a.(permits := a.permits - 1), s.calls[id := Running(0)])
    case GiveUp(id) =>
      System(a.(stats := a.stats.(bulkheadRejections := a.stats.bulkheadRejections + 1)), s.calls - {id})
    case Return(id) => Returning(s, id)
    case Raise(id, timedOut, now) => Raising(c, s, id, s.calls[id].attempt, timedOut, now)
    case Wake(id) => System(a, s.calls[id := Running(s.calls[id].attempt)])
  }

  ghost predicate IsRun(c: Config, ss: seq<System>, es: seq<Event>) {
    && |ss| == |es| + 1
    && ss[0] == System(Init(c), map[])
    && (forall k {:trigger es[k]} | 0 <= k < |es| :: Enabled(ss[k], es[k]) && ss[k + 1] == Step(c, ss[k], es[k]))
  }

  lemma RunSnoc(c: Config, ss: seq<System>, es: seq<Event>, e: Event)
    requires IsRun(c, ss, es) && Enabled(ss[|es|], e)
    ensures IsRun(c, ss + [Step(c, ss[|es|], e)], es + [e])
  {
    hide Step, Enabled;
  }

  /** Events that read the clock read it in order. */
  predicate Clocked(es: seq<Event>) {
    forall i, j | 0 <= i <= j < |es| && es[i].IsTimed() && es[j].IsTimed() :: es[i].now <= es[j].now
  }

  // ---- Permits and counters ----

  /** The calls that hold a bulkhead permit. */
  function Holders(calls: map<CallId, Phase>): set<CallId> {
    set id | id in calls && !calls[id].Waiting?
  }

  predicate Balanced(c: Config, s: System) {
    var st := s.adapter.stats;
    && s.adapter.permits + |Holders(s.calls)| == c.bulkheadSize
    && st.total == st.successful + st.failed + st.circuitOpen + st.bulkheadRejections + |s.calls|
  }

  predicate AttemptsBounded(c: Config, s: System) {
    forall id | id in s.calls :: s.calls[id].Waiting? || s.calls[id].attempt <= c.maxRetries
  }

  lemma HoldersEntering(calls: map<CallId, Phase>, id: CallId, phase: Phase)
    ensures var others := Holders(calls) - {id};
            && Holders(calls) == (if id in calls && !calls[id].Waiting? then others + {id} else others)
            && Holders(calls[id := phase]) == (if phase.Waiting? then others else others + {id})
  {
  }

  lemma Entering(calls: map<CallId, Phase>, id: CallId, phase: Phase)
    ensures |Holders(calls[id := phase])|
         == |Holders(calls)| - (if id in calls && !calls[id].Waiting? then 1 else 0) + (if phase.Waiting? then 0 else 1)
    ensures |calls[id := phase]| == |calls| + if id in calls then 0 else 1
  {
    hide Holders;
    HoldersEntering(calls, id, phase);
    assert calls[id := phase].Keys == calls.Keys + {id};
  }

  lemma Leaving(calls: map<CallId, Phase>, id: CallId)
    requires id in calls
    ensures |Holders(calls - {id})| == |Holders(calls)| - if calls[id].Waiting? then 0 else 1
    ensures |calls - {id}| == |calls| - 1
  {
    assert Holders(calls - {id}) == Holders(calls) - {id};
    assert (calls - {id}).Keys == calls.Keys - {id};
    assert |(calls - {id}).Keys| == |calls.Keys| - 1;
  }

  lemma StepKeepsBalance(c: Config, s: System, e: Event)
    requires Balanced(c, s) && Enabled(s, e)
    ensures Balanced(c, Step(c, s, e))
  {
    hide Holders, Arriving, Returning, Raising;
    match e
    case Arrive(id, now) => ArriveKeepsBalance(c, s, id, now);
    case Acquire(id) => Entering(s.calls, id, Running(0));
    case GiveUp(id) => Leaving(s.calls, id);
    case Return(id) => ReturnKeepsBalance(c, s, id);
    case Raise(id, timedOut, now) => RaiseKeepsBalance(c, s, id, timedOut, now);
    case Wake(id) => Entering(s.calls, id, Running(s.calls[id].attempt));
  }

  lemma ArriveKeepsBalance(c: Config, s: System, id: CallId, now: real)
    requires Balanced(c, s) && Enabled(s, Arrive(id, now))
    ensures Balanced(c, Arriving(s, id, now))
  {
    hide Holders, Check, Blocks;
    CheckLeavesTheRest(s.adapter.(stats := s.adapter.stats.(total := s.adapter.stats.total + 1)), now);
    Entering(s.calls, id, Waiting);
  }

  lemma ReturnKeepsBalance(c: Config, s: System, id: CallId)
    requires Balanced(c, s) && Enabled(s, Return(id))
    ensures Balanced(c, Returning(s, id))
  {
    hide Holders, RecordSuccess;
    RecordLeavesTheRest(c, s.adapter, 0.0);
    Leaving(s.calls, id);
  }

  lemma RaiseKeepsBalance(c: Config, s: System, id: CallId, timedOut: bool, now: real)
    requires Balanced(c, s) && Enabled(s, Raise(id, timedOut, now))
    ensures Balanced(c, Raising(c, s, id, s.calls[id].attempt, timedOut, now))
  {
    hide Holders, RecordFailure;
    var a := s.adapter;
    RecordLeavesTheRest(c, if timedOut then a.(stats := a.stats.(timeouts := a.stats.timeouts + 1)) else a, now);
    Leaving(s.calls, id);
    Entering(s.calls, id, Sleeping(s.calls[id].attempt + 1));
  }

  lemma CheckLeavesTheRest(a: Adapter, now: real)
    ensures Check(a, now).permits == a.permits && Check(a, now).stats == a.stats
  {
  }

  lemma RecordLeavesTheRest(c: Config, a: Adapter, now: real)
    ensures RecordSuccess(a).permits == a.permits && RecordSuccess(a).stats == a.stats
    ensures RecordFailure(c, a, now).permits == a.permits && RecordFailure(c, a, now).stats == a.stats
  {
  }

  /** In every interleaving, free permits and holders add up to the bulkhead, every
      request is accounted for once, and no call makes more than max_retries + 1
      attempts. */
  lemma {:induction false} AlwaysBalanced(c: Config, ss: seq<System>, es: seq<Event>, k: nat)
    requires IsRun(c, ss, es) && k <= |es|
    ensures Balanced(c, ss[k]) && AttemptsBounded(c, ss[k])
  {
    if k > 0 {
      AlwaysBalanced(c, ss, es, k - 1);
      assert ss[k] == Step(c, ss[k - 1], es[k - 1]);
      hide Step;
      StepKeepsBalance(c, ss[k - 1], es[k - 1]);
    } else {
      assert Holders(map[]) == {};
    }
  }

  /** A call that waits gets a permit if and only if fewer than bulkhead_size others hold one. */
  lemma AcquiresIff(c: Config, ss: seq<System>, es: seq<Event>, id: CallId, k: nat)
    requires IsRun(c, ss, es) && k <= |es|
    ensures |es| < |ss|
    ensures Enabled(ss[k], Acquire(id)) <==>
              id in ss[k].calls && ss[k].calls[id].Waiting? && |Holders(ss[k].calls)| < c.bulkheadSize
  {
    AlwaysBalanced(c, ss, es, k);
    hide Holders, Step;
  }

  // ---- An open circuit stays open ----

  lemma StepKeepsOpen(c: Config, s: System, e: Event)
    requires Enabled(s, e) && s.adapter.circuit.Open?
    requires e.Arrive? ==> Blocks(s.adapter, e.now)
    ensures var a := Step(c, s, e).adapter;
            a.circuit.Open? && a.nextAttempt == s.adapter.nextAttempt
    ensures e.Arrive? ==>
              && Step(c, s, e).calls == s.calls
              && Step(c, s, e).adapter.stats.circuitOpen == s.adapter.stats.circuitOpen + 1
  {
  }

  /** Once the circuit is open, nothing the calls in flight do can close it or move the
      next attempt: every call that arrives before that time is rejected. */
  lemma {:induction false} OpenUntilNextAttempt(c: Config, ss: seq<System>, es: seq<Event>, i: nat, k: nat)
    requires IsRun(c, ss, es) && Clocked(es)
    requires i <= k < |es| && ss[i].adapter.circuit.Open?
    requires es[k].Arrive? && es[k].now < ss[i].adapter.nextAttempt
    ensures ss[k].adapter.circuit.Open? && ss[k].adapter.nextAttempt == ss[i].adapter.nextAttempt
    ensures es[k].id !in ss[k + 1].calls
    ensures ss[k + 1].adapter.stats.circuitOpen == ss[k].adapter.stats.circuitOpen + 1
  {
    StaysOpen(c, ss, es, i, k, k);
    StepKeepsOpen(c, ss[k], es[k]);
  }

  lemma {:induction false} StaysOpen(c: Config, ss: seq<System>, es: seq<Event>, i: nat, j: nat, k: nat)
    requires IsRun(c, ss, es) && Clocked(es)
    requires i <= j <= k < |es| && ss[i].adapter.circuit.Open?
    requires es[k].Arrive? && es[k].now < ss[i].adapter.nextAttempt
    ensures ss[j].adapter.circuit.Open? && ss[j].adapter.nextAttempt == ss[i].adapter.nextAttempt
  {
    if i < j {
      StaysOpen(c, ss, es, i, j - 1, k);
      assert es[j - 1].Arrive? ==> es[j - 1].now <= es[k].now;
      StepKeepsOpen(c, ss[j - 1], es[j - 1]);
    }
  }

  /** And it opens for one recovery timeout from the failure that opened it. */
  lemma OpensForTheTimeout(c: Config, ss: seq<System>, es: seq<Event>, k: nat)
    requires IsRun(c, ss, es) && k < |es|
    requires !ss[k].adapter.circuit.Open? && ss[k + 1].adapter.circuit.Open?
    ensures es[k].Raise? && ss[k + 1].adapter.nextAttempt == es[k].now + c.recoveryTimeout
  {
    assert ss[k + 1] == Step(c, ss[k], es[k]);
  }

  // ---- Completions ----

  lemma RunStep(c: Config, ss: seq<System>, es: seq<Event>, k: nat)
    requires IsRun(c, ss, es) && k < |es|
    ensures |ss| == |es| + 1 && Enabled(ss[k], es[k]) && ss[k + 1] == Step(c, ss[k], es[k])
  {
    hide Step, Enabled;
    var e := es[k];
  }

  /** Whether an event completes a call, and how. */
  predicate Completes(c: Config, s: System, e: Event)
    requires Enabled(s, e)
  {
    e.Return? || (e.Raise? && s.calls[e.id].attempt >= c.maxRetries)
  }

  /** How many attempts of the call have raised since it arrived. */
  function Raises(es: seq<Event>, id: CallId, k: nat): nat
    requires k <= |es|
  {
    if k == 0 || (es[k - 1].Arrive? && es[k - 1].id == id) then 0
    else Raises(es, id, k - 1) + if es[k - 1].Raise? && es[k - 1].id == id then 1 else 0
  }

  lemma {:induction false} AttemptsAreRaises(c: Config, ss: seq<System>, es: seq<Event>, id: CallId, k: nat)
    requires IsRun(c, ss, es) && k <= |es| && id in ss[k].calls
    ensures Raises(es, id, k) == match ss[k].calls[id] case Waiting => 0 case Running(n) => n case Sleeping(n) => n
  {
    if k > 0 {
      RunStep(c, ss, es, k - 1);
      if id in ss[k - 1].calls {
        AttemptsAreRaises(c, ss, es, id, k - 1);
      }
    }
  }

  /** From the events alone: a call completes when an attempt of it returns, or raises after
      max_retries others have. */
  lemma CompletesIff(c: Config, ss: seq<System>, es: seq<Event>, k: nat)
    requires IsRun(c, ss, es) && k < |es|
    ensures Enabled(ss[k], es[k])
    ensures Completes(c, ss[k], es[k]) <==>
              es[k].Return? || (es[k].Raise? && Raises(es, es[k].id, k) >= c.maxRetries)
    ensures Completes(c, ss[k], es[k]) ==> es[k].id !in ss[k + 1].calls
  {
    RunStep(c, ss, es, k);
    if es[k].Raise? {
      AttemptsAreRaises(c, ss, es, es[k].id, k);
    }
  }

  // ---- The circuit, transition by transition ----

  /** A half-open circuit stays so until a call completes; a success closes it with a clean
      count, a failure opens it for another recovery timeout. */
  lemma HalfOpenEnds(c: Config, ss: seq<System>, es: seq<Event>, k: nat)
    requires IsRun(c, ss, es) && k < |es| && ss[k].adapter.circuit.HalfOpen?
    ensures Enabled(ss[k], es[k])
    ensures ss[k + 1].adapter.circuit.HalfOpen? <==> !Completes(c, ss[k], es[k])
    ensures es[k].Return? ==> ss[k + 1].adapter.circuit.Closed? && ss[k + 1].adapter.failureCount == 0
    ensures es[k].Raise? && Completes(c, ss[k], es[k]) ==>
              ss[k + 1].adapter.circuit.Open? && ss[k + 1].adapter.nextAttempt == es[k].now + c.recoveryTimeout
  {
    RunStep(c, ss, es, k);
  }

  /** The circuit opens at a failed completion, always when half-open, and when closed if
      the count reaches the threshold; it closes at a success in the half-open state only. */
  lemma TurnsIff(c: Config, ss: seq<System>, es: seq<Event>, k: nat)
    requires IsRun(c, ss, es) && k < |es|
    ensures Enabled(ss[k], es[k])
    ensures var was, a := ss[k].adapter, ss[k + 1].adapter;
            && (!was.circuit.Open? ==>
                  (a.circuit.Open? <==>
                     && es[k].Raise? && Completes(c, ss[k], es[k])
                     && (was.circuit.HalfOpen? || was.failureCount + 1 >= c.failureThreshold)))
            && (!was.circuit.Closed? ==> (a.circuit.Closed? <==> was.circuit.HalfOpen? && es[k].Return?))
            && (was.circuit.Open? ==> (a.circuit.HalfOpen? <==> IsProbe(ss[k], es[k])))
            && (was.circuit.Closed? ==> !a.circuit.HalfOpen?)
  {
    RunStep(c, ss, es, k);
  }

  /** A call arrives at an open circuit, late enough to be let through. */
  predicate IsProbe(s: System, e: Event) {
    s.adapter.circuit.Open? && e.Arrive? && e.now >= s.adapter.nextAttempt
  }

  /** Since the last probe, no call has completed. */
  ghost predicate Probing(c: Config, ss: seq<System>, es: seq<Event>, k: nat)
    requires IsRun(c, ss, es) && k <= |es|
  {
    k > 0 &&
    (RunStep(c, ss, es, k - 1);
     IsProbe(ss[k - 1], es[k - 1]) || (Probing(c, ss, es, k - 1) && !Completes(c, ss[k - 1], es[k - 1])))
  }

  /** The circuit is half-open exactly from a probe to the next completion. */
  lemma {:induction false} HalfOpenIff(c: Config, ss: seq<System>, es: seq<Event>, k: nat)
    requires IsRun(c, ss, es) && k <= |es|
    ensures ss[k].adapter.circuit.HalfOpen? <==> Probing(c, ss, es, k)
  {
    if k > 0 {
      HalfOpenIff(c, ss, es, k - 1);
      TurnsIff(c, ss, es, k - 1);
      if ss[k - 1].adapter.circuit.HalfOpen? {
        HalfOpenEnds(c, ss, es, k - 1);
      }
      hide IsRun, Step, Enabled, Completes, IsProbe;
    }
  }

  /** Event `j` opens the circuit. */
  predicate Opens(ss: seq<System>, j: nat)
    requires j + 1 < |ss|
  {
    !ss[j].adapter.circuit.Open? && ss[j + 1].adapter.circuit.Open?
  }

  lemma {:induction false} LastOpening(c: Config, ss: seq<System>, es: seq<Event>, k: nat) returns (j: nat)
    requires IsRun(c, ss, es) && k <= |es| && ss[k].adapter.circuit.Open?
    ensures j < k && Opens(ss, j) && es[j].Raise?
    ensures ss[k].adapter.nextAttempt == es[j].now + c.recoveryTimeout
  {
    if k > 0 {
      RunStep(c, ss, es, k - 1);
      if ss[k - 1].adapter.circuit.Open? {
        j := LastOpening(c, ss, es, k - 1);
      } else {
        j := k - 1;
        OpensForTheTimeout(c, ss, es, k - 1);
      }
    }
  }

  /** In every interleaving, an arriving call is rejected if and only if some failure opened
      the circuit less than a recovery timeout ago. */
  lemma RejectedIff(c: Config, ss: seq<System>, es: seq<Event>, k: nat)
    requires IsRun(c, ss, es) && Clocked(es) && k < |es| && es[k].Arrive?
    ensures Blocks(ss[k].adapter, es[k].now) <==>
              exists j | 0 <= j < k :: Opens(ss, j) && es[j].Raise? && es[k].now < es[j].now + c.recoveryTimeout
    ensures Blocks(ss[k].adapter, es[k].now) <==> es[k].id !in ss[k + 1].calls
  {
    RunStep(c, ss, es, k);
    if Blocks(ss[k].adapter, es[k].now) {
      var j := LastOpening(c, ss, es, k);
    }
    if j :| 0 <= j < k && Opens(ss, j) && es[j].Raise? && es[k].now < es[j].now + c.recoveryTimeout {
      OpensForTheTimeout(c, ss, es, j);
      OpenUntilNextAttempt(c, ss, es, j + 1, k);
    }
  }

  // ---- The statistics ----

  datatype Stat = Total | Successful | FailedCalls | Timeouts | CircuitOpen | Retries | BulkheadRejections

  /** Which events a statistic is meant to count. */
  predicate Counts(c: Config, s: System, e: Event, stat: Stat)
    requires Enabled(s, e)
  {
    match stat
    case Total => e.Arrive?
    case Successful => e.Return?
    case FailedCalls => e.Raise? && Completes(c, s, e)
    case Timeouts => e.Raise? && e.timedOut
    case CircuitOpen => e.Arrive? && Blocks(s.adapter, e.now)
    case Retries => e.Raise? && !Completes(c, s, e)
    case BulkheadRejections => e.GiveUp?
  }

  function Value(st: Stats, stat: Stat): nat {
    match stat
    case Total => st.total
    case Successful => st.successful
    case FailedCalls => st.failed
    case Timeouts => st.timeouts
    case CircuitOpen => st.circuitOpen
    case Retries => st.retries
    case BulkheadRejections => st.bulkheadRejections
  }

  ghost function Count(c: Config, ss: seq<System>, es: seq<Event>, stat: Stat, k: nat): nat
    requires IsRun(c, ss, es) && k <= |es|
  {
    if k == 0 then 0
    else
      RunStep(c, ss, es, k - 1);
      Count(c, ss, es, stat, k - 1) + if Counts(c, ss[k - 1], es[k - 1], stat) then 1 else 0
  }

  lemma StepCounts(c: Config, s: System, e: Event, stat: Stat)
    requires Enabled(s, e)
    ensures Value(Step(c, s, e).adapter.stats, stat) == Value(s.adapter.stats, stat) + if Counts(c, s, e, stat) then 1 else 0
  {
  }

  /** Each statistic is the number of the events it is meant to count. */
  lemma {:induction false} StatsAreHistory(c: Config, ss: seq<System>, es: seq<Event>, stat: Stat, k: nat)
    requires IsRun(c, ss, es) && k <= |es|
    ensures Value(ss[k].adapter.stats, stat) == Count(c, ss, es, stat, k)
  {
    if k > 0 {
      StatsAreHistory(c, ss, es, stat, k - 1);
      RunStep(c, ss, es, k - 1);
      hide IsRun, Step, Enabled, Counts, Value;
      StepCounts(c, ss[k - 1], es[k - 1], stat);
    }
  }

  // ---- The leaky failure counter ----

  /** The outcomes, true for success, of the calls completed since the circuit last
      became closed. */
  ghost function Outcomes(c: Config, ss: seq<System>, es: seq<Event>, k: nat): seq<bool>
    requires IsRun(c, ss, es) && k <= |es|
  {
    if k == 0 || !ss[k - 1].adapter.circuit.Closed? then []
    else if Completes(c, ss[k - 1], es[k - 1]) then Outcomes(c, ss, es, k - 1) + [es[k - 1].Return?]
    else Outcomes(c, ss, es, k - 1)
  }

  /** Failures minus successes among the outcomes from the i-th on. */
  function Excess(outcomes: seq<bool>, i: nat): int
    requires i <= |outcomes|
  {
    var n := |outcomes| - 1;
    if i > n then 0 else Excess(outcomes[..n], i) + if outcomes[n] then -1 else 1
  }

  ghost predicate IsPeakExcess(x: int, outcomes: seq<bool>) {
    && (forall i | 0 <= i <= |outcomes| :: Excess(outcomes, i) <= x)
    && (exists i | 0 <= i <= |outcomes| :: Excess(outcomes, i) == x)
  }

  lemma PeakStep(x: int, outcomes: seq<bool>, ok: bool)
    requires IsPeakExcess(x, outcomes)
    ensures IsPeakExcess(if !ok then x + 1 else if x >= 1 then x - 1 else 0, outcomes + [ok])
  {
    var longer := outcomes + [ok];
    assert longer[..|outcomes|] == outcomes;
    assert Excess(outcomes, |outcomes|) == 0;
    forall i | 0 <= i <= |outcomes| ensures Excess(longer, i) == Excess(outcomes, i) + if ok then -1 else 1 {
    }
    var j :| 0 <= j <= |outcomes| && Excess(outcomes, j) == x;
    assert Excess(longer, |longer|) == 0;
    assert Excess(longer, j) == x + if ok then -1 else 1;
  }

  /** While the circuit is closed, failure_count is the largest excess of failures over
      successes among the most recent completions, however many of them are taken;
      and it is below the threshold. */
  lemma {:induction false} CounterIsPeakExcess(c: Config, ss: seq<System>, es: seq<Event>, k: nat)
    requires c.Valid() && IsRun(c, ss, es) && k <= |es| && ss[k].adapter.circuit.Closed?
    ensures IsPeakExcess(ss[k].adapter.failureCount, Outcomes(c, ss, es, k))
    ensures ss[k].adapter.failureCount < c.failureThreshold
  {
    if k == 0 || !ss[k - 1].adapter.circuit.Closed? {
      assert k > 0 ==> ss[k] == Step(c, ss[k - 1], es[k - 1]);
      assert Excess([], 0) == 0;
    } else {
      CounterIsPeakExcess(c, ss, es, k - 1);
      CountingStep(c, ss[k - 1], es[k - 1]);
      if Completes(c, ss[k - 1], es[k - 1]) {
        PeakStep(ss[k - 1].adapter.failureCount, Outcomes(c, ss, es, k - 1), es[k - 1].Return?);
      }
    }
  }

  lemma CountingStep(c: Config, s: System, e: Event)
    requires Enabled(s, e) && s.adapter.circuit.Closed? && s.adapter.failureCount < c.failureThreshold
    requires Step(c, s, e).adapter.circuit.Closed?
    ensures var n, n' := s.adapter.failureCount, Step(c, s, e).adapter.failureCount;
            && n' < c.failureThreshold
            && n' == if !Completes(c, s, e) then n else if !e.Return? then n + 1 else if n >= 1 then n - 1 else 0
  {
  }

  // ---- The source's object ----

  /** The sleep after the given attempt. */
  function Delay(c: Config, attempt: nat): real {
    var delay := c.baseDelay * Pow2(attempt) as real;
    if delay <= c.maxDelay then delay else c.maxDelay
  }

  /** The sleeps start at the base delay and double up to the maximum. */
  lemma DelayDoubles(c: Config, attempt: nat)
    requires c.baseDelay >= 0.0 && c.maxDelay >= 0.0
    ensures Delay(c, 0) == if c.baseDelay <= c.maxDelay then c.baseDelay else c.maxDelay
    ensures Delay(c, attempt + 1) == if 2.0 * Delay(c, attempt) <= c.maxDelay then 2.0 * Delay(c, attempt) else c.maxDelay
  {
    var x, p := c.baseDelay, Pow2(attempt) as real;
    assert Pow2(attempt + 1) as real == 2.0 * p;
    assert x * (2.0 * p) == 2.0 * (x * p);
    assert x * p >= 0.0;
  }

  /** The adapter.  Each method is one stretch of `execute` between two suspensions; the
      ghost parameter says which call it belongs to, and `Valid` says that the stretches
      performed so far, in whatever order, make up a run. */
  class ResilientAdapter {
    const config: Config
    var circuitState: Circuit
    var failureCount: nat
    var nextAttemptTime: real
    var permits: nat
    var stats: Stats
    ghost var calls: map<CallId, Phase>
    ghost var events: seq<Event>
    ghost var states: seq<System>

    ghost function View(): System
      reads this
    {
      System(Adapter(circuitState, failureCount, nextAttemptTime, permits, stats), calls)
    }

    ghost predicate Valid()
      reads this
    {
      IsRun(config, states, events) && states[|events|] == View()
    }

    constructor (config: Config)
      ensures Valid() && this.config == config && calls == map[] && events == []
    {
      this.config := config;
      circuitState, failureCount, nextAttemptTime := Closed, 0, 0.0;
      permits, stats := config.bulkheadSize, Stats(0, 0, 0, 0, 0, 0, 0);
      calls, events, states := map[], [], [System(Init(config), map[])];
    }

    /** `execute` up to the semaphore; `passed` is false for a CircuitBreakerOpenError. */
    method Enter(ghost id: CallId, now: real) returns (passed: bool)
      requires Valid() && id !in calls
      modifies this
      ensures Valid() && events == old(events) + [Arrive(id, now)]
      ensures passed == !Blocks(old(View()).adapter, now) == (id in calls)
    {
      ghost var before := View();
      stats := stats.(total := stats.total + 1);
      passed := IsCircuitBreakerClosed(now);
      if !passed {
        stats := stats.(circuitOpen := stats.circuitOpen + 1);
      } else {
        calls := calls[id := Waiting];
      }
      RunSnoc(config, states, events, Arrive(id, now));
      assert View() == Step(config, before, Arrive(id, now));
      events, states := events + [Arrive(id, now)], states + [View()];
    }

    method IsCircuitBreakerClosed(now: real) returns (closed: bool)
      modifies this`circuitState
      ensures closed == !Blocks(old(View()).adapter, now)
      ensures View() == old(View()).(adapter := Check(old(View()).adapter, now))
    {
      match circuitState
      case Closed => return true;
      case Open =>
        if now >= nextAttemptTime {
          circuitState := HalfOpen;
          return true;
        }
        return false;
      case HalfOpen => return true;
    }

    method AcquirePermit(ghost id: CallId)
      requires Valid() && Enabled(View(), Acquire(id))
      modifies this
      ensures Valid() && events == old(events) + [Acquire(id)]
      ensures View() == Step(config, old(View()), Acquire(id))
    {
      RunSnoc(config, states, events, Acquire(id));
      permits := permits - 1;
      calls := calls[id := Running(0)];
      events, states := events + [Acquire(id)], states + [View()];
    }

    /** The semaphore did not come free in time: BulkheadRejectError. */
    method RejectBulkhead(ghost id: CallId)
      requires Valid() && Enabled(View(), GiveUp(id))
      modifies this
      ensures Valid() && events == old(events) + [GiveUp(id)]
      ensures View() == Step(config, old(View()), GiveUp(id))
    {
      RunSnoc(config, states, events, GiveUp(id));
      stats := stats.(bulkheadRejections := stats.bulkheadRejections + 1);
      calls := calls - {id};
      events, states := events + [GiveUp(id)], states + [View()];
    }

    /** An attempt returned: the call is done. */
    method AttemptReturned(ghost id: CallId)
      requires Valid() && Enabled(View(), Return(id))
      modifies this
      ensures Valid() && events == old(events) + [Return(id)]
      ensures View() == Step(config, old(View()), Return(id))
    {
      ghost var before := View();
      RunSnoc(config, states, events, Return(id));
      if circuitState == HalfOpen {
        circuitState := Closed;
        failureCount := 0;
      } else if circuitState == Closed {
        failureCount := if failureCount >= 1 then failureCount - 1 else 0;
      }
      stats := stats.(successful := stats.successful + 1);
      permits := permits + 1;
      calls := calls - {id};
      assert View() == Step(config, before, Return(id));
      events, states := events + [Return(id)], states + [View()];
    }

    /** An attempt raised or timed out: the loop either sleeps for `delay` or the call fails. */
    method AttemptRaised(ghost id: CallId, attempt: nat, timedOut: bool, now: real) returns (retry: bool, delay: real)
      requires Valid() && Enabled(View(), Raise(id, timedOut, now)) && calls[id].attempt == attempt
      modifies this
      ensures Valid() && events == old(events) + [Raise(id, timedOut, now)]
      ensures retry == (attempt < config.maxRetries) == (id in calls)
      ensures retry ==> delay == Delay(config, attempt)
      ensures View() == Step(config, old(View()), Raise(id, timedOut, now))
    {
      ghost var before := View();
      RunSnoc(config, states, events, Raise(id, timedOut, now));
      delay := 0.0;
      if timedOut {
        stats := stats.(timeouts := stats.timeouts + 1);
      }
      retry := attempt < config.maxRetries;
      if retry {
        delay := Delay(config, attempt);
        stats := stats.(retries := stats.retries + 1);
        calls := calls[id := Sleeping(attempt + 1)];
      } else {
        RecordFailureNow(now);
        stats := stats.(failed := stats.failed + 1);
        permits := permits + 1;
        calls := calls - {id};
      }
      assert View() == Step(config, before, Raise(id, timedOut, now));
      events, states := events + [Raise(id, timedOut, now)], states + [View()];
    }

    method RecordFailureNow(now: real)
      modifies this`circuitState, this`failureCount, this`nextAttemptTime
      ensures View() == old(View()).(adapter := RecordFailure(config, old(View()).adapter, now))
    {
      failureCount := failureCount + 1;
      if circuitState == Closed {
        if failureCount >= config.failureThreshold {
          circuitState := Open;
          nextAttemptTime := now + config.recoveryTimeout;
        }
      } else if circuitState == HalfOpen {
        circuitState := Open;
        nextAttemptTime := now + config.recoveryTimeout;
      }
    }

    /** The backoff sleep is over: the next attempt starts. */
    method NextAttempt(ghost id: CallId)
      requires Valid() && Enabled(View(), Wake(id))
      modifies this`calls, this`events, this`states
      ensures Valid() && events == old(events) + [Wake(id)]
      ensures View() == Step(config, old(View()), Wake(id))
    {
      RunSnoc(config, states, events, Wake(id));
      calls := calls[id := Running(calls[id].attempt)];
      events, states := events + [Wake(id)], states + [View()];
    }

    /** An attempt that fails and, if there is another one, the sleep after it. */
    method FailOnce(ghost id: CallId, attempt: nat, timedOut: bool, now: real) returns (retry: bool, delay: real)
      requires Valid() && id in calls && calls[id] == Running(attempt)
      modifies this
      ensures Valid() && retry == (attempt < config.maxRetries)
      ensures retry ==>
                && delay == Delay(config, attempt) && stats.retries == old(stats.retries) + 1
                && calls == old(calls)[id := Running(attempt + 1)] && permits == old(permits)
      ensures !retry ==>
                calls == old(calls) - {id} && permits == old(permits) + 1 && stats.retries == old(stats.retries)
    {
      hide IsRun, Delay;
      retry, delay := AttemptRaised(id, attempt, timedOut, now);
      if retry {
        NextAttempt(id);
      } else {
        assert permits == old(permits) + 1;
      }
    }

    method SucceedOnce(ghost id: CallId)
      requires Valid() && id in calls && calls[id].Running?
      modifies this
      ensures Valid() && calls == old(calls) - {id} && permits == old(permits) + 1
      ensures stats.retries == old(stats.retries)
    {
      hide IsRun;
      AttemptReturned(id);
    }

    /** The whole retry loop of one call when no other call moves meanwhile: attempt `a`
        fails when `fails(a)`, by timing out when `timesOut(a)`, at time `clock(a)`. */
    method ExecuteWithRetry(ghost id: CallId, fails: nat -> bool, timesOut: nat -> bool, clock: nat -> real)
      returns (ok: bool, waits: seq<real>)
      requires Valid() && id in calls && calls[id] == Running(0)
      modifies this
      ensures Valid() && calls == old(calls) - {id} && permits == old(permits) + 1
      ensures ok <==> exists a | 0 <= a <= config.maxRetries :: !fails(a)
      ensures |waits| <= config.maxRetries && if ok then !fails(|waits|) else |waits| == config.maxRetries
      ensures forall a | 0 <= a < |waits| :: fails(a) && waits[a] == Delay(config, a)
      ensures stats.retries == old(stats.retries) + |waits|
    {
      hide Valid, View, Delay;
      waits := [];
      for attempt := 0 to config.maxRetries + 1
        invariant Valid() && id in calls && calls - {id} == old(calls) - {id} && calls[id] == Running(attempt)
        invariant permits == old(permits)
        invariant |waits| == attempt <= config.maxRetries
        invariant forall a | 0 <= a < attempt :: fails(a) && waits[a] == Delay(config, a)
        invariant stats.retries == old(stats.retries) + attempt
      {
        if !fails(attempt) {
          SucceedOnce(id);
          return true, waits;
        }
        var retry, delay := FailOnce(id, attempt, timesOut(attempt), clock(attempt));
        if !retry {
          return false, waits;
        }
        waits := waits + [delay];
      }
      assert false;
    }
  }
}

/** The adapter's leaky counter against the breaker that counts consecutive failures. */
module LeakyCounter {
  import RA = ResilientAdapter
  import CB = CircuitBreaker

  datatype Completion = Completion(ok: bool, now: real)

  /** The adapter after recording a sequence of completed calls ... */
  function AdapterAfter(c: RA.Config, done: seq<Completion>): RA.Adapter {
    if done == [] then RA.Init(c) else
      var a, last := AdapterAfter(c, done[..|done| - 1]), done[|done| - 1];
      if last.ok then RA.RecordSuccess(a) else RA.RecordFailure(c, a, last.now)
  }

  /** ... and the breaker after the same calls. */
  function BreakerAfter(c: CB.Config, done: seq<Completion>): CB.Breaker {
    if done == [] then CB.INITIAL else
      var b, last := BreakerAfter(c, done[..|done| - 1]), done[|done| - 1];
      if last.ok then CB.Succeed(b) else CB.Fail(c, b, last.now)
  }

  /** Whenever the consecutive-failure breaker is open, the adapter's circuit, with the
      same threshold, is open as well. */
  lemma {:induction false} OpensNoLater(c: RA.Config, b: CB.Config, done: seq<Completion>)
    requires c.Valid() && b.failureThreshold == c.failureThreshold
    ensures !AdapterAfter(c, done).circuit.HalfOpen?
    ensures AdapterAfter(c, done).circuit.Closed? ==>
              && BreakerAfter(b, done).circuit.Closed?
              && BreakerAfter(b, done).failureCount <= AdapterAfter(c, done).failureCount < c.failureThreshold
  {
    if done != [] {
      OpensNoLater(c, b, done[..|done| - 1]);
    }
  }

  lemma Snoc(c: RA.Config, b: CB.Config, done: seq<Completion>, last: Completion)
    ensures AdapterAfter(c, done + [last])
         == if last.ok then RA.RecordSuccess(AdapterAfter(c, done)) else RA.RecordFailure(c, AdapterAfter(c, done), last.now)
    ensures BreakerAfter(b, done + [last])
         == if last.ok then CB.Succeed(BreakerAfter(b, done)) else CB.Fail(b, BreakerAfter(b, done), last.now)
  {
    assert (done + [last])[..|done|] == done;
  }

  /** The adapter's circuit is open at the end, and the breaker's has never been. */
  ghost predicate OpensEarlier(c: RA.Config, b: CB.Config, done: seq<Completion>) {
    && AdapterAfter(c, done).circuit.Open?
    && forall k | 0 <= k <= |done| :: BreakerAfter(b, done[..k]).circuit.Closed?
  }

  /** With a threshold of one or two the two counters agree until the circuits open. */
  lemma {:induction false} SmallThresholdsAgree(c: RA.Config, b: CB.Config, done: seq<Completion>)
    requires 1 <= c.failureThreshold == b.failureThreshold <= 2
    requires forall k | 0 <= k <= |done| :: BreakerAfter(b, done[..k]).circuit.Closed?
    ensures AdapterAfter(c, done).circuit.Closed?
    ensures AdapterAfter(c, done).failureCount == BreakerAfter(b, done).failureCount < c.failureThreshold
  {
    if done != [] {
      var front := done[..|done| - 1];
      forall k | 0 <= k <= |front| ensures BreakerAfter(b, front[..k]).circuit.Closed? {
        assert front[..k] == done[..k];
      }
      SmallThresholdsAgree(c, b, front);
      assert done[..|done|] == done;
    }
  }

  function Failures(n: nat): (r: seq<Completion>)
    ensures |r| == n && forall k | 0 <= k < n :: r[k] == Completion(false, 0.0)
  {
    seq(n, _ => Completion(false, 0.0))
  }

  lemma {:induction false} AfterFailures(c: RA.Config, b: CB.Config, n: nat)
    requires n < c.failureThreshold == b.failureThreshold
    ensures AdapterAfter(c, Failures(n)).circuit.Closed? && AdapterAfter(c, Failures(n)).failureCount == n
    ensures BreakerAfter(b, Failures(n)).circuit.Closed? && BreakerAfter(b, Failures(n)).failureCount == n
  {
    if n > 0 {
      AfterFailures(c, b, n - 1);
      assert Failures(n)[..n - 1] == Failures(n - 1);
    }
  }

  /** One failure fewer than the threshold, a success, and two failures. */
  lemma SomeOpenEarlier(c: RA.Config, b: CB.Config) returns (done: seq<Completion>)
    requires c.failureThreshold == b.failureThreshold >= 3
    ensures OpensEarlier(c, b, done)
  {
    var n := c.failureThreshold - 1;
    var failed, succeeded := Completion(false, 0.0), Completion(true, 0.0);
    var d0 := Failures(n);
    var d1 := d0 + [succeeded];
    var d2 := d1 + [failed];
    done := d2 + [failed];
    AfterFailures(c, b, n);
    Snoc(c, b, d0, succeeded);
    Snoc(c, b, d1, failed);
    Snoc(c, b, d2, failed);
    forall k | 0 <= k <= |done| ensures BreakerAfter(b, done[..k]).circuit.Closed? {
      hide AdapterAfter, BreakerAfter;
      if k <= n {
        AfterFailures(c, b, k);
        assert done[..k] == Failures(k);
      } else {
        assert done[..k] == if k == n + 1 then d1 else if k == n + 2 then d2 else done;
      }
    }
  }

  /** Strictly earlier on some completions if and only if the threshold is at least three. */
  lemma OpensEarlierIff(c: RA.Config, b: CB.Config)
    requires c.Valid() && b.failureThreshold == c.failureThreshold
    ensures (exists done :: OpensEarlier(c, b, done)) <==> c.failureThreshold >= 3
  {
    if c.failureThreshold >= 3 {
      var done := SomeOpenEarlier(c, b);
    } else if done :| OpensEarlier(c, b, done) {
      SmallThresholdsAgree(c, b, done);
    }
  }
}
