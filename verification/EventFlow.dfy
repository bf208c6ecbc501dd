/** The event consumer as a transition system, together with its dead letter queue.

    Every event that arrives is a task: it waits for the semaphore, looks up its handler,
    and then alternates attempts and backoff sleeps until it is done.  Each stretch between
    two suspensions is one step, and so is each stretch of the queue's own tasks; a run is
    any interleaving of these steps.  `Id` identifies the entries of the queue. */
module EventFlow {
  import opened Wrappers
  import D = DeadLetters

  datatype Config = Config(retryAttempts: nat, retryDelay: real, maxConcurrent: nat, dlq: Option<D.Config>) {
    predicate Valid() {
      maxConcurrent >= 1 && (dlq.Some? ==> dlq.value.Valid())
    }
  }

  datatype Phase = Waiting | Attempting(attempt: nat) | Sleeping(attempt: nat)

  /** The first four are the consumer's statistics; `started` counts the events whose
      handler was called, `ignored` those that went by without. */
  datatype Stats = Stats(processed: nat, failed: nat, retried: nat, deadLettered: nat, started: nat, ignored: nat)

  type TaskId = nat

  datatype System<Id> = System(tasks: map<TaskId, Phase>, permits: nat, stats: Stats, dlq: Option<D.State<Id>>)

  function Init<Id>(c: Config): System<Id> {
    System(map[], c.maxConcurrent, Stats(0, 0, 0, 0, 0, 0), if c.dlq.Some? then Some(D.Init()) else None)
  }

  datatype Event<Id> =
    | Arrive(task: TaskId)
    | Enter(task: TaskId, handled: bool)
    | Return(task: TaskId)
    | Fail(task: TaskId, sent: Option<Id>, now: real)
    | Wake(task: TaskId)
    | Queue(event: D.Event<Id>)

  /** The system has a queue exactly if it is configured to. */
  predicate HasQueue<Id>(c: Config, s: System<Id>) {
    s.dlq.Some? == c.dlq.Some?
  }

  /** Whether the queue can take the step. */
  predicate QueueEnabled<Id(==)>(s: System<Id>, e: D.Event<Id>) {
    s.dlq.Some? && D.Known(s.dlq.value.queue, s.dlq.value.entries) && D.Enabled(s.dlq.value, e)
  }

  /** Whether a failed attempt of task `t` is the last one and there is a queue to send to. */
  predicate Sends<Id>(c: Config, s: System<Id>, t: TaskId)
    requires t in s.tasks && s.tasks[t].Attempting?
  {
    s.dlq.Some? && s.tasks[t].attempt + 1 >= c.retryAttempts
  }

  predicate Enabled<Id(==)>(c: Config, s: System<Id>, e: Event<Id>) {
    match e
    case Arrive(t) => t !in s.tasks
    case Enter(t, _) => t in s.tasks && s.tasks[t].Waiting? && s.permits > 0
    case Return(t) => t in s.tasks && s.tasks[t].Attempting?
    case Fail(t, sent, now) =>
      && t in s.tasks && s.tasks[t].Attempting?
      && (sent.Some? <==> Sends(c, s, t))
      && (sent.Some? ==> QueueEnabled(s, D.Send(sent.value, now)))
    case Wake(t) => t in s.tasks && s.tasks[t].Sleeping?
    case Queue(q) => !q.Send? && QueueEnabled(s, q)
  }

  /** A permit in hand: the handler is called if there is one and any attempts are made;
      otherwise the task is over and gives the permit back. */
  function Entering<Id>(c: Config, s: System<Id>, t: TaskId, handled: bool): System<Id>
    requires s.permits > 0
  {
    if handled && c.retryAttempts > 0
    then s.(tasks := s.tasks[t := Attempting(0)], permits := s.permits - 1,
            stats := s.stats.(started := s.stats.started + 1))
    else s.(tasks := s.tasks - {t}, stats := s.stats.(ignored := s.stats.ignored + 1))
  }

  function Returning<Id>(s: System<Id>, t: TaskId): System<Id> {
    s.(tasks := s.tasks - {t}, permits := s.permits + 1, stats := s.stats.(processed := s.stats.processed + 1))
  }

  /** A failed attempt: the task sleeps if it has attempts left; otherwise the event goes to
      the queue, or is counted as failed if there is none. */
  function Failing<Id>(c: Config, s: System<Id>, t: TaskId, sent: Option<Id>, now: real): System<Id>
    requires HasQueue(c, s) && Enabled(c, s, Fail(t, sent, now))
  {
    var attempt := s.tasks[t].attempt;
    if attempt + 1 < c.retryAttempts then s.(tasks := s.tasks[t := Sleeping(attempt)])
    else
      var over := s.(tasks := s.tasks - {t}, permits := s.permits + 1);
      if sent.Some?
      then over.(dlq := Some(D.Step(c.dlq.value, s.dlq.value, D.Send(sent.value, now))),
                 stats := s.stats.(deadLettered := s.stats.deadLettered + 1))
      else over.(stats := s.stats.(failed := s.stats.failed + 1))
  }

  function Step<Id>(c: Config, s: System<Id>, e: Event<Id>): System<Id>
    requires HasQueue(c, s) && Enabled(c, s, e)
  {
    match e
    case Arrive(t) => s.(tasks := s.tasks[t := Waiting])
    case Enter(t, handled) => Entering(c, s, t, handled)
    case Return(t) => Returning(s, t)
    case Fail(t, sent, now) => Failing(c, s, t, sent, now)
    case Wake(t) =>
      s.(tasks := s.tasks[t := Attempting(s.tasks[t].attempt + 1)], stats := s.stats.(retried := s.stats.retried + 1))
    case Queue(q) => s.(dlq := Some(D.Step(c.dlq.value, s.dlq.value, q)))
  }

  ghost predicate IsRun<Id>(c: Config, ss: seq<System<Id>>, es: seq<Event<Id>>) {
    && |ss| == |es| + 1
    && ss[0] == Init(c)
    && (forall k {:trigger es[k]} | 0 <= k < |es| ::
          HasQueue(c, ss[k]) && Enabled(c, ss[k], es[k]) && ss[k + 1] == Step(c, ss[k], es[k]))
  }

  lemma RunStep<Id>(c: Config, ss: seq<System<Id>>, es: seq<Event<Id>>, k: nat)
    requires IsRun(c, ss, es) && k < |es|
    ensures |ss| == |es| + 1 && HasQueue(c, ss[k]) && Enabled(c, ss[k], es[k]) && ss[k + 1] == Step(c, ss[k], es[k])
  {
    hide Enabled, Step, HasQueue;
    var e := es[k];
  }

  lemma RunSnoc<Id>(c: Config, ss: seq<System<Id>>, es: seq<Event<Id>>, e: Event<Id>)
    requires IsRun(c, ss, es) && HasQueue(c, ss[|es|]) && Enabled(c, ss[|es|], e)
    ensures IsRun(c, ss + [Step(c, ss[|es|], e)], es + [e])
  {
    hide Step, Enabled, HasQueue;
    var longer, events := ss + [Step(c, ss[|es|], e)], es + [e];
    forall k | 0 <= k < |events|
      ensures HasQueue(c, longer[k]) && Enabled(c, longer[k], events[k])
      ensures longer[k + 1] == Step(c, longer[k], events[k])
    {
      assert longer[k] == ss[k] && (k < |es| ==> events[k] == es[k] && longer[k + 1] == ss[k + 1]);
    }
  }

  // ---- Permits and counters ----

  /** The tasks that hold a permit: their handler was called and they are not done. */
  function InFlight(tasks: map<TaskId, Phase>): set<TaskId> {
    set t | t in tasks && !tasks[t].Waiting?
  }

  predicate Balanced<Id>(c: Config, s: System<Id>) {
    && s.permits + |InFlight(s.tasks)| == c.maxConcurrent
    && s.stats.started == s.stats.processed + s.stats.failed + s.stats.deadLettered + |InFlight(s.tasks)|
  }

  predicate AttemptsBounded<Id>(c: Config, s: System<Id>) {
    forall t | t in s.tasks && !s.tasks[t].Waiting? ::
      s.tasks[t].attempt + (if s.tasks[t].Sleeping? then 1 else 0) < c.retryAttempts
  }

  predicate QueueAgrees<Id>(c: Config, s: System<Id>) {
    && HasQueue(c, s)
    && (if s.dlq.Some? then s.stats.failed == 0 && s.dlq.value.tally.received == s.stats.deadLettered
        else s.stats.deadLettered == 0)
  }

  lemma Moving(tasks: map<TaskId, Phase>, t: TaskId, phase: Phase)
    ensures var others := InFlight(tasks) - {t};
            InFlight(tasks[t := phase]) == if phase.Waiting? then others else others + {t}
    ensures t in InFlight(tasks) <==> t in tasks && !tasks[t].Waiting?
  {
  }

  lemma Entered(tasks: map<TaskId, Phase>, t: TaskId, phase: Phase)
    ensures |InFlight(tasks[t := phase])|
         == |InFlight(tasks)| - (if t in tasks && !tasks[t].Waiting? then 1 else 0) + (if phase.Waiting? then 0 else 1)
  {
    hide InFlight;
    Moving(tasks, t, phase);
  }

  lemma Left(tasks: map<TaskId, Phase>, t: TaskId)
    requires t in tasks
    ensures |InFlight(tasks - {t})| == |InFlight(tasks)| - if tasks[t].Waiting? then 0 else 1
  {
    assert InFlight(tasks - {t}) == InFlight(tasks) - {t};
  }

  lemma StepKeepsBalance<Id>(c: Config, s: System<Id>, e: Event<Id>)
    requires HasQueue(c, s) && Enabled(c, s, e) && Balanced(c, s)
    ensures Balanced(c, Step(c, s, e))
  {
    hide InFlight, QueueEnabled;
    match e
    case Arrive(t) => Entered(s.tasks, t, Waiting);
    case Enter(t, handled) =>
      Entered(s.tasks, t, Attempting(0));
      Left(s.tasks, t);
    case Return(t) => Left(s.tasks, t);
    case Fail(t, _, _) =>
      Entered(s.tasks, t, Sleeping(s.tasks[t].attempt));
      Left(s.tasks, t);
    case Wake(t) => Entered(s.tasks, t, Attempting(s.tasks[t].attempt + 1));
    case Queue(_) =>
  }

  lemma SendReceives<Id>(c: D.Config, s: D.State<Id>, e: D.Event<Id>)
    requires D.Known(s.queue, s.entries) && D.Enabled(s, e)
    ensures D.Step(c, s, e).tally.received == s.tally.received + if e.Send? then 1 else 0
  {
  }

  lemma StepKeepsAgreement<Id>(c: Config, s: System<Id>, e: Event<Id>)
    requires QueueAgrees(c, s) && Enabled(c, s, e)
    ensures QueueAgrees(c, Step(c, s, e))
  {
    hide D.Step, D.Known, D.Enabled;
    match e
    case Fail(_, sent, now) =>
      if sent.Some? {
        SendReceives(c.dlq.value, s.dlq.value, D.Send(sent.value, now));
      }
    case Queue(q) => SendReceives(c.dlq.value, s.dlq.value, q);
    case _ =>
  }

  lemma StepKeepsAttempts<Id>(c: Config, s: System<Id>, e: Event<Id>)
    requires HasQueue(c, s) && Enabled(c, s, e) && AttemptsBounded(c, s)
    ensures AttemptsBounded(c, Step(c, s, e))
  {
    hide D.Step, QueueEnabled;
  }

  /** In every interleaving of events, retries, backoffs and the queue's own tasks: at most
      max_concurrent_events are in flight; every event whose handler was called is counted
      exactly once, as processed, failed or dead-lettered, or is in flight; no event is
      tried more than retry_attempts times; and the queue has received exactly the events
      that the consumer calls dead-lettered. */
  lemma {:induction false} EveryEventIsCountedOnce<Id>(c: Config, ss: seq<System<Id>>, es: seq<Event<Id>>, k: nat)
    requires c.Valid() && IsRun(c, ss, es) && k <= |es|
    ensures Balanced(c, ss[k]) && AttemptsBounded(c, ss[k]) && QueueAgrees(c, ss[k])
    ensures |InFlight(ss[k].tasks)| <= c.maxConcurrent
  {
    if k == 0 {
      assert InFlight(map[]) == {};
    } else {
      EveryEventIsCountedOnce(c, ss, es, k - 1);
      RunStep(c, ss, es, k - 1);
      hide IsRun, Step, Enabled, QueueAgrees, AttemptsBounded, InFlight;
      StepKeepsBalance(c, ss[k - 1], es[k - 1]);
      StepKeepsAttempts(c, ss[k - 1], es[k - 1]);
      StepKeepsAgreement(c, ss[k - 1], es[k - 1]);
    }
  }

  /** A waiting event gets its permit if and only if fewer than max_concurrent_events are in flight. */
  lemma EntersIff<Id>(c: Config, ss: seq<System<Id>>, es: seq<Event<Id>>, t: TaskId, handled: bool, k: nat)
    requires c.Valid() && IsRun(c, ss, es) && k <= |es|
    ensures |es| < |ss|
    ensures Enabled(c, ss[k], Enter(t, handled)) <==>
              t in ss[k].tasks && ss[k].tasks[t].Waiting? && |InFlight(ss[k].tasks)| < c.maxConcurrent
  {
    EveryEventIsCountedOnce(c, ss, es, k);
    hide InFlight, Step, QueueAgrees, AttemptsBounded;
  }

  // ---- Each event by itself ----

  /** The step calls the handler of task `t` for the first time. */
  predicate IsStart<Id>(c: Config, e: Event<Id>, t: TaskId) {
    e.Enter? && e.task == t && e.handled && c.retryAttempts > 0
  }

  /** The step counts the event of task `t` as processed, failed or dead-lettered. */
  predicate IsCount<Id>(c: Config, s: System<Id>, e: Event<Id>, t: TaskId)
    requires Enabled(c, s, e)
  {
    || (e.Return? && e.task == t)
    || (e.Fail? && e.task == t && s.tasks[t].attempt + 1 >= c.retryAttempts)
  }

  /** How many of the steps i, i+1, ..., k-1 start task `t` ... */
  function Starts<Id>(c: Config, es: seq<Event<Id>>, t: TaskId, i: nat, k: nat): nat
    requires k <= |es|
  {
    if k <= i then 0 else Starts(c, es, t, i, k - 1) + if IsStart(c, es[k - 1], t) then 1 else 0
  }

  /** ... and how many of them count its event. */
  ghost function Counts<Id>(c: Config, ss: seq<System<Id>>, es: seq<Event<Id>>, t: TaskId, i: nat, k: nat): nat
    requires IsRun(c, ss, es) && k <= |es|
  {
    if k <= i then 0
    else
      RunStep(c, ss, es, k - 1);
      Counts(c, ss, es, t, i, k - 1) + if IsCount(c, ss[k - 1], es[k - 1], t) then 1 else 0
  }

  predicate IsInFlight(tasks: map<TaskId, Phase>, t: TaskId) {
    t in tasks && !tasks[t].Waiting?
  }

  lemma StepMovesTask<Id>(c: Config, s: System<Id>, e: Event<Id>, t: TaskId)
    requires HasQueue(c, s) && Enabled(c, s, e) && e != Arrive(t)
    ensures var tasks := Step(c, s, e).tasks;
            && (if IsInFlight(tasks, t) then 1 else 0) + (if IsCount(c, s, e, t) then 1 else 0)
            == (if IsInFlight(s.tasks, t) then 1 else 0) + (if IsStart(c, e, t) then 1 else 0)
            && (IsStart(c, e, t) ==> t in s.tasks && s.tasks[t].Waiting?)
            && (t in tasks && tasks[t].Waiting? ==> t in s.tasks && s.tasks[t].Waiting?)
  {
    hide D.Step, QueueEnabled;
  }

  /** In every interleaving each event is counted at most once: from its arrival on, its
      handler is first called at most once, and it is counted exactly once if it was called
      and the event is over, and not at all otherwise. */
  lemma {:induction false} EachEventIsCountedOnce<Id>(
    c: Config, ss: seq<System<Id>>, es: seq<Event<Id>>, t: TaskId, i: nat, k: nat)
    requires IsRun(c, ss, es) && i < k <= |es| && es[i] == Arrive(t)
    requires forall j | i < j < k :: es[j] != Arrive(t)
    ensures var started := Starts(c, es, t, i, k);
            && started <= 1
            && (t in ss[k].tasks && ss[k].tasks[t].Waiting? ==> started == 0)
            && Counts(c, ss, es, t, i, k) == if started == 1 && t !in ss[k].tasks then 1 else 0
    ensures IsInFlight(ss[k].tasks, t) ==> Starts(c, es, t, i, k) == 1
  {
    RunStep(c, ss, es, k - 1);
    if k == i + 1 {
      assert Starts(c, es, t, i, i) == 0 && Counts(c, ss, es, t, i, i) == 0;
    } else {
      EachEventIsCountedOnce(c, ss, es, t, i, k - 1);
      StepMovesTask(c, ss[k - 1], es[k - 1], t);
      hide IsRun, Step, Enabled, IsStart, IsCount, HasQueue;
    }
  }

  // ---- Attempts and statistics, from the events alone ----

  /** How often the handler of task `t` has failed since the task got its permit. */
  function Fails<Id>(es: seq<Event<Id>>, t: TaskId, k: nat): nat
    requires k <= |es|
  {
    if k == 0 || (es[k - 1].Enter? && es[k - 1].task == t) then 0
    else Fails(es, t, k - 1) + if es[k - 1].Fail? && es[k - 1].task == t then 1 else 0
  }

  /** Where an event is after a step of its own, given how often its handler has failed. */
  function PhaseAfter<Id>(c: Config, e: Event<Id>, fails: nat): Option<Phase>
    requires !e.Queue?
  {
    match e
    case Arrive(_) => Some(Waiting)
    case Enter(_, handled) => if handled && c.retryAttempts > 0 then Some(Attempting(0)) else None
    case Return(_) => None
    case Fail(_, _, _) => if 1 <= fails < c.retryAttempts then Some(Sleeping(fails - 1)) else None
    case Wake(_) => Some(Attempting(fails))
  }

  /** Where the event of task `t` is, from the events alone: its last step and the number of
      failures decide. */
  function PhaseOf<Id>(c: Config, es: seq<Event<Id>>, t: TaskId, k: nat): Option<Phase>
    requires k <= |es|
  {
    if k == 0 then None
    else if !es[k - 1].Queue? && es[k - 1].task == t then PhaseAfter(c, es[k - 1], Fails(es, t, k))
    else PhaseOf(c, es, t, k - 1)
  }

  function At(tasks: map<TaskId, Phase>, t: TaskId): Option<Phase> {
    if t in tasks then Some(tasks[t]) else None
  }

  predicate PhaseAgrees(tasks: map<TaskId, Phase>, t: TaskId, fails: nat) {
    IsInFlight(tasks, t) ==> fails == tasks[t].attempt + if tasks[t].Sleeping? then 1 else 0
  }

  function FailsAfter<Id>(e: Event<Id>, t: TaskId, fails: nat): nat {
    if e.Enter? && e.task == t then 0 else fails + if e.Fail? && e.task == t then 1 else 0
  }

  lemma StepKeepsPhase<Id>(c: Config, s: System<Id>, e: Event<Id>, t: TaskId, fails: nat)
    requires HasQueue(c, s) && Enabled(c, s, e) && PhaseAgrees(s.tasks, t, fails)
    ensures var tasks, after := Step(c, s, e).tasks, FailsAfter(e, t, fails);
            && PhaseAgrees(tasks, t, after)
            && At(tasks, t) == if !e.Queue? && e.task == t then PhaseAfter(c, e, after) else At(s.tasks, t)
  {
    hide D.Step, QueueEnabled;
  }

  lemma {:induction false} TaskIsHistory<Id>(c: Config, ss: seq<System<Id>>, es: seq<Event<Id>>, t: TaskId, k: nat)
    requires IsRun(c, ss, es) && k <= |es|
    ensures |es| < |ss| && At(ss[k].tasks, t) == PhaseOf(c, es, t, k)
    ensures PhaseAgrees(ss[k].tasks, t, Fails(es, t, k))
  {
    hide Step, Enabled, HasQueue, PhaseAgrees, PhaseAfter, At;
    if k > 0 {
      TaskIsHistory(c, ss, es, t, k - 1);
      RunStep(c, ss, es, k - 1);
      StepKeepsPhase(c, ss[k - 1], es[k - 1], t, Fails(es, t, k - 1));
      assert Fails(es, t, k) == FailsAfter(es[k - 1], t, Fails(es, t, k - 1));
    } else {
      NothingAtFirst<Id>(c, t);
    }
  }

  lemma NothingAtFirst<Id>(c: Config, t: TaskId)
    ensures At(Init<Id>(c).tasks, t) == None && PhaseAgrees(Init<Id>(c).tasks, t, 0)
  {
  }

  datatype Stat = Processed | Failed | Retried | DeadLettered | Started | Ignored

  function ValueOf(s: Stats, stat: Stat): nat {
    match stat
    case Processed => s.processed
    case Failed => s.failed
    case Retried => s.retried
    case DeadLettered => s.deadLettered
    case Started => s.started
    case Ignored => s.ignored
  }

  /** Whether an event counts, where its handler has failed `fails` times before: an event is
      given up when its last attempt fails, and sent to the queue if there is one. */
  predicate CountsAs<Id>(c: Config, e: Event<Id>, fails: nat, stat: Stat) {
    match stat
    case Processed => e.Return?
    case Failed => e.Fail? && fails + 1 >= c.retryAttempts && c.dlq.None?
    case Retried => e.Wake?
    case DeadLettered => e.Fail? && fails + 1 >= c.retryAttempts && c.dlq.Some?
    case Started => e.Enter? && e.handled && c.retryAttempts > 0
    case Ignored => e.Enter? && !(e.handled && c.retryAttempts > 0)
  }

  function Count<Id>(c: Config, es: seq<Event<Id>>, stat: Stat, k: nat): nat
    requires k <= |es|
  {
    if k == 0 then 0
    else
      var fails := if es[k - 1].Fail? then Fails(es, es[k - 1].task, k - 1) else 0;
      Count(c, es, stat, k - 1) + if CountsAs(c, es[k - 1], fails, stat) then 1 else 0
  }

  lemma StepCounts<Id>(c: Config, s: System<Id>, e: Event<Id>, fails: nat, stat: Stat)
    requires HasQueue(c, s) && Enabled(c, s, e)
    requires e.Fail? ==> PhaseAgrees(s.tasks, e.task, fails)
    ensures ValueOf(Step(c, s, e).stats, stat) == ValueOf(s.stats, stat) + if CountsAs(c, e, fails, stat) then 1 else 0
  {
    hide D.Step, QueueEnabled;
  }

  /** Each statistic is the number of the events it is named after. */
  lemma {:induction false} StatsAreHistory<Id>(c: Config, ss: seq<System<Id>>, es: seq<Event<Id>>, stat: Stat, k: nat)
    requires IsRun(c, ss, es) && k <= |es|
    ensures |es| < |ss| && ValueOf(ss[k].stats, stat) == Count(c, es, stat, k)
  {
    hide Step, Enabled, HasQueue, PhaseAgrees, CountsAs, Fails;
    if k > 0 {
      StatsAreHistory(c, ss, es, stat, k - 1);
      RunStep(c, ss, es, k - 1);
      var e := es[k - 1];
      var fails := if e.Fail? then Fails(es, e.task, k - 1) else 0;
      if e.Fail? {
        TaskIsHistory(c, ss, es, e.task, k - 1);
      }
      StepCounts(c, ss[k - 1], e, fails, stat);
    }
  }

  // ---- The queue's part of a run ----

  /** What the queue sees of an event, if anything. */
  function Seen<Id>(c: Config, s: System<Id>, e: Event<Id>): Option<D.Event<Id>>
    requires Enabled(c, s, e)
  {
    match e
    case Queue(q) => Some(q)
    case Fail(_, sent, now) => if sent.Some? then Some(D.Send(sent.value, now)) else None
    case _ => None
  }

  lemma StepAsSeen<Id>(c: Config, s: System<Id>, e: Event<Id>)
    requires HasQueue(c, s) && s.dlq.Some? && Enabled(c, s, e)
    ensures var seen := Seen(c, s, e);
            && (seen.Some? ==> QueueEnabled(s, seen.value))
            && Step(c, s, e).dlq == Some(if seen.None? then s.dlq.value else D.Step(c.dlq.value, s.dlq.value, seen.value))
  {
    hide D.Step, D.Known, D.Enabled;
  }

  /** The queue's part of every run is a run of the queue, so all that is proved of those
      holds of a queue behind a consumer. */
  lemma {:induction false} QueueRuns<Id>(c: Config, ss: seq<System<Id>>, es: seq<Event<Id>>, k: nat)
    returns (ds: seq<D.State<Id>>, de: seq<D.Event<Id>>)
    requires c.Valid() && c.dlq.Some? && IsRun(c, ss, es) && k <= |es|
    ensures D.IsRun(c.dlq.value, ds, de) && ss[k].dlq == Some(ds[|de|])
  {
    if k == 0 {
      ds, de := [D.Init()], [];
    } else {
      ds, de := QueueRuns(c, ss, es, k - 1);
      RunStep(c, ss, es, k - 1);
      hide IsRun, Step, Enabled, Seen, D.IsRun, D.Step, D.Enabled, D.Known;
      StepAsSeen(c, ss[k - 1], es[k - 1]);
      var seen := Seen(c, ss[k - 1], es[k - 1]);
      if seen.Some? {
        D.RunSnoc(c.dlq.value, ds, de, seen.value);
        ds, de := ds + [D.Step(c.dlq.value, ds[|de|], seen.value)], de + [seen.value];
      }
    }
  }

  /** Every dead-lettered event is in the queue, or was evicted, popped after a publication,
      expired or cleared; and the queue keeps its bound and its order. */
  lemma DeadLettersAreAccountedFor<Id>(c: Config, ss: seq<System<Id>>, es: seq<Event<Id>>, k: nat)
    requires c.Valid() && c.dlq.Some? && IsRun(c, ss, es) && k <= |es|
    ensures ss[k].dlq.Some?
    ensures var q, t := ss[k].dlq.value.queue, ss[k].dlq.value.tally;
            ss[k].stats.deadLettered == |q| + t.evicted + t.popped + t.expired + t.cleared
    ensures D.Queued(c.dlq.value, ss[k].dlq.value) && D.RetriesBounded(c.dlq.value, ss[k].dlq.value)
  {
    EveryEventIsCountedOnce(c, ss, es, k);
    var ds, de := QueueRuns(c, ss, es, k);
    D.AlwaysSound(c.dlq.value, ds, de, |de|);
  }
}
