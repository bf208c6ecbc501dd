/** The event consumer: a handler per subject, retries, and the dead letter queue for
    events whose last attempt failed. */
module EventConsumer {
  import opened Wrappers
  import opened Powers
  import D = DeadLetters
  import F = EventFlow
  import Q = DLQHandler

  datatype Config = Config(retryAttempts: nat, retryDelay: real, maxConcurrent: nat)

  /** What happens to one event.  Attempt `a` of its handler fails when `fails(a)`. */
  datatype Fate = Unhandled | Processed(attempts: nat) | Exhausted | NeverTried

  /** The first attempt from `a` on that does not fail, if there is one before `n`. */
  function FirstSuccess(fails: nat -> bool, a: nat, n: nat): (r: nat)
    requires a <= n
    ensures a <= r <= n
    ensures forall i | a <= i < r :: fails(i)
    ensures r < n ==> !fails(r)
    decreases n - a
  {
    if a < n && fails(a) then FirstSuccess(fails, a + 1, n) else a
  }

  function FateOf(c: Config, handled: bool, fails: nat -> bool): Fate {
    if !handled then Unhandled
    else if c.retryAttempts == 0 then NeverTried
    else
      var a := FirstSuccess(fails, 0, c.retryAttempts);
      if a < c.retryAttempts then Processed(a) else Exhausted
  }

  function Backoff(c: Config, attempt: nat): real {
    c.retryDelay * Power(2.0, attempt)
  }

  /** The sum of the first `n` sleeps. */
  function TotalBackoff(c: Config, n: nat): real {
    if n == 0 then 0.0 else TotalBackoff(c, n - 1) + Backoff(c, n - 1)
  }

  /** An event that fails n + 1 times in a row has waited retry_delay * (2^n - 1). */
  lemma {:induction false} TotalBackoffIs(c: Config, n: nat)
    ensures TotalBackoff(c, n) == c.retryDelay * (Power(2.0, n) - 1.0)
  {
    if n > 0 {
      TotalBackoffIs(c, n - 1);
      var p := Power(2.0, n - 1);
      assert c.retryDelay * (2.0 * p - 1.0) == c.retryDelay * (p - 1.0) + c.retryDelay * p;
    }
  }

  /** The consumer.  Each method is one stretch between two suspensions, of a task that
      handles an event or of one of the queue's own tasks; the ghost parameter says which
      task it is, and `Valid` says that the stretches performed so far, in whatever order,
      make up a run of the system in EventFlow. */
  class EventConsumer {
    const config: Config
    const dlq: Q.Handler?
    var subjects: set<string>
    var permits: nat
    var eventsProcessed: nat
    var eventsFailed: nat
    var eventsRetried: nat
    var eventsDlq: nat
    ghost var started: nat
    ghost var ignored: nat
    ghost var tasks: map<F.TaskId, F.Phase>
    ghost var events: seq<F.Event<Q.DLQEntry>>
    ghost var states: seq<F.System<Q.DLQEntry>>

    ghost function FlowConfig(): F.Config {
      F.Config(config.retryAttempts, config.retryDelay, config.maxConcurrent,
               if dlq == null then None else Some(dlq.config))
    }

    ghost function View(): F.System<Q.DLQEntry>
      reads this, dlq, if dlq == null then {} else dlq.known
    {
      F.System(tasks, permits, F.Stats(eventsProcessed, eventsFailed, eventsRetried, eventsDlq, started, ignored),
               if dlq == null then None else Some(dlq.View()))
    }

    ghost predicate Valid()
      reads this, dlq, if dlq == null then {} else dlq.known
    {
      && FlowConfig().Valid()
      && F.IsRun(FlowConfig(), states, events)
      && states[|events|] == View()
      && (dlq != null ==> dlq.Valid())
    }

    constructor (config: Config, dlq: Q.Handler?)
      requires config.maxConcurrent >= 1
      requires dlq != null ==> dlq.Valid() && dlq.events == []
      ensures Valid() && this.config == config && this.dlq == dlq && subjects == {}
      ensures tasks == map[] && events == []
    {
      this.config, this.dlq := config, dlq;
      subjects, permits := {}, config.maxConcurrent;
      eventsProcessed, eventsFailed, eventsRetried, eventsDlq, started, ignored := 0, 0, 0, 0, 0, 0;
      tasks, events := map[], [];
      states := [F.System(map[], config.maxConcurrent, F.Stats(0, 0, 0, 0, 0, 0),
                          if dlq == null then None else Some(dlq.View()))];
    }

    /** One step of the run: what every method below ends with. */
    ghost method Log(before: F.System<Q.DLQEntry>, e: F.Event<Q.DLQEntry>)
      requires FlowConfig().Valid() && (dlq != null ==> dlq.Valid())
      requires F.IsRun(FlowConfig(), states, events) && states[|events|] == before
      requires F.HasQueue(FlowConfig(), before) && F.Enabled(FlowConfig(), before, e)
      requires View() == F.Step(FlowConfig(), before, e)
      modifies this`events, this`states
      ensures Valid() && events == old(events) + [e] && View() == old(View())
    {
      F.RunSnoc(FlowConfig(), states, events, e);
      ghost var after := F.Step(FlowConfig(), before, e);
      assert View() == after;
      hide F.IsRun, F.Step, F.Enabled, F.HasQueue;
      events, states := events + [e], states + [after];
    }

    method RegisterHandler(subject: string)
      requires Valid()
      modifies this`subjects
      ensures Valid() && subjects == old(subjects) + {subject}
    {
      subjects := subjects + {subject};
    }

    /** `_handle_event` up to the semaphore. */
    method HandleEvent(ghost t: F.TaskId)
      requires Valid() && t !in tasks
      modifies this`tasks, this`events, this`states
      ensures Valid() && events == old(events) + [F.Arrive(t)]
      ensures View() == F.Step(FlowConfig(), old(View()), F.Arrive(t))
    {
      ghost var before := View();
      tasks := tasks[t := F.Waiting];
      Log(before, F.Arrive(t));
    }

    /** `_process_event` up to the first call of the handler, if there is one. */
    method StartProcessing(ghost t: F.TaskId, subject: string) returns (tries: bool)
      requires Valid() && F.Enabled(FlowConfig(), View(), F.Enter(t, subject in subjects))
      modifies this
      ensures Valid() && subjects == old(subjects) && events == old(events) + [F.Enter(t, subject in subjects)]
      ensures View() == F.Step(FlowConfig(), old(View()), F.Enter(t, subject in subjects))
      ensures tries == (subject in subjects && config.retryAttempts > 0)
    {
      ghost var before, e := View(), F.Enter(t, subject in subjects);
      tries := subject in subjects && config.retryAttempts > 0;
      if tries {
        permits := permits - 1;
        tasks, started := tasks[t := F.Attempting(0)], started + 1;
      } else {
        tasks, ignored := tasks - {t}, ignored + 1;
      }
      Log(before, e);
    }

    /** The handler returned. */
    method AttemptReturned(ghost t: F.TaskId)
      requires Valid() && F.Enabled(FlowConfig(), View(), F.Return(t))
      modifies this
      ensures Valid() && subjects == old(subjects) && events == old(events) + [F.Return(t)]
      ensures View() == F.Step(FlowConfig(), old(View()), F.Return(t))
    {
      ghost var before := View();
      eventsProcessed := eventsProcessed + 1;
      permits := permits + 1;
      tasks := tasks - {t};
      Log(before, F.Return(t));
    }

    /** The handler raised or timed out: the task sleeps for `delay`, or it is over and the
        event is sent to the queue, or counted as failed if there is no queue. */
    method AttemptFailed(ghost t: F.TaskId, attempt: nat, event: string, now: real)
      returns (retry: bool, delay: real, ghost sent: Option<Q.DLQEntry>)
      requires Valid() && t in tasks && tasks[t] == F.Attempting(attempt)
      requires dlq != null ==> now >= dlq.clock
      modifies this, dlq
      ensures Valid() && subjects == old(subjects) && events == old(events) + [F.Fail(t, sent, now)]
      ensures F.Enabled(FlowConfig(), old(View()), F.Fail(t, sent, now))
      ensures View() == F.Step(FlowConfig(), old(View()), F.Fail(t, sent, now))
      ensures sent.Some? ==> sent.value.event == event
      ensures retry == (attempt + 1 < config.retryAttempts)
      ensures retry ==> delay == Backoff(config, attempt) && (dlq != null ==> dlq.clock == old(dlq.clock))
    {
      hide Backoff, Q.Handler.Valid, F.IsRun;
      ghost var before := View();
      sent, delay := None, 0.0;
      retry := attempt + 1 < config.retryAttempts;
      if retry {
        delay := Backoff(config, attempt);
        tasks := tasks[t := F.Sleeping(attempt)];
      } else {
        sent := SendToDlq(event, now);
        permits := permits + 1;
        tasks := tasks - {t};
      }
      Log(before, F.Fail(t, sent, now));
    }

    method SendToDlq(event: string, now: real) returns (ghost sent: Option<Q.DLQEntry>)
      requires dlq != null ==> dlq.Valid() && now >= dlq.clock
      modifies this`eventsDlq, this`eventsFailed, dlq
      ensures sent.Some? <==> dlq != null
      ensures dlq == null ==> eventsFailed == old(eventsFailed) + 1 && eventsDlq == old(eventsDlq)
      ensures dlq != null ==>
                && dlq.Valid() && eventsDlq == old(eventsDlq) + 1 && eventsFailed == old(eventsFailed)
                && sent.value.event == event
                && F.QueueEnabled(old(View()), D.Send(sent.value, now))
                && dlq.View() == D.Step(dlq.config, old(dlq.View()), D.Send(sent.value, now))
    {
      sent := None;
      if dlq != null {
        var entry := dlq.SendToDlq(event, now);
        sent := Some(entry);
        eventsDlq := eventsDlq + 1;
      } else {
        eventsFailed := eventsFailed + 1;
      }
    }

    /** The backoff sleep is over: the next attempt starts. */
    method NextAttempt(ghost t: F.TaskId)
      requires Valid() && F.Enabled(FlowConfig(), View(), F.Wake(t))
      modifies this
      ensures Valid() && subjects == old(subjects) && events == old(events) + [F.Wake(t)]
      ensures View() == F.Step(FlowConfig(), old(View()), F.Wake(t))
    {
      ghost var before := View();
      eventsRetried := eventsRetried + 1;
      tasks := tasks[t := F.Attempting(tasks[t].attempt + 1)];
      Log(before, F.Wake(t));
    }

    // The queue's own tasks, which the consumer starts with itself.

    method StartRetryPass(now: real) returns (due: seq<(nat, Q.DLQEntry)>)
      requires Valid() && dlq != null && now >= dlq.clock && dlq.pending == []
      modifies this`events, this`states, dlq
      ensures Valid() && dlq.pending == due && events == old(events) + [F.Queue(D.StartPass(now))]
      ensures View() == F.Step(FlowConfig(), old(View()), F.Queue(D.StartPass(now)))
    {
      hide Q.Handler.Valid, D.Step, F.IsRun;
      ghost var before := View();
      QueueIsKnown();
      due := dlq.CollectRetries(now);
      Log(before, F.Queue(D.StartPass(now)));
    }

    method SettleRetry(index: nat, entry: Q.DLQEntry, result: D.Result, now: real)
      requires Valid() && dlq != null && now >= dlq.clock && dlq.pending != [] && dlq.pending[0] == (index, entry)
      modifies this`events, this`states, dlq, entry`retryCount, entry`nextRetry
      ensures Valid() && events == old(events) + [F.Queue(D.Settle(result, now))]
      ensures View() == F.Step(FlowConfig(), old(View()), F.Queue(D.Settle(result, now)))
    {
      hide Q.Handler.Valid, D.Step, F.IsRun;
      ghost var before := View();
      QueueIsKnown();
      dlq.RetryEvent(index, entry, result, now);
      Log(before, F.Queue(D.Settle(result, now)));
    }

    method CleanUpQueue(now: real)
      requires Valid() && dlq != null && now >= dlq.clock
      modifies this`events, this`states, dlq
      ensures Valid() && events == old(events) + [F.Queue(D.Cleanup(now))]
      ensures View() == F.Step(FlowConfig(), old(View()), F.Queue(D.Cleanup(now)))
    {
      hide Q.Handler.Valid, D.Step, F.IsRun;
      ghost var before := View();
      QueueIsKnown();
      dlq.CleanupExpiredEvents(now);
      Log(before, F.Queue(D.Cleanup(now)));
    }

    method ClearQueue(now: real) returns (count: nat)
      requires Valid() && dlq != null && now >= dlq.clock
      modifies this`events, this`states, dlq
      ensures Valid() && events == old(events) + [F.Queue(D.Clear(now))]
      ensures View() == F.Step(FlowConfig(), old(View()), F.Queue(D.Clear(now)))
    {
      hide Q.Handler.Valid, D.Step, F.IsRun;
      ghost var before := View();
      QueueIsKnown();
      count := dlq.ClearDlq(now);
      Log(before, F.Queue(D.Clear(now)));
    }

    lemma QueueIsKnown()
      requires dlq != null && dlq.Valid()
      ensures D.Known(dlq.View().queue, dlq.View().entries)
    {
    }

    /** A failed attempt and, if there is another one, the sleep after it. */
    method FailOnce(ghost t: F.TaskId, attempt: nat, event: string, now: real) returns (retry: bool, delay: real)
      requires Valid() && t in tasks && tasks[t] == F.Attempting(attempt)
      requires dlq != null ==> now >= dlq.clock
      modifies this, dlq
      ensures Valid() && subjects == old(subjects)
      ensures started == old(started) && ignored == old(ignored) && eventsProcessed == old(eventsProcessed)
      ensures retry == (attempt + 1 < config.retryAttempts)
      ensures retry ==>
                && delay == Backoff(config, attempt) && eventsRetried == old(eventsRetried) + 1
                && tasks == old(tasks)[t := F.Attempting(attempt + 1)] && permits == old(permits)
                && eventsDlq == old(eventsDlq) && eventsFailed == old(eventsFailed)
                && (dlq != null ==> now >= dlq.clock)
      ensures !retry ==>
                && tasks == old(tasks) - {t} && permits == old(permits) + 1 && eventsRetried == old(eventsRetried)
                && eventsDlq == old(eventsDlq) + (if dlq != null then 1 else 0)
                && eventsFailed == old(eventsFailed) + (if dlq == null then 1 else 0)
    {
      hide Q.Handler.Valid, Backoff, F.IsRun, D.Step, D.Known, D.Enabled;
      ghost var sent;
      retry, delay, sent := AttemptFailed(t, attempt, event, now);
      if retry {
        NextAttempt(t);
      }
    }

    /** The attempts of one event, up to the end. */
    method TryHandler(ghost t: F.TaskId, event: string, fails: nat -> bool, now: real)
      returns (fate: Fate, sleeps: seq<real>)
      requires Valid() && t in tasks && tasks[t] == F.Attempting(0) && config.retryAttempts >= 1
      requires dlq != null ==> now >= dlq.clock
      modifies this, dlq
      ensures Valid() && subjects == old(subjects) && tasks == old(tasks) - {t} && permits == old(permits) + 1
      ensures fate == FateOf(config, true, fails) && started == old(started)
      ensures eventsProcessed == old(eventsProcessed) + if fate.Processed? then 1 else 0
      ensures eventsDlq == old(eventsDlq) + if fate.Exhausted? && dlq != null then 1 else 0
      ensures eventsFailed == old(eventsFailed) + if fate.Exhausted? && dlq == null then 1 else 0
      ensures |sleeps| == if fate.Processed? then fate.attempts else config.retryAttempts - 1
      ensures forall a | 0 <= a < |sleeps| :: sleeps[a] == Backoff(config, a)
      ensures eventsRetried == old(eventsRetried) + |sleeps|
    {
      hide Valid, Backoff, FirstSuccess, View;
      sleeps := [];
      for attempt := 0 to config.retryAttempts
        invariant attempt < config.retryAttempts && Valid() && (dlq != null ==> now >= dlq.clock)
        invariant subjects == old(subjects) && permits == old(permits) && started == old(started)
        invariant t in tasks && tasks[t] == F.Attempting(attempt) && tasks - {t} == old(tasks) - {t}
        invariant eventsProcessed == old(eventsProcessed) && eventsDlq == old(eventsDlq) && eventsFailed == old(eventsFailed)
        invariant |sleeps| == attempt && eventsRetried == old(eventsRetried) + |sleeps|
        invariant forall a | 0 <= a < |sleeps| :: sleeps[a] == Backoff(config, a)
        invariant forall a | 0 <= a < attempt :: fails(a)
      {
        if !fails(attempt) {
          SucceedOnce(t);
          return Processed(attempt), sleeps;
        }
        var retry, delay := FailOnce(t, attempt, event, now);
        if !retry {
          return Exhausted, sleeps;
        }
        sleeps := sleeps + [delay];
      }
      assert false;
    }

    method SucceedOnce(ghost t: F.TaskId)
      requires Valid() && t in tasks && tasks[t].Attempting?
      modifies this
      ensures Valid() && subjects == old(subjects) && tasks == old(tasks) - {t} && permits == old(permits) + 1
      ensures started == old(started) && eventsProcessed == old(eventsProcessed) + 1
      ensures eventsFailed == old(eventsFailed) && eventsRetried == old(eventsRetried) && eventsDlq == old(eventsDlq)
    {
      hide Q.Handler.Valid, F.IsRun;
      AttemptReturned(t);
    }

    /** `_handle_event` from beginning to end when no other task moves meanwhile, with the
        sleeps it makes.  An event with a handler is counted exactly once, as processed,
        dead-lettered or failed, if and only if the consumer makes any attempts at all. */
    method ProcessEvent(ghost t: F.TaskId, subject: string, event: string, fails: nat -> bool, now: real)
      returns (fate: Fate, sleeps: seq<real>)
      requires Valid() && t !in tasks && permits > 0 && (dlq != null ==> now >= dlq.clock)
      modifies this, dlq
      ensures Valid() && subjects == old(subjects) && tasks == old(tasks) && permits == old(permits)
      ensures fate == FateOf(config, subject in subjects, fails)
      ensures started == old(started) + if fate.Processed? || fate.Exhausted? then 1 else 0
      ensures subject in subjects ==> (started == old(started) + 1 <==> config.retryAttempts >= 1)
      ensures eventsProcessed == old(eventsProcessed) + if fate.Processed? then 1 else 0
      ensures eventsDlq == old(eventsDlq) + if fate.Exhausted? && dlq != null then 1 else 0
      ensures eventsFailed == old(eventsFailed) + if fate.Exhausted? && dlq == null then 1 else 0
      ensures |sleeps| == (if fate.Processed? then fate.attempts else if fate.Exhausted? then config.retryAttempts - 1 else 0)
      ensures forall a | 0 <= a < |sleeps| :: sleeps[a] == Backoff(config, a)
      ensures eventsRetried == old(eventsRetried) + |sleeps|
    {
      hide Q.Handler.Valid, Backoff, FirstSuccess, F.IsRun, D.Step, D.Known, D.Enabled;
      HandleEvent(t);
      var tries := StartProcessing(t, subject);
      if tries {
        fate, sleeps := TryHandler(t, event, fails, now);
      } else {
        fate, sleeps := if subject in subjects then NeverTried else Unhandled, [];
      }
    }
  }

  /** What holds of every consumer at every moment, whatever its tasks and those of its
      queue have done: each event whose handler was called is counted once or in flight,
      of those at most max_concurrent_events, and nothing dead-lettered is lost track of. */
  lemma EventsAreAccountedFor(consumer: EventConsumer)
    requires consumer.Valid()
    ensures consumer.started == consumer.eventsProcessed + consumer.eventsFailed + consumer.eventsDlq
                                + |F.InFlight(consumer.tasks)|
    ensures consumer.permits + |F.InFlight(consumer.tasks)| == consumer.config.maxConcurrent
  {
    F.EveryEventIsCountedOnce(consumer.FlowConfig(), consumer.states, consumer.events, |consumer.events|);
  }

  /** Nothing dead-lettered is lost track of: every such event is in the queue, or was
      evicted, popped after publication, expired or cleared. */
  lemma DeadLettersAreAccountedFor(consumer: EventConsumer)
    requires consumer.Valid() && consumer.dlq != null
    ensures var q := consumer.dlq;
            consumer.eventsDlq == |q.dlqEvents| + q.evicted + q.popped + q.eventsExpired + q.cleared
            && |q.dlqEvents| <= q.config.maxSize
  {
    F.DeadLettersAreAccountedFor(consumer.FlowConfig(), consumer.states, consumer.events, |consumer.events|);
  }
}
