/** The dead letter queue handler and its entries, as objects.

    Entries are changed in place: a retry pass holds references to them while other
    tasks work on the queue.  `Valid` says that the stretches performed so far, in
    whatever order, make up a run of the transition system in DeadLetters. */
module DLQHandler {
  import opened DeadLetters

  class DLQEntry {
    const event: string
    const timestamp: real
    var retryCount: nat
    var nextRetry: real

    constructor (event: string, now: real)
      ensures this.event == event && timestamp == now && retryCount == 0 && nextRetry == now
    {
      this.event, timestamp := event, now;
      retryCount, nextRetry := 0, now;
    }
  }

  class Handler {
    const config: Config
    var dlqEvents: seq<DLQEntry>
    var eventsReceived: nat
    var eventsRetried: nat
    var eventsExpired: nat
    var eventsProcessed: nat
    ghost var evicted: nat
    ghost var popped: nat
    ghost var cleared: nat
    ghost var known: set<DLQEntry>
    ghost var pending: seq<(nat, DLQEntry)>
    ghost var clock: real
    ghost var events: seq<Event<DLQEntry>>
    ghost var states: seq<State<DLQEntry>>

    ghost function Entries(): map<DLQEntry, Entry>
      reads this, known
    {
      map e | e in known :: Entry(e.timestamp, e.retryCount, e.nextRetry)
    }

    ghost function View(): State<DLQEntry>
      reads this, known
    {
      State(dlqEvents, Entries(), pending,
            Tally(eventsReceived, eventsProcessed, eventsRetried, eventsExpired, evicted, popped, cleared), clock)
    }

    ghost predicate Valid()
      reads this, known
    {
      && config.Valid()
      && IsRun(config, states, events)
      && states[|events|] == View()
      && (forall i | 0 <= i < |dlqEvents| :: dlqEvents[i] in known)
      && (forall j | 0 <= j < |pending| :: pending[j].1 in known)
    }

    constructor (config: Config)
      requires config.Valid()
      ensures Valid() && this.config == config && dlqEvents == [] && events == [] && clock == 0.0
    {
      this.config := config;
      dlqEvents := [];
      eventsReceived, eventsRetried, eventsExpired, eventsProcessed := 0, 0, 0, 0;
      evicted, popped, cleared, known, pending, clock := 0, 0, 0, {}, [], 0.0;
      events, states := [], [State([], map[], [], Tally(0, 0, 0, 0, 0, 0, 0), 0.0)];
    }

    /** One step of the run: what every method below ends with. */
    ghost method Log(before: State<DLQEntry>, e: Event<DLQEntry>)
      requires IsRun(config, states, events) && states[|events|] == before
      requires Known(before.queue, before.entries) && Enabled(before, e)
      requires config.Valid()
      requires forall i | 0 <= i < |dlqEvents| :: dlqEvents[i] in known
      requires forall j | 0 <= j < |pending| :: pending[j].1 in known
      requires View().(clock := e.now) == Step(config, before, e)
      modifies this`events, this`states, this`clock
      ensures Valid() && events == old(events) + [e]
      ensures View() == Step(config, before, e)
    {
      RunSnoc(config, states, events, e);
      clock := e.now;
      ghost var after := Step(config, before, e);
      assert View() == after;
      hide IsRun, Step;
      events, states := events + [e], states + [after];
    }

    method SendToDlq(event: string, now: real) returns (entry: DLQEntry)
      requires Valid() && now >= clock
      modifies this
      ensures Valid() && fresh(entry) && entry.event == event
      ensures events == old(events) + [Send(entry, now)] && View() == Step(config, old(View()), Send(entry, now))
    {
      hide IsRun, Due, Young, Settling;
      ghost var before := View();
      EvictOldest();
      entry := new DLQEntry(event, now);
      dlqEvents := dlqEvents + [entry];
      eventsReceived := eventsReceived + 1;
      known := known + {entry};
      assert Entries() == before.entries[entry := Entry(now, 0, now)];
      Log(before, Send(entry, now));
    }

    /** Makes room for one more entry. */
    method EvictOldest()
      requires config.Valid()
      modifies this`dlqEvents, this`evicted
      ensures dlqEvents == if |old(dlqEvents)| >= config.maxSize then RemoveAt(old(dlqEvents), 0) else old(dlqEvents)
      ensures evicted == old(evicted) + (|old(dlqEvents)| - |dlqEvents|)
      ensures Entries() == old(Entries())
    {
      if |dlqEvents| >= config.maxSize {
        dlqEvents := dlqEvents[1..];
        evicted := evicted + 1;
      }
    }

    /** `_process_retries` under the lock: the due entries with their positions. */
    method CollectRetries(now: real) returns (due: seq<(nat, DLQEntry)>)
      requires Valid() && now >= clock && pending == []
      modifies this
      ensures Valid() && pending == due
      ensures events == old(events) + [StartPass(now)] && View() == Step(config, old(View()), StartPass(now))
    {
      hide IsRun, Due;
      ghost var before := View();
      due := DueEntries(now);
      pending := due;
      Log(before, StartPass(now));
    }

    method DueEntries(now: real) returns (due: seq<(nat, DLQEntry)>)
      requires forall i | 0 <= i < |dlqEvents| :: dlqEvents[i] in known
      ensures due == Due(config, dlqEvents, Entries(), now, |dlqEvents|)
      ensures forall j | 0 <= j < |due| ::
                && due[j].0 < |dlqEvents| && dlqEvents[due[j].0] == due[j].1
                && now >= due[j].1.nextRetry && due[j].1.retryCount < config.maxRetries
      ensures forall i | 0 <= i < |dlqEvents| ::
                now >= dlqEvents[i].nextRetry && dlqEvents[i].retryCount < config.maxRetries ==> (i, dlqEvents[i]) in due
    {
      due := [];
      for i := 0 to |dlqEvents|
        invariant due == Due(config, dlqEvents, Entries(), now, i)
      {
        var entry := dlqEvents[i];
        if now >= entry.nextRetry && entry.retryCount < config.maxRetries {
          due := due + [(i, entry)];
        }
      }
    }

    /** `_retry_event` after the publication, whose result is given. */
    method RetryEvent(index: nat, entry: DLQEntry, result: Result, now: real)
      requires Valid() && now >= clock && pending != [] && pending[0] == (index, entry)
      modifies this, entry`retryCount, entry`nextRetry
      ensures Valid()
      ensures events == old(events) + [Settle(result, now)] && View() == Step(config, old(View()), Settle(result, now))
    {
      hide NextRetry, IsRun;
      ghost var before := View();
      match result {
        case Published => RemovePublished(index);
        case Refused => CountRefusal(index, entry, now);
        case Raised =>
      }
      pending := pending[1..];
      Log(before, Settle(result, now));
    }

    method RemovePublished(index: nat)
      modifies this`dlqEvents, this`popped, this`eventsProcessed
      ensures dlqEvents == RemoveAt(old(dlqEvents), index)
      ensures popped == old(popped) + (|old(dlqEvents)| - |dlqEvents|) && eventsProcessed == old(eventsProcessed) + 1
      ensures Entries() == old(Entries())
    {
      if index < |dlqEvents| {
        dlqEvents := dlqEvents[..index] + dlqEvents[index + 1..];
        popped := popped + 1;
      }
      eventsProcessed := eventsProcessed + 1;
    }

    method CountRefusal(index: nat, entry: DLQEntry, now: real)
      requires entry in known
      modifies this`eventsRetried, entry`retryCount, entry`nextRetry
      ensures eventsRetried == old(eventsRetried) + 1
      ensures Entries() == if index >= |dlqEvents| then old(Entries()) else
                             old(Entries())[entry := Entry(entry.timestamp, old(entry.retryCount) + 1,
                                                           NextRetry(config, old(entry.retryCount) + 1, now))]
    {
      hide NextRetry;
      if index < |dlqEvents| {
        entry.retryCount := entry.retryCount + 1;
        entry.nextRetry := NextRetry(config, entry.retryCount, now);
      }
      eventsRetried := eventsRetried + 1;
    }

    method CleanupExpiredEvents(now: real)
      requires Valid() && now >= clock
      modifies this
      ensures Valid()
      ensures events == old(events) + [Cleanup(now)] && View() == Step(config, old(View()), Cleanup(now))
    {
      hide IsRun, Young;
      ghost var before := View();
      var kept := YoungEntries(now - config.retention);
      eventsExpired := eventsExpired + (|dlqEvents| - |kept|);
      dlqEvents := kept;
      Log(before, Cleanup(now));
    }

    method YoungEntries(cutoff: real) returns (kept: seq<DLQEntry>)
      requires forall i | 0 <= i < |dlqEvents| :: dlqEvents[i] in known
      ensures kept == Young(dlqEvents, Entries(), cutoff)
    {
      kept := [];
      ghost var entries := Entries();
      for i := 0 to |dlqEvents|
        invariant Known(dlqEvents[..i], entries) && kept == Young(dlqEvents[..i], entries, cutoff)
      {
        assert dlqEvents[..i + 1][..i] == dlqEvents[..i];
        if dlqEvents[i].timestamp > cutoff {
          kept := kept + [dlqEvents[i]];
        }
      }
      assert dlqEvents[..|dlqEvents|] == dlqEvents;
    }

    method ClearDlq(now: real) returns (count: nat)
      requires Valid() && now >= clock
      modifies this
      ensures Valid() && count == |old(dlqEvents)|
      ensures events == old(events) + [Clear(now)] && View() == Step(config, old(View()), Clear(now))
    {
      ghost var before := View();
      count := |dlqEvents|;
      dlqEvents := [];
      cleared := cleared + count;
      Log(before, Clear(now));
    }
  }
}
