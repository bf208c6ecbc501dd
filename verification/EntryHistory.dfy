/** The entries of the dead letter queue, read off the history of a run: when an entry is due,
    when it expires, and what the handler's statistics count. */
module EntryHistory {
  import opened DeadLetters
  import opened Powers
  import opened Wrappers

  /** The pass has tried to publish the entry, was refused, and finds its position in range. */
  predicate Refuses<Id(==)>(s: State<Id>, e: Event<Id>, id: Id) {
    e.Settle? && e.result.Refused? && s.pending != [] && s.pending[0].1 == id && s.pending[0].0 < |s.queue|
  }

  /** How often that has happened before event `k` ... */
  function Refusals<Id(==)>(ss: seq<State<Id>>, es: seq<Event<Id>>, id: Id, k: nat): nat
    requires k <= |es| <= |ss|
  {
    if k == 0 then 0 else Refusals(ss, es, id, k - 1) + if Refuses(ss[k - 1], es[k - 1], id) then 1 else 0
  }

  /** ... and when it last did. */
  function LastRefusal<Id(==)>(ss: seq<State<Id>>, es: seq<Event<Id>>, id: Id, k: nat): Option<real>
    requires k <= |es| <= |ss|
  {
    if k == 0 then None
    else if Refuses(ss[k - 1], es[k - 1], id) then Some(es[k - 1].now)
    else LastRefusal(ss, es, id, k - 1)
  }

  /** When the entry was sent. */
  function SentAt<Id(==)>(es: seq<Event<Id>>, id: Id, k: nat): Option<real>
    requires k <= |es|
  {
    if k == 0 then None
    else if es[k - 1].Send? && es[k - 1].id == id then Some(es[k - 1].now)
    else SentAt(es, id, k - 1)
  }

  /** How long after its n-th refusal an entry is due again. */
  function DelayAfter(c: Config, n: nat): real {
    c.retryDelay * Power(c.multiplier, n)
  }

  /** The first delay is one multiplier longer than retry_delay, and each further refusal
      multiplies the delay by the multiplier. */
  lemma DelaysMultiply(c: Config, n: nat)
    ensures DelayAfter(c, 1) == c.retryDelay * c.multiplier
    ensures DelayAfter(c, n + 1) == DelayAfter(c, n) * c.multiplier
  {
    PowerAdds(c.multiplier, n, 1);
    Regroup(c.retryDelay, Power(c.multiplier, n), c.multiplier);
  }

  /** The fields of an entry, as the history makes them. */
  predicate IsEntryOf<Id(==)>(c: Config, ss: seq<State<Id>>, es: seq<Event<Id>>, id: Id, k: nat, e: Entry)
    requires k <= |es| <= |ss|
  {
    var sent, n, last := SentAt(es, id, k), Refusals(ss, es, id, k), LastRefusal(ss, es, id, k);
    && sent == Some(e.timestamp) && e.retryCount == n
    && (n == 0 <==> last.None?)
    && e.nextRetry == if last.None? then e.timestamp else last.value + DelayAfter(c, n)
  }

  lemma StepChangesEntry<Id>(c: Config, s: State<Id>, e: Event<Id>, id: Id)
    requires Known(s.queue, s.entries) && Enabled(s, e) && RetriesBounded(c, s)
    ensures var s' := Step(c, s, e);
            && (id in s'.entries <==> id in s.entries || (e.Send? && e.id == id))
            && (e.Send? && e.id == id ==> id !in s.entries && s'.entries[id] == Entry(e.now, 0, e.now))
            && (id in s.entries ==>
                  s'.entries[id] == if !Refuses(s, e, id) then s.entries[id]
                                    else var n := s.entries[id].retryCount + 1;
                                         Entry(s.entries[id].timestamp, n, e.now + DelayAfter(c, n)))
    ensures Refuses(s, e, id) ==> id in s.entries
  {
    hide Power;
  }

  lemma IsEntryStep<Id>(c: Config, ss: seq<State<Id>>, es: seq<Event<Id>>, id: Id, k: nat, e: Entry, e': Entry)
    requires k < |es| < |ss| && IsEntryOf(c, ss, es, id, k, e)
    requires !(es[k].Send? && es[k].id == id)
    requires e' == if !Refuses(ss[k], es[k], id) then e
                   else Entry(e.timestamp, e.retryCount + 1, es[k].now + DelayAfter(c, e.retryCount + 1))
    ensures IsEntryOf(c, ss, es, id, k + 1, e')
  {
    hide Refuses, DelayAfter;
  }

  /** Every entry is what the history makes it. */
  lemma {:induction false} EntryIsHistory<Id>(c: Config, ss: seq<State<Id>>, es: seq<Event<Id>>, id: Id, k: nat)
    requires c.Valid() && IsRun(c, ss, es) && k <= |es|
    ensures |es| < |ss| && (id in ss[k].entries <==> SentAt(es, id, k).Some?)
    ensures id in ss[k].entries ==> IsEntryOf(c, ss, es, id, k, ss[k].entries[id])
    ensures id !in ss[k].entries ==> Refusals(ss, es, id, k) == 0 && LastRefusal(ss, es, id, k) == None
  {
    hide Step, Enabled, Known, Queued, Counted, RetriesBounded, DelayAfter, Refuses;
    if k > 0 {
      EntryIsHistory(c, ss, es, id, k - 1);
      AlwaysSound(c, ss, es, k - 1);
      RunStep(c, ss, es, k - 1);
      hide IsRun;
      var s, e := ss[k - 1], es[k - 1];
      StepChangesEntry(c, s, e, id);
      if id in s.entries {
        IsEntryStep(c, ss, es, id, k - 1, s.entries[id], ss[k].entries[id]);
      }
    }
  }

  predicate IsPending<Id(==)>(pending: seq<(nat, Id)>, id: Id) {
    exists j | 0 <= j < |pending| :: pending[j].1 == id
  }

  lemma DueIff<Id>(c: Config, queue: seq<Id>, entries: map<Id, Entry>, now: real, id: Id)
    requires Known(queue, entries)
    ensures id in queue ==> id in entries
    ensures IsPending(Due(c, queue, entries, now, |queue|), id) <==> id in queue && IsDue(c, entries[id], now)
  {
    hide IsDue;
    var due := Due(c, queue, entries, now, |queue|);
    if IsPending(due, id) {
      var j :| 0 <= j < |due| && due[j].1 == id;
      assert queue[due[j].0] == id;
    }
    if id in queue && IsDue(c, entries[id], now) {
      var i :| 0 <= i < |queue| && queue[i] == id;
      assert (i, queue[i]) in due;
    }
  }

  lemma StepCollects<Id>(c: Config, s: State<Id>, e: Event<Id>)
    requires Known(s.queue, s.entries) && Enabled(s, e) && e.StartPass?
    ensures Step(c, s, e).pending == Due(c, s.queue, s.entries, e.now, |s.queue|)
  {
  }

  lemma NotInTheFuture<Id>(c: Config, s: State<Id>, id: Id)
    requires Queued(c, s) && id in s.queue
    ensures id in s.entries && s.entries[id].timestamp <= s.clock
  {
  }

  /** In every interleaving, a pass at `now` collects an entry if and only if it is queued,
      has been refused fewer than max_retry_attempts times, and its delay since the last
      refusal is over. */
  lemma CollectedIff<Id>(c: Config, ss: seq<State<Id>>, es: seq<Event<Id>>, id: Id, k: nat)
    requires c.Valid() && IsRun(c, ss, es) && k < |es| && es[k].StartPass?
    ensures |es| < |ss|
    ensures var n, last := Refusals(ss, es, id, k), LastRefusal(ss, es, id, k);
            IsPending(ss[k + 1].pending, id) <==>
              && id in ss[k].queue && n < c.maxRetries
              && (last.Some? ==> es[k].now >= last.value + c.retryDelay * Power(c.multiplier, n))
  {
    hide IsRun, Step, Known, Queued, Counted, RetriesBounded, Due, IsPending, Power;
    EntryIsHistory(c, ss, es, id, k);
    AlwaysSound(c, ss, es, k);
    RunStep(c, ss, es, k);
    var s := ss[k];
    StepCollects(c, s, es[k]);
    DueIff(c, s.queue, s.entries, es[k].now, id);
    if id in s.queue {
      NotInTheFuture(c, s, id);
    }
  }

  lemma StepCleans<Id>(c: Config, s: State<Id>, e: Event<Id>, id: Id)
    requires Queued(c, s) && Enabled(s, e) && e.Cleanup? && id in s.queue
    ensures id in s.entries
    ensures id in Step(c, s, e).queue <==> s.entries[id].timestamp > e.now - c.retention
  {
    var cutoff := e.now - c.retention;
    var n := CleanupDropsAPrefix(s.queue, s.entries, cutoff, s.clock);
    assert Step(c, s, e).queue == s.queue[n..];
    hide *;
    assert id in s.queue[n..] <==> s.entries[id].timestamp > cutoff by {
      KeptAreYounger(s.queue, s.entries, cutoff, n, id);
    }
  }

  lemma KeptAreYounger<Id>(queue: seq<Id>, entries: map<Id, Entry>, cutoff: real, n: nat, id: Id)
    requires Known(queue, entries) && n <= |queue| && id in queue
    requires forall i | 0 <= i < |queue| :: i < n <==> entries[queue[i]].timestamp <= cutoff
    ensures id in entries && (id in queue[n..] <==> entries[id].timestamp > cutoff)
  {
    var i :| 0 <= i < |queue| && queue[i] == id;
    if i >= n {
      assert queue[n..][i - n] == id;
    }
  }

  lemma StepSends<Id>(c: Config, s: State<Id>, e: Event<Id>)
    requires c.Valid() && Queued(c, s) && Enabled(s, e) && e.Send?
    ensures Step(c, s, e).queue == s.queue[if |s.queue| == c.maxSize then 1 else 0..] + [e.id]
    ensures NoRepeats(s.queue) && e.id !in s.queue
  {
  }

  lemma OldestIsEvicted<Id>(queue: seq<Id>, d: nat, id: Id, i: nat)
    requires NoRepeats(queue) && d <= 1 && i < |queue| && id !in queue
    ensures queue[i] in queue[d..] + [id] <==> i >= d
  {
    if i >= d {
      assert (queue[d..] + [id])[i - d] == queue[i];
    }
  }

  lemma StepRemoves<Id>(c: Config, s: State<Id>, e: Event<Id>, i: nat)
    requires Queued(c, s) && Enabled(s, e) && !e.Send? && !e.Cleanup? && i < |s.queue|
    ensures s.queue[i] in Step(c, s, e).queue <==>
              !e.Clear? && !(e.Settle? && e.result.Published? && s.pending[0].0 == i)
  {
    var q, id, q' := s.queue, s.queue[i], Step(c, s, e).queue;
    if e.Settle? && e.result.Published? {
      var index := s.pending[0].0;
      assert q' == RemoveAt(q, index);
      hide Step, Enabled, Timely, RemoveAt;
      RemovedIff(q, index, i);
    }
  }

  lemma RemovedIff<Id>(queue: seq<Id>, index: nat, i: nat)
    requires NoRepeats(queue) && i < |queue|
    ensures queue[i] in RemoveAt(queue, index) <==> i != index
  {
    var r := RemoveAt(queue, index);
    if i != index {
      assert r[if index < i then i - 1 else i] == queue[i];
    } else {
      forall j | 0 <= j < |r| ensures r[j] != queue[i] {
        assert r[j] == queue[if j < index then j else j + 1];
      }
    }
  }

  /** What takes the entry at position `i` out of the queue: an arrival that finds the queue
      full, if the entry is the oldest; a publication whose entry was collected at `i`; a
      cleanup, if the entry was sent no later than `now - retention`; and clear_dlq. */
  predicate Removes<Id(==)>(c: Config, ss: seq<State<Id>>, es: seq<Event<Id>>, k: nat, i: nat)
    requires k < |es| < |ss| && i < |ss[k].queue|
  {
    match es[k]
    case Send(_, _) => i == 0 && |ss[k].queue| == c.maxSize
    case StartPass(_) => false
    case Settle(result, _) => result.Published? && ss[k].pending != [] && ss[k].pending[0].0 == i
    case Cleanup(now) => var sent := SentAt(es, ss[k].queue[i], k); sent.Some? && sent.value <= now - c.retention
    case Clear(_) => true
  }

  /** In every interleaving, a queued entry leaves the queue at exactly these events, and an
      entry that is sent becomes the last of the queue. */
  lemma LeavesIff<Id>(c: Config, ss: seq<State<Id>>, es: seq<Event<Id>>, k: nat, i: nat)
    requires c.Valid() && IsRun(c, ss, es) && k < |es| && k < |ss| && i < |ss[k].queue|
    ensures |es| < |ss|
    ensures ss[k].queue[i] !in ss[k + 1].queue <==> Removes(c, ss, es, k, i)
    ensures es[k].Send? ==> |ss[k + 1].queue| > 0 && ss[k + 1].queue[|ss[k + 1].queue| - 1] == es[k].id
  {
    hide IsRun, Step, Known, Queued, Counted, RetriesBounded, NoRepeats;
    AlwaysSound(c, ss, es, k);
    RunStep(c, ss, es, k);
    var s, e := ss[k], es[k];
    if e.Send? {
      StepSends(c, s, e);
      OldestIsEvicted(s.queue, if |s.queue| == c.maxSize then 1 else 0, e.id, i);
    } else if e.Cleanup? {
      EntryIsHistory(c, ss, es, s.queue[i], k);
      StepCleans(c, s, e, s.queue[i]);
    } else {
      StepRemoves(c, s, e, i);
    }
  }

  // ---- The statistics ----

  datatype Stat = Received | Processed | Retried | Expired | Evicted | Popped | Cleared

  function Value(t: Tally, stat: Stat): nat {
    match stat
    case Received => t.received
    case Processed => t.processed
    case Retried => t.retried
    case Expired => t.expired
    case Evicted => t.evicted
    case Popped => t.popped
    case Cleared => t.cleared
  }

  /** What event `e`, which leads from the queue `q` to `q'`, adds to a statistic. */
  function Amount<Id>(q: seq<Id>, e: Event<Id>, q': seq<Id>, stat: Stat): int {
    match stat
    case Received => if e.Send? then 1 else 0
    case Processed => if e.Settle? && e.result.Published? then 1 else 0
    case Retried => if e.Settle? && e.result.Refused? then 1 else 0
    case Expired => if e.Cleanup? then |q| - |q'| else 0
    case Evicted => if e.Send? then |q| + 1 - |q'| else 0
    case Popped => if e.Settle? then |q| - |q'| else 0
    case Cleared => if e.Clear? then |q| else 0
  }

  function Sum<Id>(ss: seq<State<Id>>, es: seq<Event<Id>>, stat: Stat, k: nat): int
    requires k <= |es| < |ss|
  {
    if k == 0 then 0
    else Sum(ss, es, stat, k - 1) + Amount(ss[k - 1].queue, es[k - 1], ss[k].queue, stat)
  }

  lemma StepCounts<Id>(c: Config, s: State<Id>, e: Event<Id>, stat: Stat)
    requires Known(s.queue, s.entries) && Enabled(s, e)
    ensures var s' := Step(c, s, e);
            Value(s'.tally, stat) == Value(s.tally, stat) + Amount(s.queue, e, s'.queue, stat)
  {
    hide Due, Young, NextRetry;
  }

  /** Each statistic is the number of the sends, publications, refusals or entries removed
      that it is named after. */
  lemma {:induction false} StatsAreHistory<Id>(c: Config, ss: seq<State<Id>>, es: seq<Event<Id>>, stat: Stat, k: nat)
    requires IsRun(c, ss, es) && k <= |es|
    ensures |es| < |ss| && Value(ss[k].tally, stat) == Sum(ss, es, stat, k)
  {
    hide Step, Known, Enabled, Amount;
    if k > 0 {
      StatsAreHistory(c, ss, es, stat, k - 1);
      RunStep(c, ss, es, k - 1);
      StepCounts(c, ss[k - 1], es[k - 1], stat);
    }
  }
}
