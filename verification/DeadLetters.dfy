/** The dead letter queue as a transition system.

    Senders, the retry task, the cleanup task and clear_dlq take turns at the queue; the
    retry task publishes outside the lock, so anything can happen between the moment it
    collects the due entries and the moment it settles each of them.  `Id` identifies an
    entry: retries change an entry in place, and a pass may hold one that is gone. */
module DeadLetters {
  import opened Powers

  datatype Config = Config(maxRetries: nat, retryDelay: real, multiplier: real, maxSize: nat, retention: real) {
    predicate Valid() {
      maxSize >= 1
    }
  }

  datatype Entry = Entry(timestamp: real, retryCount: nat, nextRetry: real)

  /** The first four are the handler's statistics; the others are what they leave out. */
  datatype Tally = Tally(
    received: nat, processed: nat, retried: nat, expired: nat,
    evicted: nat, popped: nat, cleared: nat)

  datatype State<Id> = State(
    queue: seq<Id>, entries: map<Id, Entry>, pending: seq<(nat, Id)>, tally: Tally, clock: real)

  function Init<Id>(): State<Id> {
    State([], map[], [], Tally(0, 0, 0, 0, 0, 0, 0), 0.0)
  }

  datatype Result = Published | Refused | Raised

  datatype Event<Id> =
    | Send(id: Id, now: real)
    | StartPass(now: real)
    | Settle(result: Result, now: real)
    | Cleanup(now: real)
    | Clear(now: real)

  predicate Enabled<Id(==)>(s: State<Id>, e: Event<Id>) {
    && e.now >= s.clock
    && (e.Send? ==> e.id !in s.entries)
    && (e.StartPass? ==> s.pending == [])
    && (e.Settle? ==> s.pending != [])
  }

  /** When an entry refused at `now` for the `count`-th time is due again. */
  function NextRetry(c: Config, count: nat, now: real): real {
    now + c.retryDelay * Power(c.multiplier, count)
  }

  function RemoveAt<T>(s: seq<T>, i: nat): seq<T> {
    if i < |s| then s[..i] + s[i + 1..] else s
  }

  predicate Known<Id(==)>(queue: seq<Id>, entries: map<Id, Entry>) {
    forall i | 0 <= i < |queue| :: queue[i] in entries
  }

  predicate IsDue(c: Config, e: Entry, now: real) {
    now >= e.nextRetry && e.retryCount < c.maxRetries
  }

  /** The entries among the first `n` that are due and have retries left, with their positions. */
  function Due<Id(==)>(c: Config, queue: seq<Id>, entries: map<Id, Entry>, now: real, n: nat): (r: seq<(nat, Id)>)
    requires n <= |queue| && Known(queue, entries)
    ensures forall j | 0 <= j < |r| ::
              r[j].0 < n && queue[r[j].0] == r[j].1 && IsDue(c, entries[r[j].1], now)
    ensures forall i | 0 <= i < n && IsDue(c, entries[queue[i]], now) :: (i, queue[i]) in r
    ensures forall j, l | 0 <= j < l < |r| :: r[j].0 < r[l].0
  {
    if n == 0 then [] else
      var r := Due(c, queue, entries, now, n - 1);
      var e := entries[queue[n - 1]];
      if IsDue(c, e, now) then r + [(n - 1, queue[n - 1])] else r
  }

  /** The entries younger than `cutoff`. */
  function Young<Id(==)>(queue: seq<Id>, entries: map<Id, Entry>, cutoff: real): (r: seq<Id>)
    requires Known(queue, entries)
    ensures |r| <= |queue| && Known(r, entries)
  {
    if queue == [] then [] else
      var front, last := queue[..|queue| - 1], queue[|queue| - 1];
      var r := Young(front, entries, cutoff);
      if entries[last].timestamp > cutoff then r + [last] else r
  }

  function Sending<Id>(c: Config, s: State<Id>, id: Id, now: real): State<Id> {
    var t := s.tally;
    var full := |s.queue| >= c.maxSize;
    var queue := if full then RemoveAt(s.queue, 0) else s.queue;
    s.(queue := queue + [id],
       entries := s.entries[id := Entry(now, 0, now)],
       tally := t.(received := t.received + 1, evicted := t.evicted + (|s.queue| - |queue|)))
  }

  /** What the pass does with the entry it has just tried to publish.  The index is the
      position the entry had when the pass began. */
  function Settling<Id>(c: Config, s: State<Id>, result: Result, now: real): State<Id>
    requires s.pending != []
  {
    var t, (index, id) := s.tally, s.pending[0];
    var s := s.(pending := s.pending[1..]);
    match result
    case Published =>
      var queue := RemoveAt(s.queue, index);
      s.(queue := queue, tally := t.(processed := t.processed + 1, popped := t.popped + (|s.queue| - |queue|)))
    case Refused =>
      var s := s.(tally := t.(retried := t.retried + 1));
      if index < |s.queue| && id in s.entries then
        var e := s.entries[id];
        s.(entries := s.entries[id := Entry(e.timestamp, e.retryCount + 1, NextRetry(c, e.retryCount + 1, now))])
      else s
    case Raised => s
  }

  function Step<Id>(c: Config, s: State<Id>, e: Event<Id>): State<Id>
    requires Known(s.queue, s.entries) && Enabled(s, e)
  {
    var t := s.tally;
    var s' :=
      match e
      case Send(id, now) => Sending(c, s, id, now)
      case StartPass(now) => s.(pending := Due(c, s.queue, s.entries, now, |s.queue|))
      case Settle(result, now) => Settling(c, s, result, now)
      case Cleanup(now) =>
        var queue := Young(s.queue, s.entries, now - c.retention);
        s.(queue := queue, tally := t.(expired := t.expired + (|s.queue| - |queue|)))
      case Clear(_) => s.(queue := [], tally := t.(cleared := t.cleared + |s.queue|));
    s'.(clock := e.now)
  }

  ghost predicate IsRun<Id>(c: Config, ss: seq<State<Id>>, es: seq<Event<Id>>) {
    && |ss| == |es| + 1
    && ss[0] == Init()
    && (forall k {:trigger es[k]} | 0 <= k < |es| ::
          && Known(ss[k].queue, ss[k].entries) && Enabled(ss[k], es[k])
          && ss[k + 1] == Step(c, ss[k], es[k]))
  }

  lemma RunStep<Id>(c: Config, ss: seq<State<Id>>, es: seq<Event<Id>>, k: nat)
    requires IsRun(c, ss, es) && k < |es|
    ensures |ss| == |es| + 1 && Known(ss[k].queue, ss[k].entries) && Enabled(ss[k], es[k])
    ensures ss[k + 1] == Step(c, ss[k], es[k])
  {
    hide Known, Enabled, Step;
    var e := es[k];
  }

  lemma RunSnoc<Id>(c: Config, ss: seq<State<Id>>, es: seq<Event<Id>>, e: Event<Id>)
    requires IsRun(c, ss, es) && Known(ss[|es|].queue, ss[|es|].entries) && Enabled(ss[|es|], e)
    ensures IsRun(c, ss + [Step(c, ss[|es|], e)], es + [e])
  {
    hide Step, Enabled, Known;
    var longer, events := ss + [Step(c, ss[|es|], e)], es + [e];
    forall k | 0 <= k < |events|
      ensures Known(longer[k].queue, longer[k].entries) && Enabled(longer[k], events[k])
      ensures longer[k + 1] == Step(c, longer[k], events[k])
    {
      assert longer[k] == ss[k] && (k < |es| ==> events[k] == es[k] && longer[k + 1] == ss[k + 1]);
    }
  }

  // ---- What every interleaving keeps ----

  predicate NoRepeats<T(==)>(s: seq<T>) {
    forall i, j | 0 <= i < j < |s| :: s[i] != s[j]
  }

  predicate Ids<Id>(pending: seq<(nat, Id)>, entries: map<Id, Entry>, bound: nat) {
    forall j | 0 <= j < |pending| :: pending[j].1 in entries && entries[pending[j].1].retryCount < bound
  }

  predicate DistinctPending<Id(==)>(pending: seq<(nat, Id)>) {
    forall j, l | 0 <= j < l < |pending| :: pending[j].1 != pending[l].1
  }

  /** In time order, none in the future. */
  predicate Timely<Id(==)>(queue: seq<Id>, entries: map<Id, Entry>, clock: real)
    requires Known(queue, entries)
  {
    && (forall i, j | 0 <= i <= j < |queue| :: entries[queue[i]].timestamp <= entries[queue[j]].timestamp)
    && (forall i | 0 <= i < |queue| :: entries[queue[i]].timestamp <= clock)
  }

  predicate Queued<Id(==)>(c: Config, s: State<Id>) {
    && Known(s.queue, s.entries) && NoRepeats(s.queue)
    && |s.queue| <= c.maxSize
    && Timely(s.queue, s.entries, s.clock)
  }

  predicate Counted<Id(==)>(s: State<Id>) {
    var t := s.tally;
    t.received == |s.queue| + t.evicted + t.popped + t.expired + t.cleared && t.popped <= t.processed
  }

  predicate RetriesBounded<Id(==)>(c: Config, s: State<Id>) {
    && (forall id | id in s.entries :: s.entries[id].retryCount <= c.maxRetries)
    && Ids(s.pending, s.entries, c.maxRetries)
    && DistinctPending(s.pending)
  }

  lemma RemoveAtKeeps<Id>(queue: seq<Id>, i: nat, entries: map<Id, Entry>, clock: real)
    requires Known(queue, entries) && NoRepeats(queue) && Timely(queue, entries, clock)
    ensures var r := RemoveAt(queue, i);
            |queue| - 1 <= |r| <= |queue| && Known(r, entries) && NoRepeats(r) && Timely(r, entries, clock)
  {
    var r := RemoveAt(queue, i);
    forall j | 0 <= j < |r| ensures r[j] == queue[if i < |queue| && i <= j then j + 1 else j] {
    }
    hide RemoveAt;
  }

  lemma DropKeeps<Id>(queue: seq<Id>, n: nat, entries: map<Id, Entry>, clock: real)
    requires n <= |queue| && Known(queue, entries) && NoRepeats(queue) && Timely(queue, entries, clock)
    ensures var r := queue[n..];
            Known(r, entries) && NoRepeats(r) && Timely(r, entries, clock)
  {
  }

  lemma LaterKeeps<Id>(queue: seq<Id>, entries: map<Id, Entry>, clock: real, now: real)
    requires Known(queue, entries) && Timely(queue, entries, clock) && now >= clock
    ensures Timely(queue, entries, now)
  {
  }

  /** In a queue in time order, the entries that are too old are a prefix. */
  lemma {:induction false} CleanupDropsAPrefix<Id>(queue: seq<Id>, entries: map<Id, Entry>, cutoff: real, clock: real)
    returns (n: nat)
    requires Known(queue, entries) && Timely(queue, entries, clock)
    ensures n <= |queue| && Young(queue, entries, cutoff) == queue[n..]
    ensures forall i | 0 <= i < |queue| :: i < n <==> entries[queue[i]].timestamp <= cutoff
  {
    if queue == [] {
      n := 0;
    } else {
      var front, last := queue[..|queue| - 1], queue[|queue| - 1];
      assert Known(front, entries) && Timely(front, entries, clock);
      n := CleanupDropsAPrefix(front, entries, cutoff, clock);
      if n < |front| {
        NoneIsYounger(queue, entries, clock, n);
        assert front[n] == queue[n];
      }
      hide Timely;
      YoungStep(queue, entries, cutoff);
      if entries[last].timestamp <= cutoff {
        assert front[n..] == [] == queue[|queue|..];
        n := |queue|;
      } else {
        assert front[n..] + [last] == queue[n..];
      }
      forall i | 0 <= i < |queue| ensures i < n <==> entries[queue[i]].timestamp <= cutoff {
        if i < |front| {
          assert front[i] == queue[i];
        }
      }
    }
  }

  lemma NoneIsYounger<Id>(queue: seq<Id>, entries: map<Id, Entry>, clock: real, i: nat)
    requires Known(queue, entries) && Timely(queue, entries, clock) && i < |queue|
    ensures entries[queue[i]].timestamp <= entries[queue[|queue| - 1]].timestamp
  {
  }

  lemma YoungStep<Id>(queue: seq<Id>, entries: map<Id, Entry>, cutoff: real)
    requires queue != [] && Known(queue, entries)
    ensures var front, last := queue[..|queue| - 1], queue[|queue| - 1];
            && Known(front, entries)
            && Young(queue, entries, cutoff)
            == Young(front, entries, cutoff) + if entries[last].timestamp > cutoff then [last] else []
  {
  }

  lemma SendKeepsQueue<Id>(c: Config, s: State<Id>, id: Id, now: real)
    requires c.Valid() && Queued(c, s) && Counted(s) && now >= s.clock && id !in s.entries
    ensures var s' := Sending(c, s, id, now).(clock := now);
            Queued(c, s') && Counted(s')
  {
    var queue := if |s.queue| >= c.maxSize then RemoveAt(s.queue, 0) else s.queue;
    RemoveAtKeeps(s.queue, 0, s.entries, s.clock);
    assert |queue| < c.maxSize && Known(queue, s.entries) && NoRepeats(queue) && Timely(queue, s.entries, s.clock);
    hide RemoveAt;
    AppendKeeps(queue, id, s.entries, s.clock, now);
    hide Known, NoRepeats, Timely;
  }

  lemma AppendKeeps<Id>(queue: seq<Id>, id: Id, entries: map<Id, Entry>, clock: real, now: real)
    requires Known(queue, entries) && NoRepeats(queue) && Timely(queue, entries, clock)
    requires id !in entries && now >= clock
    ensures var longer, more := queue + [id], entries[id := Entry(now, 0, now)];
            Known(longer, more) && NoRepeats(longer) && Timely(longer, more, now)
  {
    var longer, more := queue + [id], entries[id := Entry(now, 0, now)];
    forall i | 0 <= i < |queue| ensures longer[i] in entries && longer[i] != id && more[longer[i]] == entries[queue[i]] {
    }
  }

  lemma SettleKeepsQueue<Id>(c: Config, s: State<Id>, result: Result, now: real)
    requires Queued(c, s) && Counted(s) && now >= s.clock && s.pending != []
    ensures var s' := Settling(c, s, result, now).(clock := now);
            Queued(c, s') && Counted(s')
  {
    hide RemoveAt, NextRetry, NoRepeats;
    var (index, id) := s.pending[0];
    RemoveAtKeeps(s.queue, index, s.entries, s.clock);
    LaterKeeps(s.queue, s.entries, s.clock, now);
    LaterKeeps(RemoveAt(s.queue, index), s.entries, s.clock, now);
  }

  lemma CleanupKeepsQueue<Id>(c: Config, s: State<Id>, now: real)
    requires Queued(c, s) && Counted(s) && now >= s.clock
    ensures var s' := Step(c, s, Cleanup(now));
            Queued(c, s') && Counted(s')
  {
    var n := CleanupDropsAPrefix(s.queue, s.entries, now - c.retention, s.clock);
    DropKeeps(s.queue, n, s.entries, s.clock);
    LaterKeeps(s.queue[n..], s.entries, s.clock, now);
    hide Timely, NoRepeats;
  }

  lemma StepKeepsQueue<Id>(c: Config, s: State<Id>, e: Event<Id>)
    requires c.Valid() && Queued(c, s) && Counted(s) && Enabled(s, e)
    ensures Queued(c, Step(c, s, e)) && Counted(Step(c, s, e))
  {
    match e
    case Send(id, now) =>
      hide Sending, Queued, Counted, Known;
      SendKeepsQueue(c, s, id, now);
    case Settle(result, now) =>
      hide Settling, Queued, Counted, Known;
      SettleKeepsQueue(c, s, result, now);
    case Cleanup(now) =>
      hide Queued, Counted, Known, Step;
      CleanupKeepsQueue(c, s, now);
    case StartPass(_) =>
    case Clear(_) =>
  }

  lemma StepKeepsRetries<Id>(c: Config, s: State<Id>, e: Event<Id>)
    requires Queued(c, s) && RetriesBounded(c, s) && Enabled(s, e)
    ensures RetriesBounded(c, Step(c, s, e))
  {
    if e.StartPass? {
      var due := Due(c, s.queue, s.entries, e.now, |s.queue|);
      forall j, l | 0 <= j < l < |due| ensures due[j].1 != due[l].1 {
        assert s.queue[due[j].0] != s.queue[due[l].0];
      }
    }
  }

  /** In every interleaving the queue respects its bound and its time order, no entry is
      retried more often than allowed, and every event received is still queued or was
      evicted, popped after publication, expired or cleared. */
  lemma {:induction false} AlwaysSound<Id>(c: Config, ss: seq<State<Id>>, es: seq<Event<Id>>, k: nat)
    requires c.Valid() && IsRun(c, ss, es) && k <= |es|
    ensures Queued(c, ss[k]) && Counted(ss[k]) && RetriesBounded(c, ss[k])
  {
    if k > 0 {
      AlwaysSound(c, ss, es, k - 1);
      assert ss[k] == Step(c, ss[k - 1], es[k - 1]);
      StepKeepsQueue(c, ss[k - 1], es[k - 1]);
      StepKeepsRetries(c, ss[k - 1], es[k - 1]);
    }
  }
}
