/** What a retry pass of the dead letter queue removes.

    A pass collects the due entries with their positions and then publishes them one by
    one, popping the position of each published one, whatever stands there by then. */
module RetryPass {
  import opened DeadLetters

  // ---- A pass that nobody interferes with ----

  /** A pass nobody interferes with: the publications of the collected entries, in order. */
  function Drain<Id>(queue: seq<Id>, pending: seq<(nat, Id)>, results: seq<Result>): seq<Id>
    requires |results| == |pending|
  {
    if pending == [] then queue else
      Drain(if results[0].Published? then RemoveAt(queue, pending[0].0) else queue, pending[1..], results[1..])
  }

  predicate Settles<Id>(e: Event<Id>, result: Result) {
    e.Settle? && e.result == result
  }

  /** It is what that many settlements in a row do to the queue. */
  lemma {:induction false} UndisturbedPassDrains<Id>(
    c: Config, ss: seq<State<Id>>, es: seq<Event<Id>>, i: nat, results: seq<Result>)
    requires IsRun(c, ss, es) && i <= |es| && |results| == |ss[i].pending| && i + |results| <= |es|
    requires forall j | 0 <= j < |results| :: Settles(es[i + j], results[j])
    ensures ss[i + |results|].queue == Drain(ss[i].queue, ss[i].pending, results)
    ensures ss[i + |results|].pending == []
    decreases |results|
  {
    if results != [] {
      assert Settles(es[i + 0], results[0]) && ss[i + 1] == Step(c, ss[i], es[i]);
      forall j | 0 <= j < |results[1..]| ensures Settles(es[i + 1 + j], results[1..][j]) {
        assert Settles(es[i + (j + 1)], results[j + 1]);
      }
      UndisturbedPassDrains(c, ss, es, i + 1, results[1..]);
    }
  }

  /** What collecting guarantees: increasing positions, each with its own entry. */
  predicate Located<Id(==)>(queue: seq<Id>, pending: seq<(nat, Id)>) {
    && (forall j | 0 <= j < |pending| :: pending[j].0 < |queue| && queue[pending[j].0] == pending[j].1)
    && (forall j, l | 0 <= j < l < |pending| :: pending[j].0 < pending[l].0)
  }

  function Publications(results: seq<Result>): nat {
    if results == [] then 0 else (if results[0].Published? then 1 else 0) + Publications(results[1..])
  }

  /** The queue without the entries that were published. */
  predicate RemovesExactlyPublished<Id(==)>(
    queue: seq<Id>, pending: seq<(nat, Id)>, results: seq<Result>, after: seq<Id>)
    requires |results| == |pending|
  {
    forall id | id in queue :: id in after <==> !WasPublished(pending, results, id)
  }

  predicate WasPublished<Id(==)>(pending: seq<(nat, Id)>, results: seq<Result>, id: Id)
    requires |results| == |pending|
  {
    exists j | 0 <= j < |pending| :: results[j].Published? && pending[j].1 == id
  }

  lemma WasPublishedStep<Id>(pending: seq<(nat, Id)>, results: seq<Result>, id: Id)
    requires |results| == |pending| > 0
    ensures WasPublished(pending, results, id) <==>
              (results[0].Published? && pending[0].1 == id) || WasPublished(pending[1..], results[1..], id)
  {
    if j :| 0 <= j < |pending| && results[j].Published? && pending[j].1 == id && j > 0 {
      assert results[1..][j - 1].Published? && pending[1..][j - 1].1 == id;
    }
    if j :| 0 <= j < |pending[1..]| && results[1..][j].Published? && pending[1..][j].1 == id {
      assert results[j + 1].Published? && pending[j + 1].1 == id;
    }
  }

  lemma {:induction false} NothingPublished<Id(!new)>(queue: seq<Id>, pending: seq<(nat, Id)>, results: seq<Result>)
    requires |results| == |pending| && Publications(results) == 0
    ensures Drain(queue, pending, results) == queue
    ensures forall id :: !WasPublished(pending, results, id)
  {
    if pending != [] {
      NothingPublished(queue, pending[1..], results[1..]);
      forall id ensures !WasPublished(pending, results, id) {
        WasPublishedStep(pending, results, id);
      }
    }
  }

  /** An entry in front of every position still to be popped stays. */
  lemma {:induction false} EarlierEntriesStay<Id>(queue: seq<Id>, pending: seq<(nat, Id)>, results: seq<Result>, p: nat)
    requires |results| == |pending| && p < |queue|
    requires forall j | 0 <= j < |pending| :: pending[j].0 > p
    ensures queue[p] in Drain(queue, pending, results)
  {
    if pending != [] {
      var next := if results[0].Published? then RemoveAt(queue, pending[0].0) else queue;
      assert next[p] == queue[p];
      EarlierEntriesStay(next, pending[1..], results[1..], p);
    }
  }

  lemma PoppedIsGone<Id>(queue: seq<Id>, i: nat)
    requires i < |queue| && NoRepeats(queue)
    ensures forall id | id in queue :: id in RemoveAt(queue, i) <==> id != queue[i]
  {
    var r := RemoveAt(queue, i);
    forall id | id in queue ensures id in r <==> id != queue[i] {
      var j :| 0 <= j < |queue| && queue[j] == id;
      if j < i {
        assert r[j] == id;
      } else if j > i {
        assert r[j - 1] == id;
      }
    }
  }

  lemma TailIsLocated<Id>(queue: seq<Id>, pending: seq<(nat, Id)>)
    requires Located(queue, pending) && pending != []
    ensures Located(queue, pending[1..])
  {
  }

  /** Two publications are too many: after the first one the positions are off by one, so
      the second published entry stays queued, to be published again. */
  lemma {:induction false} SecondPublishedStays<Id(!new)>(
    queue: seq<Id>, pending: seq<(nat, Id)>, results: seq<Result>, gap: nat)
    returns (id: Id)
    requires |results| == |pending| && NoRepeats(queue) && 1 <= Publications(results) && 1 <= gap
    requires forall j | 0 <= j < |pending| ::
               gap <= pending[j].0 < |queue| + gap && queue[pending[j].0 - gap] == pending[j].1
    requires forall j, l | 0 <= j < l < |pending| :: pending[j].0 < pending[l].0
    ensures id in queue && WasPublished(pending, results, id) && id in Drain(queue, pending, results)
  {
    if results[0].Published? {
      var (index, published) := pending[0];
      id := published;
      WasPublishedStep(pending, results, id);
      var next := RemoveAt(queue, index);
      assert next[index - gap] == id;
      EarlierEntriesStay(next, pending[1..], results[1..], index - gap);
    } else {
      id := SecondPublishedStays(queue, pending[1..], results[1..], gap);
      WasPublishedStep(pending, results, id);
    }
  }

  /** An undisturbed pass removes exactly the entries it published if and only if it
      published at most one. */
  lemma {:induction false} PassIsExactIff<Id(!new)>(queue: seq<Id>, pending: seq<(nat, Id)>, results: seq<Result>)
    requires |results| == |pending| && NoRepeats(queue) && Located(queue, pending)
    ensures RemovesExactlyPublished(queue, pending, results, Drain(queue, pending, results)) <==> Publications(results) <= 1
  {
    hide Drain, Publications;
    DrainStep(queue, pending, results);
    if pending == [] {
    } else if !results[0].Published? {
      TailIsLocated(queue, pending);
      PassIsExactIff(queue, pending[1..], results[1..]);
      forall id | id in queue
        ensures WasPublished(pending, results, id) == WasPublished(pending[1..], results[1..], id)
      {
        WasPublishedStep(pending, results, id);
      }
      hide WasPublished;
    } else if Publications(results[1..]) == 0 {
      OnePublicationIsExact(queue, pending, results);
    } else {
      var next := RemoveAt(queue, pending[0].0);
      assert NoRepeats(next);
      var id := SecondPublishedStays(next, pending[1..], results[1..], 1);
      WasPublishedStep(pending, results, id);
      hide WasPublished, RemoveAt;
      assert id in queue by { RemovedFrom(queue, pending[0].0, id); }
    }
  }

  lemma RemovedFrom<Id>(queue: seq<Id>, i: nat, id: Id)
    requires id in RemoveAt(queue, i)
    ensures id in queue
  {
  }

  lemma DrainStep<Id>(queue: seq<Id>, pending: seq<(nat, Id)>, results: seq<Result>)
    requires |results| == |pending|
    ensures pending == [] ==> Drain(queue, pending, results) == queue && Publications(results) == 0
    ensures pending != [] ==>
              && Drain(queue, pending, results)
              == Drain(if results[0].Published? then RemoveAt(queue, pending[0].0) else queue, pending[1..], results[1..])
              && Publications(results) == (if results[0].Published? then 1 else 0) + Publications(results[1..])
  {
  }

  lemma OnePublicationIsExact<Id(!new)>(queue: seq<Id>, pending: seq<(nat, Id)>, results: seq<Result>)
    requires |results| == |pending| > 0 && NoRepeats(queue) && Located(queue, pending)
    requires results[0].Published? && Publications(results[1..]) == 0
    ensures RemovesExactlyPublished(queue, pending, results, Drain(queue, pending, results))
  {
    hide Drain, Publications, WasPublished;
    var index := pending[0].0;
    var next := RemoveAt(queue, index);
    DrainStep(queue, pending, results);
    PoppedIsGone(queue, index);
    hide RemoveAt;
    NothingPublished(next, pending[1..], results[1..]);
    forall id | id in queue ensures id in next <==> !WasPublished(pending, results, id) {
      WasPublishedStep(pending, results, id);
    }
  }

  /** Where the m-th publication of such a pass hits, in terms of the queue as it was
      collected: each one before it has shifted the queue by one. */
  predicate IsHit<Id>(pending: seq<(nat, Id)>, results: seq<Result>, m: nat, x: nat)
    requires |results| == |pending|
  {
    pending != [] &&
    if results[0].Published? then x == pending[0].0 + m || IsHit(pending[1..], results[1..], m + 1, x)
    else IsHit(pending[1..], results[1..], m, x)
  }

  predicate Increasing<Id>(pending: seq<(nat, Id)>) {
    forall j, l | 0 <= j < l < |pending| :: pending[j].0 < pending[l].0
  }

  lemma {:induction false} HitsShift<Id>(pending: seq<(nat, Id)>, results: seq<Result>, m: nat, x: nat)
    requires |results| == |pending|
    ensures IsHit(pending, results, m + 1, x + 1) == IsHit(pending, results, m, x)
  {
    if pending != [] {
      HitsShift(pending[1..], results[1..], if results[0].Published? then m + 1 else m, x);
    }
  }

  lemma {:induction false} HitsAreLater<Id>(pending: seq<(nat, Id)>, results: seq<Result>, m: nat, x: nat, low: nat)
    requires |results| == |pending| && IsHit(pending, results, m, x)
    requires forall j | 0 <= j < |pending| :: low <= pending[j].0
    ensures low + m <= x
  {
    if !(results[0].Published? && x == pending[0].0 + m) {
      HitsAreLater(pending[1..], results[1..], if results[0].Published? then m + 1 else m, x, low);
    }
  }

  /** Such a pass removes exactly the entries that stood, when it collected, at p + m for
      the m-th publication (counted from 0) of an entry with position p. */
  lemma {:induction false} DrainRemovesTheHits<Id>(queue: seq<Id>, pending: seq<(nat, Id)>, results: seq<Result>, x: nat)
    requires |results| == |pending| && NoRepeats(queue) && Increasing(pending) && x < |queue|
    ensures queue[x] in Drain(queue, pending, results) <==> !IsHit(pending, results, 0, x)
  {
    if pending != [] {
      var rest, more, p := pending[1..], results[1..], pending[0].0;
      assert Increasing(rest) && forall j | 0 <= j < |rest| :: p + 1 <= rest[j].0;
      if !results[0].Published? {
        DrainRemovesTheHits(queue, rest, more, x);
      } else {
        var next := RemoveAt(queue, p);
        assert NoRepeats(next);
        if x < p {
          if IsHit(rest, more, 1, x) { HitsAreLater(rest, more, 1, x, p + 1); }
          if x < |next| {
            DrainRemovesTheHits(next, rest, more, x);
            if IsHit(rest, more, 0, x) { HitsAreLater(rest, more, 0, x, p + 1); }
          }
        } else if x == p {
          DrainOnlyRemoves(next, rest, more);
          PoppedIsGone(queue, p);
        } else {
          HitsShift(rest, more, 0, x - 1);
          DrainRemovesTheHits(next, rest, more, x - 1);
        }
      }
    }
  }

  lemma {:induction false} DrainOnlyRemoves<Id>(queue: seq<Id>, pending: seq<(nat, Id)>, results: seq<Result>)
    requires |results| == |pending|
    ensures forall id | id in Drain(queue, pending, results) :: id in queue
  {
    if pending != [] {
      DrainOnlyRemoves(if results[0].Published? then RemoveAt(queue, pending[0].0) else queue, pending[1..], results[1..]);
    }
  }

  // ---- Passes in every interleaving ----

  /** Event `i` starts a pass and no other pass starts before event `k`. */
  predicate InPass<Id>(es: seq<Event<Id>>, i: nat, k: nat) {
    i < k <= |es| && es[i].StartPass? && forall j | i < j < k :: !es[j].StartPass?
  }

  lemma PassStep<Id>(es: seq<Event<Id>>, i: nat, k: nat)
    requires InPass(es, i, k)
    ensures i < k <= |es|
    ensures if k == i + 1 then es[i].StartPass? else InPass(es, i, k - 1) && !es[k - 1].StartPass?
  {
  }

  /** How many entries have left the queue. */
  function Removed<Id>(s: State<Id>): nat {
    s.tally.evicted + s.tally.popped + s.tally.expired + s.tally.cleared
  }

  /** No collected entry has moved to the right. */
  predicate NoneRight<Id(==)>(q: seq<Id>, queue: seq<Id>) {
    forall l, x | 0 <= l < |queue| && 0 <= x < |q| && queue[l] == q[x] :: l <= x
  }

  /** Every entry left to settle that is still queued stands before its position. */
  predicate Shifted<Id(==)>(queue: seq<Id>, pending: seq<(nat, Id)>) {
    forall l, j | 0 <= l < |queue| && 0 <= j < |pending| && queue[l] == pending[j].1 :: l < pending[j].0
  }

  /** What holds during a pass: `q` is the queue that was collected, `moved` says whether
      anything has left the queue since. */
  predicate Tracks<Id(==)>(q: seq<Id>, queue: seq<Id>, pending: seq<(nat, Id)>, moved: bool) {
    && Located(q, pending) && NoneRight(q, queue)
    && if moved then Shifted(queue, pending) else q <= queue
  }

  /** Taking away the first `n` entries, or the one at the position of the entry that is
      settled. */
  lemma DropTracks<Id>(q: seq<Id>, queue: seq<Id>, pending: seq<(nat, Id)>, moved: bool, n: nat)
    requires Tracks(q, queue, pending, moved) && NoRepeats(queue) && n <= |queue|
    ensures Tracks(q, queue[n..], pending, moved || n > 0)
  {
    var next := queue[n..];
    assert next == queue || n > 0;
    forall l, x | 0 <= l < |next| && 0 <= x < |q| && next[l] == q[x] ensures l <= x {
      assert queue[l + n] == q[x];
    }
    if n > 0 {
      forall l, j | 0 <= l < |next| && 0 <= j < |pending| && next[l] == pending[j].1 ensures l < pending[j].0 {
        assert queue[l + n] == q[pending[j].0];
      }
    }
  }

  lemma PopTracks<Id>(q: seq<Id>, queue: seq<Id>, pending: seq<(nat, Id)>, moved: bool)
    requires Tracks(q, queue, pending, moved) && NoRepeats(queue) && pending != []
    ensures var p := pending[0].0;
            Tracks(q, RemoveAt(queue, p), pending[1..], moved || p < |queue|)
  {
    var p, rest := pending[0].0, pending[1..];
    var next := RemoveAt(queue, p);
    forall l, x | 0 <= l < |next| && 0 <= x < |q| && next[l] == q[x] ensures l <= x {
      assert queue[if p < |queue| && l >= p then l + 1 else l] == q[x];
    }
    if moved || p < |queue| {
      forall l, j | 0 <= l < |next| && 0 <= j < |rest| && next[l] == rest[j].1 ensures l < rest[j].0 {
        assert rest[j] == pending[j + 1] && p < rest[j].0;
        assert queue[if p < |queue| && l >= p then l + 1 else l] == q[rest[j].0];
      }
    }
  }

  lemma AppendTracks<Id>(q: seq<Id>, queue: seq<Id>, pending: seq<(nat, Id)>, moved: bool, id: Id)
    requires Tracks(q, queue, pending, moved) && id !in q
    ensures Tracks(q, queue + [id], pending, moved)
  {
    var next := queue + [id];
    forall l, x | 0 <= l < |next| && 0 <= x < |q| && next[l] == q[x] ensures l <= x {
      assert l < |queue|;
    }
    if moved {
      forall l, j | 0 <= l < |next| && 0 <= j < |pending| && next[l] == pending[j].1 ensures l < pending[j].0 {
        assert pending[j].1 == q[pending[j].0] && l < |queue|;
      }
    }
  }

  /** The collected ids are known, so an entry that is sent later is none of them. */
  predicate AllKnown<Id(==)>(q: seq<Id>, entries: map<Id, Entry>) {
    forall x | 0 <= x < |q| :: q[x] in entries
  }

  lemma StepTracks<Id>(c: Config, q: seq<Id>, s: State<Id>, e: Event<Id>, moved: bool)
    requires c.Valid() && Known(s.queue, s.entries) && Queued(c, s) && Enabled(s, e) && !e.StartPass?
    requires Tracks(q, s.queue, s.pending, moved) && AllKnown(q, s.entries)
    ensures var s' := Step(c, s, e);
            && AllKnown(q, s'.entries) && Removed(s') >= Removed(s)
            && Tracks(q, s'.queue, s'.pending, moved || Removed(s') > Removed(s))
  {
    hide Tracks, Timely, NextRetry, Young;
    match e
    case Send(id, now) =>
      var n := if |s.queue| >= c.maxSize then 1 else 0;
      DropTracks(q, s.queue, s.pending, moved, n);
      assert s.queue[n..] == if n == 1 then RemoveAt(s.queue, 0) else s.queue;
      AppendTracks(q, s.queue[n..], s.pending, moved || n > 0, id);
    case Settle(result, _) =>
      if result.Published? {
        PopTracks(q, s.queue, s.pending, moved);
      } else {
        SettlingTracks(q, s.queue, s.pending, moved);
      }
    case Cleanup(now) =>
      var n := CleanupDropsAPrefix(s.queue, s.entries, now - c.retention, s.clock);
      DropTracks(q, s.queue, s.pending, moved, n);
    case Clear(_) =>
      DropTracks(q, s.queue, s.pending, moved, |s.queue|);
      assert s.queue[|s.queue|..] == [];
  }

  lemma SettlingTracks<Id>(q: seq<Id>, queue: seq<Id>, pending: seq<(nat, Id)>, moved: bool)
    requires Tracks(q, queue, pending, moved) && pending != []
    ensures Tracks(q, queue, pending[1..], moved)
  {
    TailIsLocated(q, pending);
  }

  lemma CollectingTracks<Id>(c: Config, s: State<Id>, now: real)
    requires Known(s.queue, s.entries) && Queued(c, s) && Enabled(s, StartPass(now))
    ensures var s' := Step(c, s, StartPass(now));
            && s'.queue == s.queue && Removed(s') == Removed(s)
            && AllKnown(s.queue, s'.entries) && Tracks(s.queue, s.queue, s'.pending, false)
  {
  }

  /** Throughout a pass. */
  lemma {:induction false} PassTracks<Id>(c: Config, ss: seq<State<Id>>, es: seq<Event<Id>>, i: nat, k: nat)
    requires c.Valid() && IsRun(c, ss, es) && InPass(es, i, k)
    ensures Removed(ss[k]) >= Removed(ss[i]) && AllKnown(ss[i].queue, ss[k].entries)
    ensures Tracks(ss[i].queue, ss[k].queue, ss[k].pending, Removed(ss[k]) > Removed(ss[i]))
  {
    hide *;
    PassStep(es, i, k);
    AlwaysSound(c, ss, es, k - 1);
    RunStep(c, ss, es, k - 1);
    if k == i + 1 {
      assert es[i] == StartPass(es[i].now);
      CollectingTracks(c, ss[i], es[i].now);
    } else {
      PassTracks(c, ss, es, i, k - 1);
      StepTracks(c, ss[i].queue, ss[k - 1], es[k - 1], Removed(ss[k - 1]) > Removed(ss[i]));
    }
  }

  /** The entry to be settled next stands where the pass will look for it. */
  predicate IsInPlace<Id(==)>(s: State<Id>)
    requires s.pending != []
  {
    var (index, id) := s.pending[0];
    index < |s.queue| && s.queue[index] == id
  }

  /** In every interleaving, a settlement finds its entry where it was collected if and
      only if nothing at all has left the queue since the pass began; and that is so if
      and only if the queue up to that position is still what was collected. */
  lemma InPlaceIff<Id>(c: Config, ss: seq<State<Id>>, es: seq<Event<Id>>, i: nat, k: nat)
    requires c.Valid() && IsRun(c, ss, es) && InPass(es, i, k) && ss[k].pending != []
    ensures IsInPlace(ss[k]) <==> Removed(ss[k]) == Removed(ss[i])
    ensures var n := ss[k].pending[0].0 + 1;
            && n <= |ss[i].queue|
            && (IsInPlace(ss[k]) <==> n <= |ss[k].queue| && ss[k].queue[..n] == ss[i].queue[..n])
  {
    PassTracks(c, ss, es, i, k);
    var q, queue, n := ss[i].queue, ss[k].queue, ss[k].pending[0].0 + 1;
    hide IsRun, InPass;
    assert q[n - 1] == ss[k].pending[0].1;
    if Removed(ss[k]) == Removed(ss[i]) {
      assert queue[..n] == q[..n];
    } else if n <= |queue| {
      assert queue[n - 1] == queue[..n][n - 1] && q[n - 1] == q[..n][n - 1];
    }
  }

  predicate IsPublication<Id>(e: Event<Id>) {
    e.Settle? && e.result.Published?
  }

  /** Event `k` publishes the entry `id` ... */
  predicate Publishes<Id(==)>(ss: seq<State<Id>>, es: seq<Event<Id>>, k: nat, id: Id)
    requires k < |es| < |ss|
  {
    IsPublication(es[k]) && ss[k].pending != [] && ss[k].pending[0].1 == id
  }

  /** ... and pops the entry `id`, which need not be the same. */
  predicate Pops<Id(==)>(ss: seq<State<Id>>, es: seq<Event<Id>>, k: nat, id: Id)
    requires k < |es| < |ss|
  {
    IsPublication(es[k]) && ss[k].pending != [] && ss[k].pending[0].0 < |ss[k].queue|
    && ss[k].queue[ss[k].pending[0].0] == id
  }

  predicate IsPublished<Id(==)>(ss: seq<State<Id>>, es: seq<Event<Id>>, i: nat, e: nat, id: Id)
    requires e <= |es| < |ss|
  {
    exists k | i < k < e :: Publishes(ss, es, k, id)
  }

  predicate IsPopped<Id(==)>(ss: seq<State<Id>>, es: seq<Event<Id>>, i: nat, e: nat, id: Id)
    requires e <= |es| < |ss|
  {
    exists k | i < k < e :: Pops(ss, es, k, id)
  }

  /** Up to event `e` the pass has popped exactly the entries it has published. */
  ghost predicate PassIsExact<Id(!new)>(ss: seq<State<Id>>, es: seq<Event<Id>>, i: nat, e: nat)
    requires e <= |es| < |ss|
  {
    forall id :: IsPublished(ss, es, i, e, id) <==> IsPopped(ss, es, i, e, id)
  }

  /** Each of its publications finds that nothing has left the queue since it began. */
  predicate NothingRemoved<Id>(ss: seq<State<Id>>, es: seq<Event<Id>>, i: nat, e: nat)
    requires i < e <= |es| < |ss|
  {
    forall k | i < k < e && IsPublication(es[k]) :: Removed(ss[k]) == Removed(ss[i])
  }

  /** In every interleaving a pass removes exactly what it publishes if and only if each of
      its publications finds that nothing has left the queue since the pass began, whether
      by eviction, expiry, clearing or the pass itself; so it publishes at most once. */
  lemma PassOfARun<Id(!new)>(c: Config, ss: seq<State<Id>>, es: seq<Event<Id>>, i: nat, e: nat)
    requires c.Valid() && IsRun(c, ss, es) && InPass(es, i, e)
    ensures PassIsExact(ss, es, i, e) <==> NothingRemoved(ss, es, i, e)
    ensures PassIsExact(ss, es, i, e) ==>
              forall k, l | i < k < l < e :: !(IsPublication(es[k]) && IsPublication(es[l]))
  {
    assert i < e <= |es| < |ss|;
    hide IsRun, InPass, PassIsExact;
    if NothingRemoved(ss, es, i, e) {
      UndisturbedIsExact(c, ss, es, i, e);
      forall k, l | i < k < l < e ensures !(IsPublication(es[k]) && IsPublication(es[l])) {
        if IsPublication(es[k]) {
          PrefixOfAPass(es, i, k, e);
          PublicationRemoves(c, ss, es, i, k, l);
        }
      }
    } else {
      var k := FirstDisturbed(ss, es, i, e);
      DisturbedIsNotExact(c, ss, es, i, k, e);
    }
  }

  lemma UndisturbedIsExact<Id(!new)>(c: Config, ss: seq<State<Id>>, es: seq<Event<Id>>, i: nat, e: nat)
    requires c.Valid() && IsRun(c, ss, es) && InPass(es, i, e) && NothingRemoved(ss, es, i, e)
    ensures PassIsExact(ss, es, i, e)
  {
    forall id ensures IsPublished(ss, es, i, e, id) == IsPopped(ss, es, i, e, id) {
      hide IsPublished, IsPopped;
      PublishedIsPopped(c, ss, es, i, e, id);
    }
    hide IsRun, InPass, NothingRemoved, IsPublished, IsPopped;
  }

  lemma PublishedIsPopped<Id>(c: Config, ss: seq<State<Id>>, es: seq<Event<Id>>, i: nat, e: nat, id: Id)
    requires c.Valid() && IsRun(c, ss, es) && InPass(es, i, e) && NothingRemoved(ss, es, i, e)
    ensures IsPublished(ss, es, i, e, id) == IsPopped(ss, es, i, e, id)
  {
    assert e <= |es| < |ss|;
    forall k | i < k < e ensures Publishes(ss, es, k, id) == Pops(ss, es, k, id) {
      hide Publishes, Pops, IsRun;
      UndisturbedPops(c, ss, es, i, k, id);
    }
    hide IsRun, InPass, NothingRemoved, Publishes, Pops;
  }

  lemma PrefixOfAPass<Id>(es: seq<Event<Id>>, i: nat, k: nat, e: nat)
    requires InPass(es, i, e) && i < k < e
    ensures InPass(es, i, k)
  {
  }

  /** After a publication that finds its entry in place, something has left the queue. */
  lemma PublicationRemoves<Id>(c: Config, ss: seq<State<Id>>, es: seq<Event<Id>>, i: nat, k: nat, l: nat)
    requires c.Valid() && IsRun(c, ss, es) && InPass(es, i, k) && k < l <= |es|
    requires IsPublication(es[k]) && Removed(ss[k]) == Removed(ss[i])
    ensures Removed(ss[l]) > Removed(ss[i])
  {
    hide *;
    PublicationCounts(c, ss, es, i, k);
    RemovedGrows(c, ss, es, k + 1, l);
  }

  lemma DisturbedIsNotExact<Id(!new)>(c: Config, ss: seq<State<Id>>, es: seq<Event<Id>>, i: nat, k: nat, e: nat)
    requires c.Valid() && IsRun(c, ss, es) && InPass(es, i, e) && i < k < e
    requires IsPublication(es[k]) && Removed(ss[k]) != Removed(ss[i]) && NothingRemoved(ss, es, i, k)
    ensures !PassIsExact(ss, es, i, e)
  {
    IsNeverPopped(c, ss, es, i, k, k);
    var id := ss[k].pending[0].1;
    forall l | i < l < e ensures !Pops(ss, es, l, id) {
      IsNeverPopped(c, ss, es, i, k, l);
    }
    hide IsRun, InPass, NothingRemoved, Pops;
    assert IsPublished(ss, es, i, e, id) by { assert Publishes(ss, es, k, id); }
    assert !IsPopped(ss, es, i, e, id);
  }

  lemma {:induction false} FirstDisturbed<Id>(ss: seq<State<Id>>, es: seq<Event<Id>>, i: nat, e: nat) returns (k: nat)
    requires i < e <= |es| < |ss| && !NothingRemoved(ss, es, i, e)
    ensures i < k < e && IsPublication(es[k]) && Removed(ss[k]) != Removed(ss[i]) && NothingRemoved(ss, es, i, k)
  {
    k := e - 1;
    if e - 1 > i && !NothingRemoved(ss, es, i, e - 1) {
      k := FirstDisturbed(ss, es, i, e - 1);
    }
  }

  lemma UndisturbedPops<Id>(c: Config, ss: seq<State<Id>>, es: seq<Event<Id>>, i: nat, k: nat, id: Id)
    requires c.Valid() && IsRun(c, ss, es) && InPass(es, i, k) && k < |es|
    requires IsPublication(es[k]) ==> Removed(ss[k]) == Removed(ss[i])
    ensures Publishes(ss, es, k, id) == Pops(ss, es, k, id)
  {
    if ss[k].pending != [] && IsPublication(es[k]) {
      InPlaceIff(c, ss, es, i, k);
    }
  }

  /** A publication that finds its entry in place removes it. */
  lemma PublicationCounts<Id>(c: Config, ss: seq<State<Id>>, es: seq<Event<Id>>, i: nat, k: nat)
    requires c.Valid() && IsRun(c, ss, es) && InPass(es, i, k) && k < |es|
    requires IsPublication(es[k]) && Removed(ss[k]) == Removed(ss[i])
    ensures Removed(ss[k + 1]) == Removed(ss[k]) + 1
  {
    RunStep(c, ss, es, k);
    assert ss[k].pending != [];
    hide IsRun, InPass;
    InPlaceIff(c, ss, es, i, k);
  }

  lemma StepRemoves<Id>(c: Config, s: State<Id>, e: Event<Id>)
    requires Known(s.queue, s.entries) && Enabled(s, e)
    ensures Removed(s) <= Removed(Step(c, s, e))
  {
    match e
    case Send(_, _) =>
    case StartPass(_) =>
    case Settle(_, _) => assert |RemoveAt(s.queue, s.pending[0].0)| <= |s.queue|;
    case Cleanup(now) => assert |Young(s.queue, s.entries, now - c.retention)| <= |s.queue|;
    case Clear(_) =>
  }

  lemma {:induction false} RemovedGrows<Id>(c: Config, ss: seq<State<Id>>, es: seq<Event<Id>>, k: nat, l: nat)
    requires IsRun(c, ss, es) && k <= l <= |es|
    ensures Removed(ss[k]) <= Removed(ss[l])
  {
    if k < l {
      hide *;
      RemovedGrows(c, ss, es, k, l - 1);
      RunStep(c, ss, es, l - 1);
      StepRemoves(c, ss[l - 1], es[l - 1]);
    }
  }

  lemma StepPending<Id>(c: Config, s: State<Id>, e: Event<Id>)
    requires Known(s.queue, s.entries) && Enabled(s, e) && !e.StartPass?
    ensures e.Settle? ==> s.pending != []
    ensures Step(c, s, e).pending == if e.Settle? then s.pending[1..] else s.pending
  {
  }

  lemma RestOfARest<T>(s: seq<T>, m: nat)
    requires m < |s|
    ensures s[m..][1..] == s[m + 1..]
  {
  }

  /** What is pending later in a pass is a rest of what is pending now. */
  lemma {:induction false} PendingIsARest<Id>(c: Config, ss: seq<State<Id>>, es: seq<Event<Id>>, i: nat, k: nat, l: nat)
    returns (n: nat)
    requires IsRun(c, ss, es) && InPass(es, i, l) && i < k <= l
    ensures n <= |ss[k].pending| && ss[l].pending == ss[k].pending[n..]
    ensures k < l && es[k].Settle? ==> n >= 1
  {
    hide *;
    n := 0;
    PassStep(es, i, l);
    RunStep(c, ss, es, l - 1);
    if k < l {
      var m := PendingIsARest(c, ss, es, i, k, l - 1);
      StepPending(c, ss[l - 1], es[l - 1]);
      if es[l - 1].Settle? {
        RestOfARest(ss[k].pending, m);
        n := m + 1;
      } else {
        n := m;
      }
    }
  }

  /** A pass works through the queue from left to right. */
  lemma LaterIsFurther<Id>(c: Config, ss: seq<State<Id>>, es: seq<Event<Id>>, i: nat, k: nat, l: nat)
    requires c.Valid() && IsRun(c, ss, es) && InPass(es, i, l) && i < k < l
    requires es[k].Settle? && ss[k].pending != [] && ss[l].pending != []
    ensures ss[k].pending[0].0 < ss[l].pending[0].0
  {
    PassTracks(c, ss, es, i, k);
    var n := PendingIsARest(c, ss, es, i, k, l);
    assert ss[l].pending[0] == ss[k].pending[n];
  }

  /** An entry published after something has left the queue is popped by no publication
      of the pass, if the publications before that one were in place. */
  lemma IsNeverPopped<Id>(c: Config, ss: seq<State<Id>>, es: seq<Event<Id>>, i: nat, k: nat, l: nat)
    requires c.Valid() && IsRun(c, ss, es) && InPass(es, i, k) && InPass(es, i, l) && k < |es| && l < |es|
    requires IsPublication(es[k]) && Removed(ss[k]) != Removed(ss[i]) && NothingRemoved(ss, es, i, k)
    ensures ss[k].pending != [] && !Pops(ss, es, l, ss[k].pending[0].1)
  {
    assert Enabled(ss[k], es[k]);
    var q, id := ss[i].queue, ss[k].pending[0].1;
    if Pops(ss, es, l, id) {
      AlwaysSound(c, ss, es, i);
      PassTracks(c, ss, es, i, k);
      PassTracks(c, ss, es, i, l);
      if l == k {
        InPlaceIff(c, ss, es, i, k);
      } else if l < k {
        LaterIsFurther(c, ss, es, i, l, k);
      } else {
        LaterIsFurther(c, ss, es, i, k, l);
      }
    }
  }

  /** A pass that publishes once, during which an entry arrives at a full queue: the queue
      evicts its oldest entry, and the publication pops an entry that was not published. */
  lemma ArrivalDisturbsAPass(c: Config) returns (ss: seq<State<nat>>, es: seq<Event<nat>>)
    requires c.maxSize == 2 && c.maxRetries >= 1
    ensures IsRun(c, ss, es) && InPass(es, 2, 5) && |es| == 5
    ensures forall k | 2 < k < 5 :: IsPublication(es[k]) <==> k == 4
    ensures IsPopped(ss, es, 2, 5, 1) && !IsPublished(ss, es, 2, 5, 1)
  {
    hide Due, Young, Step, Known, Enabled, IsRun;
    ss, es := PassOverTwo(c);
    var s4 := ArrivalEvicts(c, ss[3]);
    assert |ss| == 4 by { RunStep(c, ss, es, 0); }
    RunSnoc(c, ss, es, Send(2, 0.0));
    RunSnoc(c, ss + [s4], es + [Send(2, 0.0)], Settle(Published, 0.0));
    es := es + [Send(2, 0.0)] + [Settle(Published, 0.0)];
    ss := ss + [s4] + [Step(c, s4, Settle(Published, 0.0))];
    assert Pops(ss, es, 4, 1) && !Publishes(ss, es, 4, 1);
  }

  lemma ArrivalEvicts(c: Config, s: State<nat>) returns (s': State<nat>)
    requires c.maxSize == 2 && s.queue == [0, 1] && s.pending == [(0, 0), (1, 1)] && s.clock == 0.0
    requires Known(s.queue, s.entries) && 2 !in s.entries
    ensures Enabled(s, Send(2, 0.0)) && s' == Step(c, s, Send(2, 0.0))
    ensures s'.queue == [1, 2] && s'.pending == s.pending
    ensures Known(s'.queue, s'.entries) && Enabled(s', Settle(Published, 0.0))
  {
    hide Due, Young;
    s' := Step(c, s, Send(2, 0.0));
    assert s'.queue == [1, 2];
  }

  lemma PassOverTwo(c: Config) returns (ss: seq<State<nat>>, es: seq<Event<nat>>)
    requires c.maxSize == 2 && c.maxRetries >= 1
    ensures IsRun(c, ss, es) && |es| == 3 && es[2] == StartPass(0.0)
    ensures |ss| == 4
    ensures var s := ss[3];
            && s.queue == [0, 1] && s.pending == [(0, 0), (1, 1)] && s.clock == 0.0
            && Known(s.queue, s.entries) && 2 !in s.entries
  {
    hide Due, Young, Step, IsRun, Known, Enabled;
    var s0: State<nat> := Init();
    var s1, s2 := TwoArrivals(c);
    var s3 := Collecting(c, s2);
    assert IsRun(c, [s0], []) by { EmptyRun(c); }
    RunSnoc(c, [s0], [], Send(0, 0.0));
    RunSnoc(c, [s0] + [s1], [] + [Send(0, 0.0)], Send(1, 0.0));
    es := [] + [Send(0, 0.0)] + [Send(1, 0.0)];
    ss := [s0] + [s1] + [s2];
    RunSnoc(c, ss, es, StartPass(0.0));
    es, ss := es + [StartPass(0.0)], ss + [s3];
  }

  lemma EmptyRun(c: Config)
    ensures var s: State<nat> := Init(); IsRun(c, [s], [])
  {
  }

  lemma TwoArrivals(c: Config) returns (s1: State<nat>, s2: State<nat>)
    requires c.maxSize == 2
    ensures var s0: State<nat> := Init();
            Known(s0.queue, s0.entries) && Enabled(s0, Send(0, 0.0)) && s1 == Step(c, s0, Send(0, 0.0))
    ensures Known(s1.queue, s1.entries) && Enabled(s1, Send(1, 0.0)) && s2 == Step(c, s1, Send(1, 0.0))
    ensures s2.queue == [0, 1] && s2.pending == [] && s2.clock == 0.0
    ensures s2.entries == map[0 := Entry(0.0, 0, 0.0), 1 := Entry(0.0, 0, 0.0)]
  {
    hide Due, Young;
    s1 := Step(c, Init(), Send(0, 0.0));
    assert s1.queue == [0] && s1.entries == map[0 := Entry(0.0, 0, 0.0)] && s1.pending == [] && s1.clock == 0.0;
    s2 := Step(c, s1, Send(1, 0.0));
    assert s2.queue == [0, 1] && s2.entries == s1.entries[1 := Entry(0.0, 0, 0.0)];
  }

  lemma Collecting(c: Config, s: State<nat>) returns (s': State<nat>)
    requires c.maxRetries >= 1 && s.queue == [0, 1] && s.pending == [] && s.clock == 0.0
    requires s.entries == map[0 := Entry(0.0, 0, 0.0), 1 := Entry(0.0, 0, 0.0)]
    ensures Known(s.queue, s.entries) && Enabled(s, StartPass(0.0)) && s' == Step(c, s, StartPass(0.0))
    ensures s'.queue == s.queue && s'.entries == s.entries && s'.clock == 0.0
    ensures Known(s'.queue, s'.entries) && 2 !in s'.entries && s'.pending == [(0, 0), (1, 1)]
  {
    hide Due, Young;
    s' := Step(c, s, StartPass(0.0));
    DueOfTwo(c, s);
  }

  lemma DueOfTwo(c: Config, s: State<nat>)
    requires c.maxRetries >= 1 && s.queue == [0, 1] && Known(s.queue, s.entries)
    requires 0 in s.entries && 1 in s.entries && s.entries[0] == s.entries[1] == Entry(0.0, 0, 0.0)
    ensures Due(c, s.queue, s.entries, 0.0, 2) == [(0, 0), (1, 1)]
  {
    DueStep(c, s.queue, s.entries, 0.0, 0);
    DueStep(c, s.queue, s.entries, 0.0, 1);
    hide Due, Known;
    var d0, d1 := Due(c, s.queue, s.entries, 0.0, 0), Due(c, s.queue, s.entries, 0.0, 1);
    assert d0 == [] && d1 == d0 + [(0, 0)];
  }

  lemma DueStep<Id>(c: Config, queue: seq<Id>, entries: map<Id, Entry>, now: real, n: nat)
    requires n < |queue| && Known(queue, entries)
    ensures Due(c, queue, entries, now, 0) == []
    ensures Due(c, queue, entries, now, n + 1)
         == Due(c, queue, entries, now, n) + if IsDue(c, entries[queue[n]], now) then [(n, queue[n])] else []
  {
    hide IsDue;
  }
}
