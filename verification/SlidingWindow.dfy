/** What the sliding window means: the pruned list of admission times is the whole
    admission history restricted to (now - window, now]. */
module SlidingWindow {
  import opened History
  import opened Greedy
  import opened RateLimitConfig

  function Step(c: Config, requestTimes: seq<real>, now: real): (seq<real>, bool) {
    var recent := Recent(requestTimes, now - c.window);
    if c.HasRoom(|recent|) then (recent + [now], true) else (recent, false)
  }

  /** `lists` are the states of the request list while it decides the calls of `h`. */
  ghost predicate IsRun(c: Config, lists: seq<seq<real>>, h: seq<Call>) {
    && |lists| == |h| + 1
    && lists[0] == []
    && (forall k {:trigger h[k]} | 0 <= k < |h| :: Step(c, lists[k], h[k].time) == (lists[k + 1], h[k].admitted))
  }

  lemma {:induction false} RecentOfRecent(times: seq<real>, x: real, y: real)
    requires x <= y
    ensures Recent(Recent(times, x), y) == Recent(times, y)
  {
    if times != [] {
      var front, last := times[..|times| - 1], times[|times| - 1];
      RecentOfRecent(front, x, y);
      if last > x {
        RecentSnoc(Recent(front, x), last, y);
      }
    }
  }

  lemma RecentSnoc(times: seq<real>, t: real, x: real)
    ensures Recent(times + [t], x) == if t > x then Recent(times, x) + [t] else Recent(times, x)
  {
    assert (times + [t])[..|times|] == times;
  }

  lemma ListStep(c: Config, lists: seq<seq<real>>, h: seq<Call>, k: nat)
    requires IsRun(c, lists, h) && k < |h|
    ensures var recent := Recent(lists[k], h[k].time - c.window);
            && h[k].admitted == c.HasRoom(|recent|)
            && lists[k + 1] == if h[k].admitted then recent + [h[k].time] else recent
  {
    hide Recent, RateLimitConfig.Config.HasRoom;
    assert Step(c, lists[k], h[k].time) == (lists[k + 1], h[k].admitted);
  }

  function Extended(times: seq<real>, t: real, admitted: bool): seq<real> {
    if admitted then times + [t] else times
  }

  /** Pruning once and then again is pruning once, also after a further admission. */
  lemma PruneStep(admissions: seq<real>, t: real, admitted: bool, was: real, cutoff: real)
    requires was <= cutoff
    ensures Recent(Extended(Recent(admissions, was), t, admitted), cutoff) == Recent(Extended(admissions, t, admitted), cutoff)
  {
    hide Recent;
    RecentOfRecent(admissions, was, cutoff);
    RecentSnoc(Recent(admissions, was), t, cutoff);
    RecentSnoc(admissions, t, cutoff);
  }

  lemma FirstList(c: Config, lists: seq<seq<real>>, h: seq<Call>)
    requires IsRun(c, lists, h)
    ensures |lists| == |h| + 1 && lists[0] == AdmissionTimes(h, 0)
  {
  }

  lemma NextList(c: Config, lists: seq<seq<real>>, h: seq<Call>, k: nat)
    requires IsRun(c, lists, h) && k < |h|
    ensures lists[k + 1] == Extended(Recent(lists[k], h[k].time - c.window), h[k].time, h[k].admitted)
    ensures AdmissionTimes(h, k + 1) == Extended(AdmissionTimes(h, k), h[k].time, h[k].admitted)
  {
    ListStep(c, lists, h, k);
    hide Recent, IsRun;
  }

  lemma TimesInOrder(h: seq<Call>, i: nat, k: nat)
    requires InOrder(h) && i <= k < |h|
    ensures h[i].time <= h[k].time
  {
  }

  /** The list that call `k` has after pruning is the full admission history, filtered. */
  lemma {:induction false} PrunedIsFilteredHistory(c: Config, lists: seq<seq<real>>, h: seq<Call>, k: nat)
    requires c.Valid() && IsRun(c, lists, h) && InOrder(h)
    requires k < |h|
    ensures Recent(lists[k], h[k].time - c.window) == Recent(AdmissionTimes(h, k), h[k].time - c.window)
  {
    hide *;
    FirstList(c, lists, h);
    if k > 0 {
      TimesInOrder(h, k - 1, k);
      PrunedIsFilteredHistory(c, lists, h, k - 1);
      NextList(c, lists, h, k - 1);
      PruneStep(AdmissionTimes(h, k - 1), h[k - 1].time, h[k - 1].admitted, h[k - 1].time - c.window, h[k].time - c.window);
    }
  }

  /** A call is admitted exactly when fewer than rate * window requests were
      admitted in the window that ends with it. */
  lemma AdmittedIffWindowHasRoom(c: Config, lists: seq<seq<real>>, h: seq<Call>, k: nat)
    requires c.Valid() && IsRun(c, lists, h) && InOrder(h)
    requires k < |h|
    ensures h[k].admitted <==> c.HasRoom(|Recent(AdmissionTimes(h, k), h[k].time - c.window)|)
    ensures h[k].admitted <==> |Recent(AdmissionTimes(h, k), h[k].time - c.window)| < c.Limit()
  {
    hide *;
    PrunedIsFilteredHistory(c, lists, h, k);
    ListStep(c, lists, h, k);
    c.RoomIsBelowLimit(|Recent(AdmissionTimes(h, k), h[k].time - c.window)|);
  }

  /** The size of the filtered history is the number of admissions since the first
      call inside the window. */
  lemma {:induction false} RecentCounts(h: seq<Call>, i: nat, k: nat, cutoff: real)
    requires i <= k <= |h| && InOrder(h)
    ensures (i < k ==> h[i].time > cutoff) ==> |Recent(AdmissionTimes(h, k), cutoff)| >= Admitted(h, i, k)
    ensures (i > 0 ==> h[i - 1].time <= cutoff) ==> |Recent(AdmissionTimes(h, k), cutoff)| <= Admitted(h, i, k)
  {
    if k > 0 {
      RecentCounts(h, if i < k then i else k - 1, k - 1, cutoff);
      RecentSnoc(AdmissionTimes(h, k - 1), h[k - 1].time, cutoff);
    }
  }

  /** At most ceil(rate * window) of the calls i..k if they lie within less than one
      window length; otherwise no bound beyond their number. */
  function Cap(c: Config, h: seq<Call>): (int, int) -> real {
    (i, k) => if 0 <= i <= k < |h| && h[k].time - h[i].time < c.window then c.Limit() as real
              else (k + 1 - i) as real
  }

  lemma AdmissionIsGreedy(c: Config, lists: seq<seq<real>>, h: seq<Call>)
    requires c.Valid() && IsRun(c, lists, h) && InOrder(h)
    ensures IsGreedy(h, Cap(c, h))
  {
    forall k | 0 <= k < |h|
      ensures h[k].admitted <==> forall i | 0 <= i <= k :: (Admitted(h, i, k) + 1) as real <= Cap(c, h)(i, k)
    {
      AdmittedIffWindowHasRoom(c, lists, h, k);
      RoomMeansNoCapBreaks(c, h, k);
    }
  }

  lemma RoomMeansNoCapBreaks(c: Config, h: seq<Call>, k: nat)
    requires c.Valid() && InOrder(h) && k < |h|
    ensures |Recent(AdmissionTimes(h, k), h[k].time - c.window)| < c.Limit()
       <==> forall i | 0 <= i <= k :: (Admitted(h, i, k) + 1) as real <= Cap(c, h)(i, k)
  {
    var cutoff, cap := h[k].time - c.window, Cap(c, h);
    if |Recent(AdmissionTimes(h, k), cutoff)| < c.Limit() {
      forall i | 0 <= i <= k ensures (Admitted(h, i, k) + 1) as real <= cap(i, k) {
        RecentCounts(h, i, k, cutoff);
        AdmittedSplit(h, i, i, k);
      }
    } else {
      var i := Until(h, cutoff);
      UntilSplits(h, cutoff);
      RecentCounts(h, i, k, cutoff);
      assert (Admitted(h, i, k) + 1) as real > cap(i, k);
    }
  }

  lemma CapIsSteady(c: Config, h: seq<Call>)
    requires c.Valid() && InOrder(h)
    ensures Steady(|h|, Cap(c, h))
  {
    var cap := Cap(c, h);
    c.RoomIsBelowLimit(0);
    forall k | 0 <= k < |h| ensures cap(k, k) >= 0.0 {
      assert cap(k, k) == c.Limit() as real;
    }
  }

  /** Every interval shorter than the window, hence every half-open interval of
      the window's length, holds at most ceil(rate * window) admissions. */
  lemma IntervalBounded(c: Config, lists: seq<seq<real>>, h: seq<Call>, from: real, to: real)
    requires c.Valid() && IsRun(c, lists, h) && InOrder(h)
    requires from <= to < from + c.window
    ensures AdmittedBetween(h, from, to) <= c.Limit()
  {
    AdmissionIsGreedy(c, lists, h);
    CapIsSteady(c, h);
    c.RoomIsBelowLimit(0);
    forall i, k | 0 <= i <= k < |h| && from <= h[i].time && h[k].time <= to
      ensures Admitted(h, i, k + 1) as real <= c.Limit() as real
    {
      GreedyConforms(h, Cap(c, h), i, k);
    }
    BoundInterval(h, from, to, c.Limit() as real);
  }

  /** No policy with at most ceil(rate * window) admissions in every such interval
      has admitted more by any point of the run. */
  lemma NoConformingPolicyAdmitsMore(c: Config, lists: seq<seq<real>>, h: seq<Call>, policy: seq<Call>, k: nat)
    requires c.Valid() && IsRun(c, lists, h) && InOrder(h)
    requires k <= |h| == |policy| && Conforms(policy, Cap(c, h))
    ensures Admitted(policy, 0, k) <= Admitted(h, 0, k)
  {
    AdmissionIsGreedy(c, lists, h);
    GreedyIsMaximal(h, policy, Cap(c, h), k);
  }
}
