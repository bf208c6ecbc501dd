/** What an observer of a rate limiter sees: calls, each at a time, each admitted or not. */
module History {
  datatype Call = Call(time: real, admitted: bool)

  function Ceil(x: real): (n: int)
    ensures n as real >= x && (n - 1) as real < x
  {
    -((-x).Floor)
  }

  predicate InOrder(h: seq<Call>) {
    forall i, j :: 0 <= i <= j < |h| ==> h[i].time <= h[j].time
  }

  /** How many of the calls i, i+1, ..., k-1 were admitted. */
  function Admitted(h: seq<Call>, i: nat, k: nat): (n: nat)
    requires k <= |h|
  {
    if i >= k then 0 else Admitted(h, i, k - 1) + if h[k - 1].admitted then 1 else 0
  }

  /** How many calls were admitted at a time in the closed interval [from, to]. */
  function AdmittedBetween(h: seq<Call>, from: real, to: real): nat {
    if h == [] then 0 else
      var last := h[|h| - 1];
      AdmittedBetween(h[..|h| - 1], from, to) + if last.admitted && from <= last.time <= to then 1 else 0
  }

  /** The times of the admitted calls among the first k. */
  function AdmissionTimes(h: seq<Call>, k: nat): seq<real>
    requires k <= |h|
  {
    if k == 0 then []
    else if h[k - 1].admitted then AdmissionTimes(h, k - 1) + [h[k - 1].time]
    else AdmissionTimes(h, k - 1)
  }

  /** The entries of `times` that are after `cutoff`. */
  function Recent(times: seq<real>, cutoff: real): seq<real> {
    if times == [] then [] else
      var rest := Recent(times[..|times| - 1], cutoff);
      if times[|times| - 1] > cutoff then rest + [times[|times| - 1]] else rest
  }

  lemma {:induction false} AdmittedPrefix(h: seq<Call>, g: seq<Call>, i: nat, k: nat)
    requires k <= |h| && k <= |g| && h[..k] == g[..k]
    ensures Admitted(h, i, k) == Admitted(g, i, k)
  {
    if i < k {
      assert h[k - 1] == h[..k][k - 1] == g[k - 1];
      assert h[..k - 1] == h[..k][..k - 1] == g[..k - 1];
      AdmittedPrefix(h, g, i, k - 1);
    }
  }

  lemma {:induction false} AdmittedSplit(h: seq<Call>, i: nat, j: nat, k: nat)
    requires i <= j <= k <= |h|
    ensures Admitted(h, i, k) == Admitted(h, i, j) + Admitted(h, j, k) <= Admitted(h, i, j) + (k - j)
  {
    if j < k {
      AdmittedSplit(h, i, j, k - 1);
    }
  }

  /** The number of leading calls made strictly before `x`. */
  function Before(h: seq<Call>, x: real): (n: nat)
    ensures n <= |h|
  {
    if h == [] then 0 else if h[|h| - 1].time < x then |h| else Before(h[..|h| - 1], x)
  }

  /** The number of leading calls made at `x` or earlier. */
  function Until(h: seq<Call>, x: real): (n: nat)
    ensures n <= |h|
  {
    if h == [] then 0 else if h[|h| - 1].time <= x then |h| else Until(h[..|h| - 1], x)
  }

  /** The calls of a closed interval are consecutive, so a bound on every run of
      consecutive calls is a bound on every interval of time. */
  lemma {:induction false} IntervalIsConsecutive(h: seq<Call>, from: real, to: real)
    requires InOrder(h) && from <= to
    ensures Before(h, from) <= Until(h, to)
    ensures AdmittedBetween(h, from, to) == Admitted(h, Before(h, from), Until(h, to))
    ensures Before(h, from) < Until(h, to) ==>
              from <= h[Before(h, from)].time <= h[Until(h, to) - 1].time <= to
  {
    if h != [] {
      var front := h[..|h| - 1];
      IntervalIsConsecutive(front, from, to);
      AdmittedPrefix(front, h, Before(front, from), Until(front, to));
      assert Until(front, to) < |front| ==> h[Until(front, to)].time > to by { UntilSplits(front, to); }
    }
  }

  lemma {:induction false} UntilSplits(h: seq<Call>, x: real)
    ensures Until(h, x) < |h| ==> h[Until(h, x)].time > x
    ensures Until(h, x) > 0 ==> h[Until(h, x) - 1].time <= x
  {
    if h != [] && h[|h| - 1].time > x {
      UntilSplits(h[..|h| - 1], x);
    }
  }

  /** A bound on every run of consecutive calls made inside a closed interval bounds
      what the interval admits. */
  lemma BoundInterval(h: seq<Call>, from: real, to: real, limit: real)
    requires InOrder(h) && from <= to && limit >= 0.0
    requires forall i, k | 0 <= i <= k < |h| && from <= h[i].time && h[k].time <= to ::
               Admitted(h, i, k + 1) as real <= limit
    ensures AdmittedBetween(h, from, to) as real <= limit
  {
    IntervalIsConsecutive(h, from, to);
    var i, k := Before(h, from), Until(h, to);
    if i < k {
      assert Admitted(h, i, k - 1 + 1) as real <= limit;
    }
  }
}
