/** What the fixed window means: it counts per epoch, so an interval of the window's
    length can straddle two epochs and hold twice the limit, but never more. */
module FixedWindow {
  import opened History
  import opened RateLimitConfig

  datatype Window = Window(start: real, requests: nat)

  predicate Expired(c: Config, w: Window, now: real) {
    now - w.start >= c.window
  }

  function Step(c: Config, w: Window, now: real): (Window, bool) {
    var w := if Expired(c, w, now) then Window(now, 0) else w;
    if c.HasRoom(w.requests) then (w.(requests := w.requests + 1), true) else (w, false)
  }

  /** `ws` are the windows a limiter goes through while it decides the calls of `h`. */
  ghost predicate IsRun(c: Config, ws: seq<Window>, h: seq<Call>) {
    && |ws| == |h| + 1
    && ws[0].requests == 0
    && (forall k {:trigger h[k]} | 0 <= k < |h| :: Step(c, ws[k], h[k].time) == (ws[k + 1], h[k].admitted))
  }

  /** The clock never runs backwards, and the limiter is created before its first call. */
  predicate Clocked(ws: seq<Window>, h: seq<Call>) {
    InOrder(h) && (h != [] && ws != [] ==> ws[0].start <= h[0].time)
  }

  /** How many times the first `k` calls have restarted the window. */
  function Epoch(c: Config, ws: seq<Window>, h: seq<Call>, k: nat): nat
    requires k <= |h| <= |ws|
  {
    if k == 0 then 0 else Epoch(c, ws, h, k - 1) + if Expired(c, ws[k - 1], h[k - 1].time) then 1 else 0
  }

  /** After a call, its time lies in the current window; and a new window starts at
      least one window length after the one it replaces. */
  lemma {:induction false} WindowsAreApart(c: Config, ws: seq<Window>, h: seq<Call>, k: nat)
    requires c.Valid() && IsRun(c, ws, h) && Clocked(ws, h) && k < |h|
    ensures ws[k + 1].start <= h[k].time < ws[k + 1].start + c.window
    ensures if Expired(c, ws[k], h[k].time) then ws[k + 1].start >= ws[k].start + c.window
            else ws[k + 1].start == ws[k].start
  {
    if k > 0 {
      WindowsAreApart(c, ws, h, k - 1);
    }
  }

  /** One call moves the count on by one if it is admitted, or starts a new window. */
  lemma CountStep(c: Config, ws: seq<Window>, h: seq<Call>, k: nat)
    requires c.Valid() && IsRun(c, ws, h) && k < |h|
    ensures var one := if h[k].admitted then 1 else 0;
            if Expired(c, ws[k], h[k].time) then ws[k + 1].requests == one
            else ws[k + 1].requests == ws[k].requests + one
  {
    assert Step(c, ws[k], h[k].time) == (ws[k + 1], h[k].admitted);
    hide RateLimitConfig.Config.HasRoom;
  }

  /** When the window starts that is current before call `k`, from the call times alone: the
      first at creation, each later one at the first call at least a window length after. */
  function StartBefore(c: Config, created: real, h: seq<Call>, k: nat): real
    requires k <= |h|
  {
    if k == 0 then created
    else if h[k - 1].time - StartBefore(c, created, h, k - 1) >= c.window then h[k - 1].time
    else StartBefore(c, created, h, k - 1)
  }

  /** The first of the calls in the window that call `k` falls in. */
  function FirstInWindow(c: Config, created: real, h: seq<Call>, k: nat): (i: nat)
    requires k < |h|
    ensures i <= k
  {
    if k == 0 || h[k].time - StartBefore(c, created, h, k) >= c.window then k
    else FirstInWindow(c, created, h, k - 1)
  }

  lemma {:induction false} WindowIsHistory(c: Config, ws: seq<Window>, h: seq<Call>, k: nat)
    requires c.Valid() && IsRun(c, ws, h) && k < |h|
    ensures ws[k].start == StartBefore(c, ws[0].start, h, k)
    ensures var i := FirstInWindow(c, ws[0].start, h, k);
            Admitted(h, i, k) == if Expired(c, ws[k], h[k].time) then 0 else ws[k].requests
  {
    if k > 0 {
      WindowIsHistory(c, ws, h, k - 1);
      CountStep(c, ws, h, k - 1);
      assert Step(c, ws[k - 1], h[k - 1].time) == (ws[k], h[k - 1].admitted);
      var i := FirstInWindow(c, ws[0].start, h, k - 1);
      assert Admitted(h, i, k) == Admitted(h, i, k - 1) + if h[k - 1].admitted then 1 else 0;
      hide IsRun, RateLimitConfig.Config.HasRoom;
    }
  }

  /** A call is admitted if and only if fewer than ceil(rate * window) of the calls before it
      in its window were; the call that opens a window is the first of it. */
  lemma AdmittedIffWindowHasRoom(c: Config, ws: seq<Window>, h: seq<Call>, k: nat)
    requires c.Valid() && IsRun(c, ws, h) && k < |h|
    ensures h[k].admitted <==> Admitted(h, FirstInWindow(c, ws[0].start, h, k), k) < c.Limit()
  {
    WindowIsHistory(c, ws, h, k);
    assert Step(c, ws[k], h[k].time) == (ws[k + 1], h[k].admitted);
    c.RoomIsBelowLimit(if Expired(c, ws[k], h[k].time) then 0 else ws[k].requests);
    hide RateLimitConfig.Config.HasRoom, RateLimitConfig.Config.Limit, FirstInWindow;
  }

  /** The length of `n` windows. */
  function Length(c: Config, n: nat): real {
    if n == 0 then 0.0 else Length(c, n - 1) + c.window
  }

  lemma {:induction false} LengthIsLinear(c: Config, n: nat)
    ensures Length(c, n) == n as real * c.window
  {
    if n > 0 {
      LengthIsLinear(c, n - 1);
      assert n as real * c.window == (n - 1) as real * c.window + c.window;
    }
  }

  lemma {:induction false} LengthGrows(c: Config, m: nat, n: nat)
    requires c.Valid() && m <= n
    ensures 0.0 <= Length(c, m) <= Length(c, n)
  {
    if m < n {
      LengthGrows(c, m, n - 1);
    } else if n > 0 {
      LengthGrows(c, n - 1, n - 1);
    }
  }

  /** A window `d` restarts after the one call `i` was counted in starts more than
      d - 1 window lengths after that call. */
  lemma {:induction false} EpochsTakeTime(c: Config, ws: seq<Window>, h: seq<Call>, i: nat, k: nat)
    requires c.Valid() && IsRun(c, ws, h) && Clocked(ws, h)
    requires i < k <= |h|
    ensures var d := Epoch(c, ws, h, k) - Epoch(c, ws, h, i + 1);
            && d >= 0
            && (d == 0 ==> ws[k].start == ws[i + 1].start)
            && (d > 0 ==> ws[k].start > h[i].time + Length(c, d - 1))
  {
    if i + 1 < k {
      EpochsTakeTime(c, ws, h, i, k - 1);
      WindowsAreApart(c, ws, h, k - 1);
      WindowsAreApart(c, ws, h, i);
    }
  }

  lemma {:induction false} WindowHolds(c: Config, ws: seq<Window>, h: seq<Call>, k: nat)
    requires c.Valid() && IsRun(c, ws, h) && k <= |h|
    ensures ws[k].requests <= c.Limit()
  {
    c.RoomIsBelowLimit(0);
    if k > 0 {
      WindowHolds(c, ws, h, k - 1);
      assert Step(c, ws[k - 1], h[k - 1].time) == (ws[k], h[k - 1].admitted);
      c.RoomIsBelowLimit(ws[k - 1].requests);
    }
  }

  /** What `d` whole windows and the current one hold. */
  function Capacity(d: nat, limit: int): int {
    d * limit
  }

  lemma CapacityGrows(d: nat, m: nat, limit: nat)
    requires d <= m
    ensures Capacity(d, limit) <= Capacity(m, limit)
    ensures Capacity(d + 1, limit) == Capacity(d, limit) + limit
  {
  }

  lemma {:induction false} AdmittedByEpoch(c: Config, ws: seq<Window>, h: seq<Call>, i: nat, k: nat)
    requires c.Valid() && IsRun(c, ws, h)
    requires i < k <= |h|
    ensures var d := Epoch(c, ws, h, k) - Epoch(c, ws, h, i + 1);
            d >= 0 && Admitted(h, i, k) <= Capacity(d, c.Limit()) + ws[k].requests
  {
    assert |ws| == |h| + 1;
    hide IsRun, Expired, Capacity, RateLimitConfig.Config.Limit;
    CountStep(c, ws, h, k - 1);
    WindowHolds(c, ws, h, k - 1);
    if i + 1 < k {
      AdmittedByEpoch(c, ws, h, i, k - 1);
      var d := Epoch(c, ws, h, k - 1) - Epoch(c, ws, h, i + 1);
      CapacityGrows(d, d, c.Limit());
    } else {
      CapacityGrows(0, 0, c.Limit());
      assert Admitted(h, i, i) == 0;
    }
  }

  /** Calls within `m` window lengths of each other meet at most m + 1 windows and
      hold at most m + 1 times the limit; m = 1 is the two-window bound. */
  lemma CallsBounded(c: Config, ws: seq<Window>, h: seq<Call>, i: nat, k: nat, m: nat)
    requires c.Valid() && IsRun(c, ws, h) && Clocked(ws, h)
    requires i < k <= |h| && h[k - 1].time - h[i].time <= Length(c, m)
    ensures Epoch(c, ws, h, k) <= Epoch(c, ws, h, i + 1) + m
    ensures Admitted(h, i, k) <= Capacity(m + 1, c.Limit())
  {
    var d := Epoch(c, ws, h, k) - Epoch(c, ws, h, i + 1);
    EpochsTakeTime(c, ws, h, i, k);
    WindowsAreApart(c, ws, h, k - 1);
    if d > m {
      LengthGrows(c, m, d - 1);
    }
    AdmittedByEpoch(c, ws, h, i, k);
    WindowHolds(c, ws, h, k);
    CapacityGrows(d, m, c.Limit());
    CapacityGrows(m, m, c.Limit());
  }

  /** Every closed interval of `m` window lengths holds at most m + 1 times the limit. */
  lemma IntervalBounded(c: Config, ws: seq<Window>, h: seq<Call>, from: real, m: nat)
    requires c.Valid() && IsRun(c, ws, h) && Clocked(ws, h)
    ensures AdmittedBetween(h, from, from + m as real * c.window) <= (m + 1) * c.Limit()
  {
    LengthIsLinear(c, m);
    IntervalOfWindows(c, ws, h, from, m);
  }

  lemma IntervalOfWindows(c: Config, ws: seq<Window>, h: seq<Call>, from: real, m: nat)
    requires c.Valid() && IsRun(c, ws, h) && Clocked(ws, h)
    ensures AdmittedBetween(h, from, from + Length(c, m)) <= Capacity(m + 1, c.Limit())
  {
    var limit := Capacity(m + 1, c.Limit());
    forall i, k | 0 <= i <= k < |h| && from <= h[i].time && h[k].time <= from + Length(c, m)
      ensures Admitted(h, i, k + 1) as real <= limit as real
    {
      CallsBounded(c, ws, h, i, k + 1, m);
    }
    WindowHolds(c, ws, h, 0);
    CapacityGrows(0, m + 1, c.Limit());
    LengthGrows(c, m, m);
    BoundInterval(h, from, from + Length(c, m), limit as real);
  }

  lemma {:induction false} AllInside(h: seq<Call>, from: real, to: real)
    requires forall k | 0 <= k < |h| :: h[k].admitted && from <= h[k].time <= to
    ensures AdmittedBetween(h, from, to) == |h|
  {
    if h != [] {
      AllInside(h[..|h| - 1], from, to);
    }
  }

  /** Twice the limit is reached, within half a window. */
  lemma TwiceTheLimitIsReached(c: Config, created: real) returns (ws: seq<Window>, h: seq<Call>)
    requires c.Valid()
    ensures IsRun(c, ws, h) && Clocked(ws, h) && ws[0].start == created
    ensures AdmittedBetween(h, created + c.window / 2.0, created + c.window) == 2 * c.Limit()
  {
    var n := c.Limit();
    c.RoomIsBelowLimit(0);
    var early, late := created + c.window / 2.0, created + c.window;
    h := seq(2 * n, k => Call(if k < n then early else late, true));
    ws := seq(2 * n + 1, k requires 0 <= k => if k <= n then Window(created, k) else Window(late, k - n));
    forall k | 0 <= k < |h| ensures Step(c, ws[k], h[k].time) == (ws[k + 1], h[k].admitted) {
      c.RoomIsBelowLimit(if k < n then k else k - n);
    }
    AllInside(h, early, late);
  }
}
