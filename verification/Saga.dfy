/** Sagas: steps with compensations, run in order or all at once, undone when one fails.

    The steps act on a world of any type.  `execute(w, a)` is what attempt `a` of a step
    does to world `w`, `compensate(w)` what its compensation does; both may raise, after
    having changed the world.  The trace lists what the saga calls, in order. */
module Saga {
  import opened Powers
  import opened Wrappers

  datatype Outcome<W> = Returned(world: W) | Raised(world: W)

  datatype StepDef<!W> = StepDef(
    maxRetries: nat,
    execute: (W, nat) -> Outcome<W>,
    compensate: Option<W -> Outcome<W>>)

  datatype Action = Execute(step: nat, attempt: nat) | Sleep(step: nat, millis: int) | Compensate(step: nat)

  datatype Env<W> = Env(world: W, trace: seq<Action>)

  datatype StepStatus = Pending | Running | Completed | Failed | Compensated

  function Backoff(attempt: nat): int {
    var delay := 1000 * Pow2(attempt);
    if delay <= 10000 then delay else 10000
  }

  lemma BackoffDoubles(attempt: nat)
    ensures Backoff(0) == 1000
    ensures Backoff(attempt + 1) == if 2 * Backoff(attempt) <= 10000 then 2 * Backoff(attempt) else 10000
  {
  }

  /** One step from attempt `a` on: the resulting environment, whether the step returned,
      and how many attempts raised. */
  function RunStep<W>(d: StepDef<W>, i: nat, e: Env<W>, a: nat): (Env<W>, bool, nat)
    requires a <= d.maxRetries
    decreases d.maxRetries - a
  {
    var outcome := d.execute(e.world, a);
    var e := Env(outcome.world, e.trace + [Execute(i, a)]);
    if outcome.Returned? then (e, true, 0)
    else if a < d.maxRetries then
      var (e, ok, raised) := RunStep(d, i, e.(trace := e.trace + [Sleep(i, Backoff(a))]), a + 1);
      (e, ok, raised + 1)
    else (e, false, 1)
  }

  /** The steps from `i` on, until one fails; returns the index of that step, or the
      number of steps. */
  function RunSteps<W>(ds: seq<StepDef<W>>, i: nat, e: Env<W>): (r: (Env<W>, nat))
    requires i <= |ds|
    ensures i <= r.1 <= |ds|
    decreases |ds| - i
  {
    if i == |ds| then (e, i) else
      var (e, ok, _) := RunStep(ds[i], i, e, 0);
      if ok then RunSteps(ds, i + 1, e) else (e, i)
  }

  /** `n` attempts in a row, the first numbered `a`, with a sleep after each but the last. */
  function Attempts(i: nat, a: nat, n: nat): seq<Action>
    requires n >= 1
    decreases n
  {
    if n == 1 then [Execute(i, a)] else [Execute(i, a), Sleep(i, Backoff(a))] + Attempts(i, a + 1, n - 1)
  }

  /** A step returns unless every attempt it is allowed raises; it makes no attempt after
      one that returned, and sleeps between attempts only. */
  lemma {:induction false} StepAttempts<W>(d: StepDef<W>, i: nat, e: Env<W>, a: nat)
    requires a <= d.maxRetries
    ensures var (e', ok, raised) := RunStep(d, i, e, a);
            && (ok <==> raised <= d.maxRetries - a)
            && raised <= d.maxRetries - a + 1
            && e'.trace == e.trace + Attempts(i, a, if ok then raised + 1 else raised)
    decreases d.maxRetries - a
  {
    hide Backoff;
    var outcome := d.execute(e.world, a);
    if outcome.Raised? && a < d.maxRetries {
      StepAttempts(d, i, Env(outcome.world, e.trace + [Execute(i, a)] + [Sleep(i, Backoff(a))]), a + 1);
    }
  }

  /** The world before attempt `b`, if every attempt from `a` on was made before it. */
  function WorldBefore<W>(d: StepDef<W>, w: W, a: nat, b: nat): W
    requires a <= b
    decreases b
  {
    if a == b then w else d.execute(WorldBefore(d, w, a, b - 1), b - 1).world
  }

  /** Attempt `b` returns, if every attempt from `a` on was made before it. */
  predicate ReturnsAt<W>(d: StepDef<W>, w: W, a: nat, b: nat)
    requires a <= b
  {
    d.execute(WorldBefore(d, w, a, b), b).Returned?
  }

  lemma {:induction false} WorldAfterFirst<W>(d: StepDef<W>, w: W, a: nat, b: nat)
    requires a < b
    ensures WorldBefore(d, w, a, b) == WorldBefore(d, d.execute(w, a).world, a + 1, b)
    decreases b
  {
    if a + 1 < b {
      WorldAfterFirst(d, w, a, b - 1);
    } else {
      assert WorldBefore(d, w, a, a) == w;
    }
  }

  /** What a step does, from what its attempts do: it returns if and only if one of its
      attempts does, after exactly those before it have raised, and leaves the world of its
      last attempt. */
  lemma {:induction false} StepOutcome<W>(d: StepDef<W>, i: nat, e: Env<W>, a: nat)
    requires a <= d.maxRetries
    ensures var (e', ok, raised) := RunStep(d, i, e, a);
            && (ok <==> exists b | a <= b <= d.maxRetries :: ReturnsAt(d, e.world, a, b))
            && (forall b | a <= b < a + raised :: !ReturnsAt(d, e.world, a, b))
            && (ok ==> a + raised <= d.maxRetries && ReturnsAt(d, e.world, a, a + raised)
                       && e'.world == WorldBefore(d, e.world, a, a + raised + 1))
            && (!ok ==> a + raised == d.maxRetries + 1 && e'.world == WorldBefore(d, e.world, a, d.maxRetries + 1))
    decreases d.maxRetries - a
  {
    hide Backoff;
    var outcome := d.execute(e.world, a);
    var w := outcome.world;
    assert WorldBefore(d, e.world, a, a) == e.world && WorldBefore(d, e.world, a, a + 1) == w;
    assert ReturnsAt(d, e.world, a, a) == outcome.Returned?;
    if outcome.Raised? && a < d.maxRetries {
      var e1 := Env(w, e.trace + [Execute(i, a)] + [Sleep(i, Backoff(a))]);
      StepOutcome(d, i, e1, a + 1);
      var (e', ok, raised) := RunStep(d, i, e1, a + 1);
      assert RunStep(d, i, e, a) == (e', ok, raised + 1);
      hide RunStep;
      forall b | a + 1 <= b <= d.maxRetries + 1
        ensures WorldBefore(d, e.world, a, b) == WorldBefore(d, w, a + 1, b)
        ensures ReturnsAt(d, e.world, a, b) == ReturnsAt(d, w, a + 1, b)
      {
        WorldAfterFirst(d, e.world, a, b);
      }
      hide WorldBefore, ReturnsAt;
      if ok {
        assert ReturnsAt(d, e.world, a, a + 1 + raised);
      }
    }
  }

  predicate Indices(order: seq<nat>, n: nat) {
    forall j | 0 <= j < |order| :: order[j] < n
  }

  /** The compensations of the steps in `order`; adds the steps they undid to `undone`.  A
      step without one is passed over, and a compensation that raises does not stop the rest. */
  function Undo<W>(ds: seq<StepDef<W>>, order: seq<nat>, e: Env<W>, undone: set<nat>): (Env<W>, set<nat>)
    requires Indices(order, |ds|)
  {
    if order == [] then (e, undone) else
      var (e, undone) := UndoStep(ds, order[0], e, undone);
      Undo(ds, order[1..], e, undone)
  }

  function UndoStep<W>(ds: seq<StepDef<W>>, i: nat, e: Env<W>, undone: set<nat>): (Env<W>, set<nat>)
    requires i < |ds|
  {
    match ds[i].compensate
    case None => (e, undone)
    case Some(compensate) =>
      var outcome := compensate(e.world);
      (Env(outcome.world, e.trace + [Compensate(i)]), if outcome.Returned? then undone + {i} else undone)
  }

  /** high - 1, high - 2, ..., low. */
  function Down(high: nat, low: nat): (r: seq<nat>)
    ensures forall i :: i in r <==> low <= i < high
    ensures |r| == if low <= high then high - low else 0
    ensures forall j | 0 <= j < |r| :: r[j] == high - 1 - j
  {
    if high <= low then [] else [high - 1] + Down(high - 1, low)
  }

  /** From environment envs[0] on, the steps i, ..., k-1 return, each in the environment that
      the one before it left. */
  ghost predicate IsChain<W>(ds: seq<StepDef<W>>, i: nat, envs: seq<Env<W>>, k: nat)
    requires i <= k <= |ds| && |envs| == k - i + 1
    decreases k - i
  {
    i == k || (RunStep(ds[i], i, envs[0], 0) == (envs[1], true, RunStep(ds[i], i, envs[0], 0).2)
               && IsChain(ds, i + 1, envs[1..], k))
  }

  /** The saga stops at the first step that fails, in the environment that it leaves. */
  lemma {:induction false} StopsWhereAStepFails<W>(ds: seq<StepDef<W>>, i: nat, e: Env<W>) returns (envs: seq<Env<W>>)
    requires i <= |ds|
    ensures var (e', k) := RunSteps(ds, i, e);
            && |envs| == k - i + 1 && envs[0] == e && IsChain(ds, i, envs, k)
            && (if k == |ds| then e' == envs[k - i]
                else !RunStep(ds[k], k, envs[k - i], 0).1 && e' == RunStep(ds[k], k, envs[k - i], 0).0)
    decreases |ds| - i
  {
    hide RunStep;
    if i == |ds| || !RunStep(ds[i], i, e, 0).1 {
      envs := [e];
    } else {
      var rest := StopsWhereAStepFails(ds, i + 1, RunStep(ds[i], i, e, 0).0);
      envs := [e] + rest;
      assert envs[1..] == rest;
    }
  }

  /** The world before the j-th compensation. */
  function UndoWorld<W>(ds: seq<StepDef<W>>, order: seq<nat>, w: W, j: nat): W
    requires Indices(order, |ds|) && j <= |order|
  {
    if j == 0 then w
    else
      var before := UndoWorld(ds, order, w, j - 1);
      match ds[order[j - 1]].compensate
      case None => before
      case Some(compensate) => compensate(before).world
  }

  /** The j-th compensation exists and returns. */
  predicate UndoReturns<W>(ds: seq<StepDef<W>>, order: seq<nat>, w: W, j: nat)
    requires Indices(order, |ds|) && j < |order|
  {
    && ds[order[j]].compensate.Some?
    && ds[order[j]].compensate.value(UndoWorld(ds, order, w, j)).Returned?
  }

  /** The steps of the order that have a compensation. */
  function Compensable<W>(ds: seq<StepDef<W>>, order: seq<nat>): (r: seq<nat>)
    requires Indices(order, |ds|)
  {
    if order == [] then [] else
      (if ds[order[0]].compensate.Some? then [order[0]] else []) + Compensable(ds, order[1..])
  }

  lemma {:induction false} UndoWorldAfterFirst<W>(ds: seq<StepDef<W>>, order: seq<nat>, w: W, j: nat)
    requires Indices(order, |ds|) && 0 < j <= |order|
    ensures UndoWorld(ds, order, w, j) == UndoWorld(ds, order[1..], UndoWorld(ds, order, w, 1), j - 1)
  {
    if j > 1 {
      UndoWorldAfterFirst(ds, order, w, j - 1);
    }
  }

  /** Every compensation there is gets called, in the given order, whatever the ones before
      it did; undone are the steps whose compensations returned. */
  lemma {:induction false} UndoCallsEach<W>(ds: seq<StepDef<W>>, order: seq<nat>, e: Env<W>, undone: set<nat>)
    requires Indices(order, |ds|)
    ensures var (end, after) := Undo(ds, order, e, undone);
            && end.trace == e.trace + Compensations(Compensable(ds, order))
            && end.world == UndoWorld(ds, order, e.world, |order|)
            && forall i :: i in after <==> i in undone || exists j | 0 <= j < |order| :: order[j] == i && UndoReturns(ds, order, e.world, j)
  {
    if order == [] {
      assert Compensations([]) == [];
    } else {
      var (e1, undone1) := UndoStep(ds, order[0], e, undone);
      var rest := order[1..];
      UndoCallsEach(ds, rest, e1, undone1);
      assert UndoWorld(ds, order, e.world, 0) == e.world && UndoWorld(ds, order, e.world, 1) == e1.world;
      forall j | 0 < j <= |order| ensures UndoWorld(ds, order, e.world, j) == UndoWorld(ds, rest, e1.world, j - 1) {
        UndoWorldAfterFirst(ds, order, e.world, j);
      }
      FirstCompensation(ds, order);
      UndoneStep(ds, order, e, undone);
    }
  }

  lemma CompensationsConcat(a: seq<nat>, b: seq<nat>)
    ensures Compensations(a + b) == Compensations(a) + Compensations(b)
  {
  }

  lemma FirstCompensation<W>(ds: seq<StepDef<W>>, order: seq<nat>)
    requires Indices(order, |ds|) && order != []
    ensures Compensations(Compensable(ds, order))
         == (if ds[order[0]].compensate.Some? then [Compensate(order[0])] else []) + Compensations(Compensable(ds, order[1..]))
  {
    var first := if ds[order[0]].compensate.Some? then [order[0]] else [];
    assert Compensable(ds, order) == first + Compensable(ds, order[1..]);
    hide Compensable;
    CompensationsConcat(first, Compensable(ds, order[1..]));
    assert Compensations(first) == if ds[order[0]].compensate.Some? then [Compensate(order[0])] else [];
  }

  lemma UndoneStep<W>(ds: seq<StepDef<W>>, order: seq<nat>, e: Env<W>, undone: set<nat>)
    requires Indices(order, |ds|) && order != []
    requires forall j | 0 < j <= |order| ::
               UndoWorld(ds, order, e.world, j) == UndoWorld(ds, order[1..], UndoStep(ds, order[0], e, undone).0.world, j - 1)
    ensures var (e1, undone1) := UndoStep(ds, order[0], e, undone);
            forall i ::
              (i in undone || exists j | 0 <= j < |order| :: order[j] == i && UndoReturns(ds, order, e.world, j))
              <==> (i in undone1 || exists j | 0 <= j < |order[1..]| :: order[1..][j] == i && UndoReturns(ds, order[1..], e1.world, j))
  {
    var (e1, undone1) := UndoStep(ds, order[0], e, undone);
    var rest := order[1..];
    assert UndoReturns(ds, order, e.world, 0) <==> order[0] in undone1 - undone || (order[0] in undone && UndoReturns(ds, order, e.world, 0));
    forall j | 0 <= j < |rest| ensures UndoReturns(ds, order, e.world, j + 1) == UndoReturns(ds, rest, e1.world, j) {
    }
    forall i
      ensures (i in undone || exists j | 0 <= j < |order| :: order[j] == i && UndoReturns(ds, order, e.world, j))
        <==> (i in undone1 || exists j | 0 <= j < |rest| :: rest[j] == i && UndoReturns(ds, rest, e1.world, j))
    {
      if j :| 0 <= j < |order| && order[j] == i && UndoReturns(ds, order, e.world, j) && j > 0 {
        assert rest[j - 1] == i && UndoReturns(ds, rest, e1.world, j - 1);
      }
      if j :| 0 <= j < |rest| && rest[j] == i && UndoReturns(ds, rest, e1.world, j) {
        assert order[j + 1] == i && UndoReturns(ds, order, e.world, j + 1);
      }
    }
  }

  // ---- Backward recovery ----

  /** A failed attempt changes nothing, and the compensation exists, returns, and undoes
      the step. */
  ghost predicate Reversible<W(!new)>(d: StepDef<W>) {
    && (forall w, a :: d.execute(w, a).Raised? ==> d.execute(w, a).world == w)
    && d.compensate.Some?
    && (forall w, a :: d.execute(w, a).Returned? ==> d.compensate.value(d.execute(w, a).world) == Returned(w))
  }

  ghost predicate AllReversible<W(!new)>(ds: seq<StepDef<W>>) {
    forall d | d in ds :: Reversible(d)
  }

  lemma {:induction false} StepIsUndone<W(!new)>(d: StepDef<W>, i: nat, e: Env<W>, a: nat)
    requires Reversible(d) && a <= d.maxRetries
    ensures var (e', ok, _) := RunStep(d, i, e, a);
            if ok then d.compensate.value(e'.world) == Returned(e.world) else e'.world == e.world
    decreases d.maxRetries - a
  {
    var outcome := d.execute(e.world, a);
    if outcome.Raised? && a < d.maxRetries {
      var e' := Env(outcome.world, e.trace + [Execute(i, a)] + [Sleep(i, Backoff(a))]);
      StepIsUndone(d, i, e', a + 1);
    }
  }

  lemma {:induction false} UndoConcat<W>(ds: seq<StepDef<W>>, a: seq<nat>, b: seq<nat>, e: Env<W>, undone: set<nat>)
    requires Indices(a, |ds|) && Indices(b, |ds|)
    ensures var (mid, undoneA) := Undo(ds, a, e, undone);
            Undo(ds, a + b, e, undone) == Undo(ds, b, mid, undoneA)
  {
    if a == [] {
      assert a + b == b;
    } else {
      assert (a + b)[1..] == a[1..] + b;
      var (e1, undone1) := UndoStep(ds, a[0], e, undone);
      UndoConcat(ds, a[1..], b, e1, undone1);
    }
  }

  function Compensations(order: seq<nat>): seq<Action> {
    seq(|order|, j requires 0 <= j < |order| => Compensate(order[j]))
  }

  function Steps(order: seq<nat>): set<nat> {
    set i | i in order
  }

  lemma DownSnoc(high: nat, low: nat)
    requires low < high
    ensures Down(high, low) == Down(high, low + 1) + [low]
  {
  }

  lemma {:induction false} UndoRestores<W(!new)>(ds: seq<StepDef<W>>, i: nat, e: Env<W>)
    requires AllReversible(ds) && i <= |ds|
    ensures var (e', k) := RunSteps(ds, i, e);
            var (end, undone) := Undo(ds, Down(k, i), e', {});
            && end.world == e.world
            && undone == Steps(Down(k, i))
            && end.trace == e'.trace + Compensations(Down(k, i))
    decreases |ds| - i
  {
    hide RunStep, Undo, Reversible;
    UndoNothing(ds, RunSteps(ds, i, e).0, {});
    if i < |ds| {
      var (e1, ok, _) := RunStep(ds[i], i, e, 0);
      StepIsUndone(ds[i], i, e, 0);
      assert ds[i].compensate.Some? by { HasCompensation(ds[i]); }
      if ok {
        UndoRestores(ds, i + 1, e1);
        var (e', k) := RunSteps(ds, i + 1, e1);
        var (mid, undone) := Undo(ds, Down(k, i + 1), e', {});
        DownSnoc(k, i);
        UndoConcat(ds, Down(k, i + 1), [i], e', {});
        UndoOne(ds, i, mid, undone);
        assert Steps(Down(k, i)) == Steps(Down(k, i + 1)) + {i};
        assert Compensations(Down(k, i)) == Compensations(Down(k, i + 1)) + [Compensate(i)];
      }
    }
  }

  lemma HasCompensation<W(!new)>(d: StepDef<W>)
    requires Reversible(d)
    ensures d.compensate.Some?
  {
  }

  lemma UndoNothing<W>(ds: seq<StepDef<W>>, e: Env<W>, undone: set<nat>)
    ensures Undo(ds, [], e, undone) == (e, undone)
    ensures e.trace + Compensations([]) == e.trace
  {
  }

  lemma UndoOne<W>(ds: seq<StepDef<W>>, i: nat, e: Env<W>, undone: set<nat>)
    requires i < |ds|
    ensures Undo(ds, [i], e, undone) == UndoStep(ds, i, e, undone)
  {
    assert [i][1..] == [];
    var (e1, undone1) := UndoStep(ds, i, e, undone);
    UndoNothing(ds, e1, undone1);
  }

  /** Atomicity.  If a sequential saga of reversible steps fails at step k, undoing the
      completed steps in reverse order calls the compensations of k-1, ..., 0, all of
      them succeed, and the world is back where it started. */
  lemma Atomicity<W(!new)>(ds: seq<StepDef<W>>, w: W)
    requires AllReversible(ds)
    ensures var (e, k) := RunSteps(ds, 0, Env(w, []));
            var (end, undone) := Undo(ds, Down(k, 0), e, {});
            && end.world == w
            && undone == Steps(Down(k, 0))
            && end.trace == e.trace + Compensations(Down(k, 0))
  {
    UndoRestores(ds, 0, Env(w, []));
  }

  /** The forward part of a trace: attempts and sleeps of steps in increasing order. */
  predicate Forward(trace: seq<Action>, from: nat, to: nat) {
    && (forall j | 0 <= j < |trace| :: !trace[j].Compensate? && from <= trace[j].step <= to)
    && (forall j, l | 0 <= j < l < |trace| :: trace[j].step <= trace[l].step)
  }

  lemma {:induction false} StepRunsForward<W>(d: StepDef<W>, i: nat, e: Env<W>, a: nat, from: nat)
    requires a <= d.maxRetries && Forward(e.trace, from, i) && from <= i
    ensures Forward(RunStep(d, i, e, a).0.trace, from, i)
    ensures Execute(i, a) in RunStep(d, i, e, a).0.trace
    ensures forall x | x in e.trace :: x in RunStep(d, i, e, a).0.trace
    decreases d.maxRetries - a
  {
    var outcome := d.execute(e.world, a);
    var e1 := Env(outcome.world, e.trace + [Execute(i, a)]);
    if outcome.Raised? && a < d.maxRetries {
      var e2 := e1.(trace := e1.trace + [Sleep(i, Backoff(a))]);
      assert e2.trace[|e.trace|] == Execute(i, a);
      StepRunsForward(d, i, e2, a + 1, from);
    }
  }

  /** Every step up to the failing one is attempted, no later one is, and in order. */
  lemma {:induction false} RunsInOrder<W>(ds: seq<StepDef<W>>, i: nat, e: Env<W>)
    requires i <= |ds| && Forward(e.trace, 0, i)
    ensures var (e', k) := RunSteps(ds, i, e);
            && Forward(e'.trace, 0, k)
            && (forall j | i <= j <= k && j < |ds| :: Execute(j, 0) in e'.trace)
            && (forall x | x in e.trace :: x in e'.trace)
    decreases |ds| - i
  {
    if i < |ds| {
      var (e1, ok, _) := RunStep(ds[i], i, e, 0);
      StepRunsForward(ds[i], i, e, 0, 0);
      if ok {
        RunsInOrder(ds, i + 1, e1);
      }
    }
  }

  // ---- Where atomicity stops ----

  /** low, low + 1, ..., high - 1. */
  function Up(low: nat, high: nat): (r: seq<nat>)
    ensures forall i :: i in r <==> low <= i < high
    ensures |r| == if low <= high then high - low else 0
    ensures forall j | 0 <= j < |r| :: r[j] == low + j
    decreases high - low
  {
    if high <= low then [] else [low] + Up(low + 1, high)
  }

  /** Undoing the steps first to last, as any compensation strategy but "reverse_order"
      does, restores the world of this saga. */
  ghost predicate InOrderRestores<W(!new)>(ds: seq<StepDef<W>>, w: W) {
    var (e, k) := RunSteps(ds, 0, Env(w, []));
    Undo(ds, Up(0, k), e, {}).0.world == w
  }

  /** It does so whenever at most one step has to be undone. */
  lemma AnyOrderRestoresOne<W(!new)>(ds: seq<StepDef<W>>, w: W)
    requires AllReversible(ds) && RunSteps(ds, 0, Env(w, [])).1 <= 1
    ensures InOrderRestores(ds, w)
  {
    hide Undo, RunSteps;
    Atomicity(ds, w);
    var k := RunSteps(ds, 0, Env(w, [])).1;
    assert Up(0, k) == Down(k, 0);
  }

  /** A step that changes nothing. */
  function Idle(): (d: StepDef<real>)
    ensures Reversible(d)
  {
    StepDef(0, (w: real, a: nat) => Returned(w), Some((w: real) => Returned(w)))
  }

  /** Add one, double, do nothing, and fail at step k. */
  function Arithmetic(k: nat): (ds: seq<StepDef<real>>)
    requires k >= 2
    ensures |ds| == k + 1 && AllReversible(ds)
    ensures forall i | 2 <= i < k :: ds[i] == Idle()
  {
    [ StepDef(0, (w: real, a: nat) => Returned(w + 1.0), Some((w: real) => Returned(w - 1.0))),
      StepDef(0, (w: real, a: nat) => Returned(w * 2.0), Some((w: real) => Returned(w / 2.0))) ]
    + seq(k - 2, _ => Idle())
    + [StepDef(0, (w: real, a: nat) => Raised(w), Some((w: real) => Returned(w)))]
  }

  lemma {:induction false} IdleStepsRun(k: nat, i: nat, e: Env<real>)
    requires 2 <= i <= k
    ensures var (e', n) := RunSteps(Arithmetic(k), i, e);
            n == k && e'.world == e.world
    decreases k - i
  {
    var ds := Arithmetic(k);
    var e1 := Env(e.world, e.trace + [Execute(i, 0)]);
    assert ds[i].maxRetries == 0;
    if i < k {
      assert RunStep(ds[i], i, e, 0) == (e1, true, 0);
      IdleStepsRun(k, i + 1, e1);
    } else {
      assert RunStep(ds[i], i, e, 0) == (e1, false, 1);
    }
  }

  lemma {:induction false} IdleStepsUndo(k: nat, i: nat, e: Env<real>, undone: set<nat>)
    requires 2 <= i <= k
    ensures Undo(Arithmetic(k), Up(i, k), e, undone).0.world == e.world
    decreases k - i
  {
    if i < k {
      var ds := Arithmetic(k);
      var (e1, undone1) := UndoStep(ds, i, e, undone);
      assert Up(i, k)[0] == i && Up(i, k)[1..] == Up(i + 1, k);
      IdleStepsUndo(k, i + 1, e1, undone1);
    }
  }

  /** For every k >= 2 there is a saga of reversible steps that fails at step k and whose
      world is not restored. */
  lemma OnlyReverseOrderRestores(k: nat)
    requires k >= 2
    ensures AllReversible(Arithmetic(k)) && RunSteps(Arithmetic(k), 0, Env(1.0, [])).1 == k
    ensures !InOrderRestores(Arithmetic(k), 1.0)
  {
    var ds := Arithmetic(k);
    var e1, e2 := Env(2.0, [] + [Execute(0, 0)]), Env(4.0, [] + [Execute(0, 0)] + [Execute(1, 0)]);
    assert RunStep(ds[0], 0, Env(1.0, []), 0) == (e1, true, 0);
    assert RunStep(ds[1], 1, e1, 0) == (e2, true, 0);
    IdleStepsRun(k, 2, e2);
    var (e3, n) := RunSteps(ds, 2, e2);
    assert RunSteps(ds, 1, e1) == (e3, k);
    assert RunSteps(ds, 0, Env(1.0, [])) == (e3, k);
    UndoFirstTwo(k, e3);
  }

  lemma UndoFirstTwo(k: nat, e: Env<real>)
    requires k >= 2
    ensures Undo(Arithmetic(k), Up(0, k), e, {}).0.world == (e.world - 1.0) / 2.0
  {
    var ds := Arithmetic(k);
    var (e1, u1) := UndoStep(ds, 0, e, {});
    var (e2, u2) := UndoStep(ds, 1, e1, u1);
    assert e1.world == e.world - 1.0 && e2.world == e1.world / 2.0;
    assert Up(0, k)[0] == 0 && Up(0, k)[1..] == Up(1, k);
    assert Up(1, k)[0] == 1 && Up(1, k)[1..] == Up(2, k);
    hide UndoStep, Arithmetic;
    IdleStepsUndo(k, 2, e2, u2);
  }

  /** Every saga of reversible steps over numbers that fails at step k. */
  ghost predicate InOrderIsSafe(k: nat) {
    forall ds: seq<StepDef<real>>, w: real | AllReversible(ds) && FailsAt(ds, w, k) :: InOrderRestores(ds, w)
  }

  ghost predicate FailsAt<W(!new)>(ds: seq<StepDef<W>>, w: W, k: nat) {
    k < |ds| && RunSteps(ds, 0, Env(w, [])).1 == k
  }

  /** A strategy other than "reverse_order" is safe if and only if at most one step had
      completed when the saga failed. */
  lemma InOrderIsSafeIff(k: nat)
    ensures InOrderIsSafe(k) <==> k <= 1
  {
    hide InOrderRestores, RunSteps, Undo;
    if k <= 1 {
      forall ds: seq<StepDef<real>>, w: real | AllReversible(ds) && FailsAt(ds, w, k) ensures InOrderRestores(ds, w) {
        AnyOrderRestoresOne(ds, w);
      }
    } else {
      OnlyReverseOrderRestores(k);
      assert FailsAt(Arithmetic(k), 1.0, k);
    }
  }
}
