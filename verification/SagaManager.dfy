/** The saga objects and the manager that runs them. */
module SagaManager {
  import opened Wrappers
  import opened Saga
  import L = SagaLedger

  class SagaStep<W> {
    const def: StepDef<W>
    var status: StepStatus
    var retryAttempts: nat

    constructor (def: StepDef<W>)
      ensures this.def == def && status == Pending && retryAttempts == 0
    {
      this.def := def;
      status, retryAttempts := Pending, 0;
    }
  }

  class SagaObject<W> {
    const sagaId: string
    const steps: seq<SagaStep<W>>
    const parallelExecution: bool
    const reverseOrder: bool
    var status: L.SagaStatus

    constructor (sagaId: string, steps: seq<SagaStep<W>>, parallelExecution: bool, reverseOrder: bool)
      ensures this.sagaId == sagaId && this.steps == steps && status == L.Pending
      ensures this.parallelExecution == parallelExecution && this.reverseOrder == reverseOrder
    {
      this.sagaId, this.steps := sagaId, steps;
      this.parallelExecution, this.reverseOrder := parallelExecution, reverseOrder;
      status := L.Pending;
    }
  }

  function Defs<W>(steps: seq<SagaStep<W>>): (ds: seq<StepDef<W>>)
    ensures |ds| == |steps|
  {
    seq(|steps|, i requires 0 <= i < |steps| => steps[i].def)
  }

  predicate Distinct<W>(steps: seq<SagaStep<W>>) {
    forall i, j | 0 <= i < j < |steps| :: steps[i] != steps[j]
  }

  /** The first `k` steps are completed, step `k` failed, the later ones have the given status. */
  predicate StoppedAt<W>(steps: seq<SagaStep<W>>, k: nat, later: StepStatus)
    reads steps
  {
    forall i | 0 <= i < |steps| ::
      steps[i].status == if i < k then Completed else if i == k then StepStatus.Failed else later
  }

  /** The indices, in order, of the completed steps among the first `n`. */
  function CompletedSteps<W>(steps: seq<SagaStep<W>>, n: nat): (r: seq<nat>)
    requires n <= |steps|
    reads steps
    ensures forall j | 0 <= j < |r| :: r[j] < n && steps[r[j]].status == Completed
    ensures forall i | 0 <= i < n && steps[i].status == Completed :: i in r
  {
    if n == 0 then [] else
      var r := CompletedSteps(steps, n - 1);
      if steps[n - 1].status == Completed then r + [n - 1] else r
  }

  function Reversed<T>(s: seq<T>): (r: seq<T>)
    ensures |r| == |s| && forall j | 0 <= j < |s| :: r[j] == s[|s| - 1 - j]
  {
    if s == [] then [] else [s[|s| - 1]] + Reversed(s[..|s| - 1])
  }

  /** The order in which a saga that stopped at step k undoes the steps before it:
      k-1, ..., 0 under the reverse-order strategy, 0, ..., k-1 under any other. */
  function UndoOrder(k: nat, reverseOrder: bool): (r: seq<nat>)
    ensures forall j | 0 <= j < |r| :: r[j] < k
  {
    if reverseOrder then Down(k, 0) else Up(0, k)
  }

  lemma {:induction false} CompletedInOrder<W>(steps: seq<SagaStep<W>>, k: nat, later: StepStatus, n: nat)
    requires StoppedAt(steps, k, later) && later != Completed && n <= |steps|
    ensures CompletedSteps(steps, n) == UndoOrder(if n <= k then n else k, false)
  {
    if n > 0 {
      CompletedInOrder(steps, k, later, n - 1);
    }
  }

  method ExecuteStepWithRetry<W>(step: SagaStep<W>, i: nat, e: Env<W>) returns (env: Env<W>, ok: bool)
    modifies step`retryAttempts
    ensures RunStep(step.def, i, e, 0) == (env, ok, step.retryAttempts - old(step.retryAttempts))
  {
    env := e;
    ghost var (finalEnv, finalOk, raised) := RunStep(step.def, i, e, 0);
    for attempt := 0 to step.def.maxRetries + 1
      invariant attempt <= step.def.maxRetries
      invariant step.retryAttempts == old(step.retryAttempts) + attempt && attempt <= raised
      invariant RunStep(step.def, i, env, attempt) == (finalEnv, finalOk, raised - attempt)
    {
      var outcome := step.def.execute(env.world, attempt);
      env := Env(outcome.world, env.trace + [Execute(i, attempt)]);
      if outcome.Returned? {
        return env, true;
      }
      step.retryAttempts := step.retryAttempts + 1;
      if attempt < step.def.maxRetries {
        env := env.(trace := env.trace + [Sleep(i, Backoff(attempt))]);
      } else {
        return env, false;
      }
    }
    assert false;
  }

  method ExecuteSequential<W>(saga: SagaObject<W>, e: Env<W>) returns (env: Env<W>, ok: bool)
    requires Distinct(saga.steps)
    requires forall i | 0 <= i < |saga.steps| :: saga.steps[i].status == Pending
    modifies saga.steps
    ensures var (finalEnv, k) := RunSteps(Defs(saga.steps), 0, e);
            env == finalEnv && ok == (k == |saga.steps|) && StoppedAt(saga.steps, k, Pending)
  {
    env := e;
    var steps := saga.steps;
    ghost var ds := Defs(steps);
    for i := 0 to |steps|
      invariant forall j | 0 <= j < |steps| :: steps[j].status == if j < i then Completed else Pending
      invariant RunSteps(ds, i, env) == RunSteps(ds, 0, e)
    {
      var step := steps[i];
      step.status := StepStatus.Running;
      env, ok := ExecuteStepWithRetry(step, i, env);
      if ok {
        step.status := Completed;
      } else {
        step.status := StepStatus.Failed;
        return env, false;
      }
    }
    return env, true;
  }

  /** The index of the first task that raised. */
  function FirstRaised(returned: seq<bool>): (k: nat)
    ensures k <= |returned|
    ensures forall i | 0 <= i < k :: returned[i]
    ensures k < |returned| ==> !returned[k]
  {
    if returned == [] || !returned[0] then 0 else 1 + FirstRaised(returned[1..])
  }

  /** The parallel mode starts every step, awaits the tasks in list order and stops at
      the first that raised: the later steps are left running. */
  method ExecuteParallel<W>(saga: SagaObject<W>, returned: seq<bool>) returns (ok: bool)
    requires Distinct(saga.steps) && |returned| == |saga.steps|
    modifies saga.steps
    ensures ok == (FirstRaised(returned) == |returned|)
    ensures StoppedAt(saga.steps, FirstRaised(returned), StepStatus.Running)
  {
    var steps := saga.steps;
    for i := 0 to |steps|
      invariant forall j | 0 <= j < i :: steps[j].status == StepStatus.Running
    {
      steps[i].status := StepStatus.Running;
    }
    for i := 0 to |steps|
      invariant i <= FirstRaised(returned)
      invariant forall j | 0 <= j < |steps| :: steps[j].status == if j < i then Completed else StepStatus.Running
    {
      if returned[i] {
        steps[i].status := Completed;
      } else {
        steps[i].status := StepStatus.Failed;
        return false;
      }
    }
    return true;
  }

  /** The order in which the completed steps are compensated. */
  function CompensationOrder<W>(saga: SagaObject<W>): (r: seq<nat>)
    reads saga.steps
    ensures Indices(r, |saga.steps|)
    ensures forall j | 0 <= j < |r| :: saga.steps[r[j]].status == Completed
  {
    var completed := CompletedSteps(saga.steps, |saga.steps|);
    if saga.reverseOrder then Reversed(completed) else completed
  }

  method CompensateStep<W>(step: SagaStep<W>, i: nat, e: Env<W>) returns (env: Env<W>, ok: bool)
    modifies step`status
    ensures if step.def.compensate.None? then env == e && !ok
            else var outcome := step.def.compensate.value(e.world);
                 env == Env(outcome.world, e.trace + [Compensate(i)]) && ok == outcome.Returned?
    ensures step.status == if ok then StepStatus.Compensated else old(step.status)
  {
    if step.def.compensate.None? {
      return e, false;
    }
    var outcome := step.def.compensate.value(e.world);
    if outcome.Returned? {
      step.status := StepStatus.Compensated;
    }
    return Env(outcome.world, e.trace + [Compensate(i)]), outcome.Returned?;
  }

  method CompensateAll<W>(steps: seq<SagaStep<W>>, order: seq<nat>, e: Env<W>)
    returns (env: Env<W>, ghost undone: set<nat>)
    requires Distinct(steps) && Indices(order, |steps|)
    modifies steps
    ensures (env, undone) == Undo(Defs(steps), order, e, {})
    ensures forall i | 0 <= i < |steps| ::
              steps[i].status == if i in undone then StepStatus.Compensated else old(steps[i].status)
  {
    hide Undo;
    ghost var ds := Defs(steps);
    env, undone := e, {};
    assert order[0..] == order;
    for j := 0 to |order|
      invariant Undo(ds, order[j..], env, undone) == Undo(ds, order, e, {})
      invariant forall i | 0 <= i < |steps| ::
                  steps[i].status == if i in undone then StepStatus.Compensated else old(steps[i].status)
    {
      UndoFrom(ds, order, j, env, undone);
      var ok;
      env, ok := CompensateStep(steps[order[j]], order[j], env);
      undone := if ok then undone + {order[j]} else undone;
    }
    assert order[|order|..] == [];
    UndoNothing(ds, env, undone);
  }

  lemma CompensatesInOrder<W>(saga: SagaObject<W>, k: nat, later: StepStatus)
    requires StoppedAt(saga.steps, k, later) && later != Completed && k <= |saga.steps|
    ensures CompensationOrder(saga) == UndoOrder(k, saga.reverseOrder)
  {
    CompletedInOrder(saga.steps, k, later, |saga.steps|);
    assert Reversed(UndoOrder(k, false)) == Down(k, 0);
  }

  method ExecuteCompensation<W>(saga: SagaObject<W>, e: Env<W>) returns (env: Env<W>, ghost undone: set<nat>)
    requires Distinct(saga.steps)
    modifies saga`status, saga.steps
    ensures (env, undone) == Undo(Defs(saga.steps), old(CompensationOrder(saga)), e, {})
    ensures forall i | 0 <= i < |saga.steps| ::
              saga.steps[i].status == if i in undone then StepStatus.Compensated else old(saga.steps[i].status)
  {
    var order := CompensationOrder(saga);
    saga.status := L.Compensating;
    env, undone := CompensateAll(saga.steps, order, e);
  }

  lemma UndoFrom<W>(ds: seq<StepDef<W>>, order: seq<nat>, j: nat, e: Env<W>, undone: set<nat>)
    requires Indices(order, |ds|) && j < |order|
    ensures var (env, undone') := UndoStep(ds, order[j], e, undone);
            Undo(ds, order[j..], e, undone) == Undo(ds, order[j + 1..], env, undone')
  {
    assert order[j..][0] == order[j] && order[j..][1..] == order[j + 1..];
  }

  /** Stopped at step k, with the given steps compensated. */
  predicate UndoneAt<W>(steps: seq<SagaStep<W>>, k: nat, undone: set<nat>, later: StepStatus)
    reads steps
  {
    forall i | 0 <= i < |steps| ::
      steps[i].status == if i in undone then StepStatus.Compensated
                         else if i < k then Completed
                         else if i == k then StepStatus.Failed
                         else later
  }

  /** How far a saga runs forward: the environment it reaches, the step that fails (or the
      number of steps), and the status of the steps after that one.  In the parallel mode
      `returned` says which tasks return, and `after` is the environment they leave when
      the first failure is seen, or at the end. */
  function Forwarded<W>(saga: SagaObject<W>, e: Env<W>, returned: seq<bool>, after: Env<W>): (Env<W>, nat, StepStatus)
  {
    if saga.parallelExecution then (after, FirstRaised(returned), StepStatus.Running)
    else
      var (env, k) := RunSteps(Defs(saga.steps), 0, e);
      (env, k, Pending)
  }

  /** A saga ended well, or it undid the steps before the failing one in its order. */
  ghost predicate Finished<W>(saga: SagaObject<W>, forward: (Env<W>, nat, StepStatus), env: Env<W>, ok: bool)
    reads saga.steps
  {
    var (reached, k, later) := forward;
    if k >= |saga.steps| then ok && env == reached && StoppedAt(saga.steps, k, later)
    else
      var (final, undone) := Undo(Defs(saga.steps), UndoOrder(k, saga.reverseOrder), reached, {});
      !ok && env == final && UndoneAt(saga.steps, k, undone, later)
  }

  method RunSaga<W>(saga: SagaObject<W>, e: Env<W>, returned: seq<bool>, after: Env<W>)
    returns (env: Env<W>, ok: bool)
    requires Distinct(saga.steps) && |returned| == |saga.steps|
    requires forall i | 0 <= i < |saga.steps| :: saga.steps[i].status == Pending
    modifies saga`status, saga.steps
    ensures Finished(saga, Forwarded(saga, e, returned, after), env, ok)
  {
    ghost var (_, k, later) := Forwarded(saga, e, returned, after);
    saga.status := L.Running;
    if saga.parallelExecution {
      env := after;
      ok := ExecuteParallel(saga, returned);
    } else {
      env, ok := ExecuteSequential(saga, e);
    }
    if !ok {
      CompensatesInOrder(saga, k, later);
      hide Undo, CompensationOrder, UndoOrder;
      ghost var undone;
      env, undone := ExecuteCompensation(saga, env);
    }
  }

  class Manager<W> {
    var activeSagas: map<string, SagaObject<W>>
    var completedSagas: map<string, SagaObject<W>>
    var totalCount: nat
    var completedCount: nat
    var failedCount: nat
    var compensatedCount: nat
    var activeCount: int
    ghost var running: map<L.ExecId, string>
    ghost var events: seq<L.Event>
    ghost var ledgers: seq<L.Ledger>

    ghost function View(): L.Ledger
      reads this
    {
      L.Ledger(activeSagas.Keys, completedSagas.Keys, running,
               totalCount, completedCount, failedCount, compensatedCount, activeCount)
    }

    ghost predicate Valid()
      reads this
    {
      L.IsRun(ledgers, events) && ledgers[|events|] == View()
    }

    constructor ()
      ensures Valid() && events == [] && activeSagas == map[] && completedSagas == map[] && running == map[]
    {
      activeSagas, completedSagas, running := map[], map[], map[];
      totalCount, completedCount, failedCount, compensatedCount, activeCount := 0, 0, 0, 0, 0;
      events, ledgers := [], [L.EMPTY];
    }

    /** One step of the run. */
    ghost method Log(before: L.Ledger, e: L.Event)
      requires L.IsRun(ledgers, events) && ledgers[|events|] == before
      requires L.Enabled(before, e) && View() == L.Step(before, e)
      modifies this`events, this`ledgers
      ensures Valid() && events == old(events) + [e] && View() == old(View())
    {
      L.RunSnoc(ledgers, events, e);
      events, ledgers := events + [e], ledgers + [L.Step(before, e)];
      hide L.IsRun, L.Step;
    }

    method CreateSaga(sagaId: string, steps: seq<SagaStep<W>>, parallelExecution: bool, reverseOrder: bool)
      returns (saga: SagaObject<W>)
      requires Valid()
      modifies this
      ensures Valid() && events == old(events) + [L.Create(sagaId)]
      ensures fresh(saga) && saga.sagaId == sagaId && saga.steps == steps && saga.status == L.Pending
      ensures saga.parallelExecution == parallelExecution && saga.reverseOrder == reverseOrder
      ensures activeSagas == old(activeSagas)[sagaId := saga] && completedSagas == old(completedSagas)
      ensures running == old(running)
    {
      saga := new SagaObject(sagaId, steps, parallelExecution, reverseOrder);
      ghost var before := View();
      activeSagas := activeSagas[sagaId := saga];
      totalCount := totalCount + 1;
      activeCount := activeCount + 1;
      Log(before, L.Create(sagaId));
    }

    /** The lookup at the beginning of `execute_saga`; null is the ValueError for an unknown id. */
    method StartSaga(ghost x: L.ExecId, sagaId: string) returns (saga: SagaObject?<W>)
      requires Valid() && x !in running
      modifies this`running, this`events, this`ledgers
      ensures Valid() && (saga == null <==> sagaId !in activeSagas)
      ensures saga == null ==> View() == old(View()) && events == old(events)
      ensures saga != null ==>
                && saga == activeSagas[sagaId] && running == old(running)[x := sagaId]
                && events == old(events) + [L.Start(x, sagaId)]
    {
      if sagaId !in activeSagas {
        return null;
      }
      ghost var before := View();
      saga := activeSagas[sagaId];
      running := running[x := sagaId];
      Log(before, L.Start(x, sagaId));
    }

    /** `execute_saga` after the run of the saga, including its except branch; `raised` is the
        KeyError that comes out of it.  Another execution may have removed the id meanwhile. */
    method FinishSaga(ghost x: L.ExecId, sagaId: string, saga: SagaObject<W>, outcome: L.Outcome) returns (raised: bool)
      requires Valid() && x in running && running[x] == sagaId
      modifies this, saga`status
      ensures Valid() && events == old(events) + [L.Finish(x, outcome)]
      ensures View() == L.Step(old(View()), L.Finish(x, outcome))
      ensures raised == L.IsGone(old(View()), x) == (sagaId !in old(activeSagas))
      ensures saga.status == L.EndStatus(old(View()), x, outcome)
      ensures activeSagas == old(activeSagas) - {sagaId} && completedSagas == old(completedSagas)[sagaId := saga]
    {
      hide L.IsRun;
      ghost var before := View();
      raised := true;
      if outcome != L.Escaped {
        raised := FileSaga(sagaId, saga, if outcome == L.Succeeded then L.Completed else L.Compensated);
      }
      if raised {
        raised := FileSaga(sagaId, saga, L.Failed);
      }
      running := running - {x};
      assert activeSagas.Keys == before.active - {sagaId};
      assert completedSagas.Keys == before.finished + {sagaId};
      assert View() == L.Step(before, L.Finish(x, outcome));
      Log(before, L.Finish(x, outcome));
    }

    /** One of the three places where a saga is filed: status, maps, and then the counters,
        which are not reached if removing the id raises. */
    method FileSaga(sagaId: string, saga: SagaObject<W>, status: L.SagaStatus) returns (raised: bool)
      requires status.Completed? || status.Compensated? || status.Failed?
      modifies this`activeSagas, this`completedSagas, this`completedCount, this`failedCount, this`compensatedCount,
               this`activeCount, saga`status
      ensures raised <==> sagaId !in old(activeSagas)
      ensures saga.status == status
      ensures activeSagas == old(activeSagas) - {sagaId} && completedSagas == old(completedSagas)[sagaId := saga]
      ensures activeCount == old(activeCount) - if raised then 0 else 1
      ensures completedCount == old(completedCount) + if !raised && status.Completed? then 1 else 0
      ensures compensatedCount == old(compensatedCount) + if !raised && status.Compensated? then 1 else 0
      ensures failedCount == old(failedCount) + if !raised && status.Failed? then 1 else 0
    {
      saga.status := status;
      completedSagas := completedSagas[sagaId := saga];
      if sagaId !in activeSagas {
        return true;
      }
      activeSagas := activeSagas - {sagaId};
      if status == L.Completed {
        completedCount := completedCount + 1;
      } else if status == L.Compensated {
        compensatedCount := compensatedCount + 1;
      } else {
        failedCount := failedCount + 1;
      }
      activeCount := activeCount - 1;
      return false;
    }

    /** `execute_saga` from beginning to end when no other execution moves meanwhile; None is
        the ValueError for an unknown id. */
    method ExecuteSaga(ghost x: L.ExecId, sagaId: string, e: Env<W>, returned: seq<bool>, after: Env<W>)
      returns (env: Env<W>, success: Option<bool>)
      requires Valid() && x !in running
      requires sagaId in activeSagas ==>
                 var saga := activeSagas[sagaId];
                 && Distinct(saga.steps) && |returned| == |saga.steps|
                 && (forall i | 0 <= i < |saga.steps| :: saga.steps[i].status == Pending)
      modifies this,
               (if sagaId in activeSagas then {activeSagas[sagaId]} else {}),
               (if sagaId in activeSagas then activeSagas[sagaId].steps else [])
      ensures Valid() && failedCount == old(failedCount) && running == old(running)
      ensures success.None? <==> sagaId !in old(activeSagas)
      ensures success.None? ==> env == e && View() == old(View()) && events == old(events)
      ensures success.Some? ==>
                var saga, outcome := old(activeSagas[sagaId]), if success.value then L.Succeeded else L.Undone;
                && completedSagas == old(completedSagas)[sagaId := saga] && activeSagas == old(activeSagas) - {sagaId}
                && saga.status == (if success.value then L.Completed else L.Compensated)
                && events == old(events) + [L.Start(x, sagaId)] + [L.Finish(x, outcome)]
                && Finished(saga, Forwarded(saga, e, returned, after), env, success.value)
    {
      hide Finished, Forwarded, L.IsRun, Distinct;
      var saga := StartSaga(x, sagaId);
      if saga == null {
        return e, None;
      }
      var ok;
      env, ok := RunSaga(saga, e, returned, after);
      var raised := FinishSaga(x, sagaId, saga, if ok then L.Succeeded else L.Undone);
      success := Some(ok);
      assert running == old(running);
    }
  }

  /** A failed parallel saga leaves every step after the failing one running: whatever
      its task does, it is not among the steps that are undone. */
  lemma ParallelLeavesLaterStepsRunning<W>(
    saga: SagaObject<W>, e: Env<W>, returned: seq<bool>, after: Env<W>, env: Env<W>, i: nat)
    requires saga.parallelExecution && |returned| == |saga.steps|
    requires Finished(saga, Forwarded(saga, e, returned, after), env, false)
    requires FirstRaised(returned) < i < |saga.steps|
    ensures saga.steps[i].status == StepStatus.Running
  {
    var k := FirstRaised(returned);
    UndoesOnly(Defs(saga.steps), UndoOrder(k, saga.reverseOrder), after, {}, i);
  }

  lemma {:induction false} UndoesOnly<W>(ds: seq<StepDef<W>>, order: seq<nat>, e: Env<W>, undone: set<nat>, i: nat)
    requires Indices(order, |ds|) && i !in order && i !in undone
    ensures i !in Undo(ds, order, e, undone).1
  {
    if order != [] {
      var (e1, undone1) := UndoStep(ds, order[0], e, undone);
      UndoesOnly(ds, order[1..], e1, undone1, i);
    }
  }

  /** What a failed sequential saga of reversible steps leaves behind: every step before
      the failing one compensated, every step after it untouched, the world restored. */
  lemma FailedSagaLeavesNoTrace<W(!new)>(saga: SagaObject<W>, w: W, returned: seq<bool>, after: Env<W>, env: Env<W>)
    requires !saga.parallelExecution && saga.reverseOrder && AllReversible(Defs(saga.steps))
    requires Finished(saga, Forwarded(saga, Env(w, []), returned, after), env, false)
    ensures env.world == w
    ensures var k := RunSteps(Defs(saga.steps), 0, Env(w, [])).1;
            forall i | 0 <= i < |saga.steps| ::
              saga.steps[i].status == if i < k then StepStatus.Compensated
                                      else if i == k then StepStatus.Failed else Pending
  {
    Atomicity(Defs(saga.steps), w);
  }
}
