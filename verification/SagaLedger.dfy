/** What the saga manager counts: its two maps, by their ids, and its metrics.

    `execute_saga` looks its saga up, runs it, and files it at the end.  Executions overlap,
    and nothing stops two of them from working under the same id; `running` says which id
    each execution looked up. */
module SagaLedger {
  datatype SagaStatus = Pending | Running | Completed | Compensating | Compensated | Failed

  type ExecId = nat

  datatype Ledger = Ledger(
    active: set<string>, finished: set<string>, running: map<ExecId, string>,
    total: nat, completedCount: nat, failedCount: nat, compensatedCount: nat, activeCount: int)

  const EMPTY := Ledger({}, {}, map[], 0, 0, 0, 0, 0)

  /** How the run of a saga ends: its steps all return, one fails and the others are undone,
      or something that is neither a step nor a compensation raises. */
  datatype Outcome = Succeeded | Undone | Escaped

  datatype Event = Create(id: string) | Start(exec: ExecId, id: string) | Finish(exec: ExecId, outcome: Outcome)

  /** An execution starts if its lookup succeeds, and finishes once. */
  predicate Enabled(l: Ledger, e: Event) {
    match e
    case Create(_) => true
    case Start(x, id) => x !in l.running && id in l.active
    case Finish(x, _) => x in l.running
  }

  /** Removing the saga from the active map raises a KeyError: the id is gone. */
  predicate IsGone(l: Ledger, x: ExecId)
    requires x in l.running
  {
    l.running[x] !in l.active
  }

  /** The status in which an execution leaves its saga. */
  function EndStatus(l: Ledger, x: ExecId, outcome: Outcome): SagaStatus
    requires x in l.running
  {
    if outcome.Escaped? || IsGone(l, x) then Failed else if outcome.Succeeded? then Completed else Compensated
  }

  /** Filing a saga.  If the id is gone, the first KeyError leads to the except branch, and a
      second one out of it before any counter is changed. */
  function Filing(l: Ledger, x: ExecId, outcome: Outcome): Ledger
    requires x in l.running
  {
    var id := l.running[x];
    var l := l.(finished := l.finished + {id}, running := l.running - {x});
    if id !in l.active then l
    else
      var l := l.(active := l.active - {id}, activeCount := l.activeCount - 1);
      match outcome
      case Succeeded => l.(completedCount := l.completedCount + 1)
      case Undone => l.(compensatedCount := l.compensatedCount + 1)
      case Escaped => l.(failedCount := l.failedCount + 1)
  }

  /** Creation does not look whether the id is taken. */
  function Step(l: Ledger, e: Event): Ledger
    requires Enabled(l, e)
  {
    match e
    case Create(id) => l.(active := l.active + {id}, total := l.total + 1, activeCount := l.activeCount + 1)
    case Start(x, id) => l.(running := l.running[x := id])
    case Finish(x, outcome) => Filing(l, x, outcome)
  }

  ghost predicate IsRun(ls: seq<Ledger>, es: seq<Event>) {
    && |ls| == |es| + 1
    && ls[0] == EMPTY
    && (forall k {:trigger es[k]} | 0 <= k < |es| :: Enabled(ls[k], es[k]) && ls[k + 1] == Step(ls[k], es[k]))
  }

  lemma RunStep(ls: seq<Ledger>, es: seq<Event>, k: nat)
    requires IsRun(ls, es) && k < |es|
    ensures |ls| == |es| + 1 && Enabled(ls[k], es[k]) && ls[k + 1] == Step(ls[k], es[k])
  {
    hide Step, Enabled;
    var e := es[k];
  }

  lemma RunSnoc(ls: seq<Ledger>, es: seq<Event>, e: Event)
    requires IsRun(ls, es) && Enabled(ls[|es|], e)
    ensures IsRun(ls + [Step(ls[|es|], e)], es + [e])
  {
    hide Step, Enabled;
  }

  // ---- Metrics and maps ----

  /** How many creations reused the id of a saga that was still active. */
  function Overwrites(ls: seq<Ledger>, es: seq<Event>, k: nat): nat
    requires k <= |es| <= |ls|
  {
    if k == 0 then 0
    else Overwrites(ls, es, k - 1) + if es[k - 1].Create? && es[k - 1].id in ls[k - 1].active then 1 else 0
  }

  /** Whether every id is created once. */
  predicate CreatedOnce(es: seq<Event>) {
    forall i, j | 0 <= i < j < |es| && es[i].Create? && es[j].Create? :: es[i].id != es[j].id
  }

  lemma StepAddsUp(l: Ledger, e: Event)
    requires Enabled(l, e)
    ensures var m := Step(l, e);
            && m.total - m.activeCount - m.completedCount - m.compensatedCount - m.failedCount
            == l.total - l.activeCount - l.completedCount - l.compensatedCount - l.failedCount
            && m.activeCount - |m.active|
            == l.activeCount - |l.active| + if e.Create? && e.id in l.active then 1 else 0
  {
    if e.Create? {
      assert e.id in l.active ==> l.active + {e.id} == l.active;
    }
  }

  /** The metrics always add up; the active counter exceeds the active map by exactly
      the number of sagas that were overwritten. */
  lemma {:induction false} MetricsAddUp(ls: seq<Ledger>, es: seq<Event>, k: nat)
    requires IsRun(ls, es) && k <= |es|
    ensures ls[k].total == ls[k].activeCount + ls[k].completedCount + ls[k].compensatedCount + ls[k].failedCount
    ensures ls[k].activeCount == |ls[k].active| + Overwrites(ls, es, k)
  {
    if k > 0 {
      RunStep(ls, es, k - 1);
      hide IsRun, Step, Enabled;
      MetricsAddUp(ls, es, k - 1);
      StepAddsUp(ls[k - 1], es[k - 1]);
    }
  }

  /** How many executions have finished with the outcome and found their saga in the active map. */
  function Finishes(ls: seq<Ledger>, es: seq<Event>, outcome: Outcome, k: nat): nat
    requires k <= |es| <= |ls|
  {
    if k == 0 then 0 else Finishes(ls, es, outcome, k - 1) + if IsFiled(ls[k - 1], es[k - 1], outcome) then 1 else 0
  }

  predicate IsFiled(l: Ledger, e: Event, outcome: Outcome) {
    e.Finish? && e.outcome == outcome && e.exec in l.running && !IsGone(l, e.exec)
  }

  function Creations(es: seq<Event>, k: nat): nat
    requires k <= |es|
  {
    if k == 0 then 0 else Creations(es, k - 1) + if es[k - 1].Create? then 1 else 0
  }

  function CounterOf(l: Ledger, outcome: Outcome): nat {
    match outcome
    case Succeeded => l.completedCount
    case Undone => l.compensatedCount
    case Escaped => l.failedCount
  }

  lemma StepFiles(l: Ledger, e: Event, outcome: Outcome)
    requires Enabled(l, e)
    ensures CounterOf(Step(l, e), outcome) == CounterOf(l, outcome) + if IsFiled(l, e, outcome) then 1 else 0
    ensures Step(l, e).total == l.total + if e.Create? then 1 else 0
  {
  }

  /** Each counter is the number of the events it is named after: completed_sagas of the
      executions whose steps all returned, compensated_sagas of those that were undone,
      failed_sagas of those from which something escaped, total_sagas of the creations. */
  lemma {:induction false} CountersAreHistory(ls: seq<Ledger>, es: seq<Event>, outcome: Outcome, k: nat)
    requires IsRun(ls, es) && k <= |es|
    ensures |es| < |ls| && CounterOf(ls[k], outcome) == Finishes(ls, es, outcome, k)
    ensures ls[k].total == Creations(es, k)
  {
    hide Step, Enabled, IsFiled, CounterOf;
    if k > 0 {
      RunStep(ls, es, k - 1);
      CountersAreHistory(ls, es, outcome, k - 1);
      StepFiles(ls[k - 1], es[k - 1], outcome);
    } else {
      CounterOfEmpty(outcome);
    }
  }

  lemma CounterOfEmpty(outcome: Outcome)
    ensures CounterOf(EMPTY, outcome) == 0 && EMPTY.total == 0
  {
  }

  /** The failed counter counts escaping exceptions only, never a KeyError. */
  lemma {:induction false} OnlyEscapesAreCounted(ls: seq<Ledger>, es: seq<Event>, k: nat)
    requires IsRun(ls, es) && k <= |es|
    requires forall j | 0 <= j < k && es[j].Finish? :: !es[j].outcome.Escaped?
    ensures ls[k].failedCount == 0
  {
    if k > 0 {
      OnlyEscapesAreCounted(ls, es, k - 1);
      RunStep(ls, es, k - 1);
    }
  }

  /** The id is in one of the maps, or some execution works under it. */
  ghost predicate IsKnown(l: Ledger, id: string) {
    id in l.active || id in l.finished || exists x :: x in l.running && l.running[x] == id
  }

  predicate WasCreated(es: seq<Event>, id: string, k: nat)
    requires k <= |es|
  {
    exists j | 0 <= j < k :: es[j] == Create(id)
  }

  lemma StepKnows(l: Ledger, e: Event, id: string)
    requires Enabled(l, e)
    ensures IsKnown(Step(l, e), id) ==> IsKnown(l, id) || e == Create(id)
    ensures id in l.active + l.finished || e == Create(id) ==> id in Step(l, e).active + Step(l, e).finished
  {
  }

  lemma {:induction false} KnownIdsWereCreated(ls: seq<Ledger>, es: seq<Event>, id: string, k: nat)
    requires IsRun(ls, es) && k <= |es| && IsKnown(ls[k], id)
    ensures WasCreated(es, id, k)
  {
    if k > 0 {
      RunStep(ls, es, k - 1);
      StepKnows(ls[k - 1], es[k - 1], id);
      hide IsRun, Step, Enabled, IsKnown;
      if es[k - 1] != Create(id) {
        KnownIdsWereCreated(ls, es, id, k - 1);
      }
    }
  }

  /** A saga once created stays in one of the maps. */
  lemma {:induction false} CreatedIdsStay(ls: seq<Ledger>, es: seq<Event>, id: string, k: nat)
    requires IsRun(ls, es) && k <= |es| && WasCreated(es, id, k)
    ensures id in ls[k].active + ls[k].finished
  {
    RunStep(ls, es, k - 1);
    StepKnows(ls[k - 1], es[k - 1], id);
    hide IsRun, Step, Enabled;
    if es[k - 1] != Create(id) {
      CreatedIdsStay(ls, es, id, k - 1);
    }
  }

  lemma StepKeepsDisjoint(l: Ledger, e: Event)
    requires Enabled(l, e)
    ensures !e.Create? && l.active !! l.finished ==> Step(l, e).active !! Step(l, e).finished
    ensures e.Create? ==> (Step(l, e).active !! Step(l, e).finished <==> l.active !! l.finished && e.id !in l.finished)
  {
  }

  predicate Agree(l: Ledger) {
    l.active !! l.finished && l.activeCount == |l.active|
  }

  /** In every interleaving of sagas with distinct ids, however many executors they have, the
      two maps are disjoint and the active counter is the size of the active map. */
  lemma {:induction false} MapsAndCountersAgree(ls: seq<Ledger>, es: seq<Event>, k: nat)
    requires IsRun(ls, es) && CreatedOnce(es) && k <= |es|
    ensures Agree(ls[k])
  {
    if k > 0 {
      MapsAndCountersAgree(ls, es, k - 1);
      RunStep(ls, es, k - 1);
      var l, e := ls[k - 1], es[k - 1];
      if e.Create? && IsKnown(l, e.id) {
        KnownIdsWereCreated(ls, es, e.id, k - 1);
        assert false;
      }
      hide IsRun, Step, CreatedOnce;
      StepAddsUp(l, e);
      StepKeepsDisjoint(l, e);
    }
  }

  /** Reusing an id breaks exactly this: the maps stay disjoint if and only if the id is
      not a finished one, the counter stays right if and only if it is not an active one. */
  lemma ReusingAnId(l: Ledger, id: string)
    ensures var l' := Step(l, Create(id));
            && (l'.active !! l'.finished <==> l.active !! l.finished && id !in l.finished)
            && (l.activeCount == |l.active| ==> (l'.activeCount == |l'.active| <==> id !in l.active))
  {
    assert id in l.active ==> l.active + {id} == l.active;
  }

  /** Throughout a run the maps are disjoint and the counter is right if and only if no id
      is created twice. */
  lemma AgreeIffCreatedOnce(ls: seq<Ledger>, es: seq<Event>)
    requires IsRun(ls, es)
    ensures (forall k | 0 <= k <= |es| :: Agree(ls[k])) <==> CreatedOnce(es)
  {
    if CreatedOnce(es) {
      forall k | 0 <= k <= |es| ensures Agree(ls[k]) {
        MapsAndCountersAgree(ls, es, k);
      }
    } else {
      var i, j :| 0 <= i < j < |es| && es[i].Create? && es[j].Create? && es[i].id == es[j].id;
      assert WasCreated(es, es[j].id, j);
      CreatedIdsStay(ls, es, es[j].id, j);
      RunStep(ls, es, j);
      ReusingAnId(ls[j], es[j].id);
      hide IsRun, Step, CreatedOnce;
      assert !Agree(ls[j]) || !Agree(ls[j + 1]);
    }
  }

  // ---- When a saga ends FAILED ----

  /** Event `j` is the end of an execution under the id. */
  predicate Ends(ls: seq<Ledger>, es: seq<Event>, j: nat, id: string)
    requires j < |es| < |ls|
  {
    es[j].Finish? && es[j].exec in ls[j].running && ls[j].running[es[j].exec] == id
  }

  /** Between the events `s` and `k` an execution under the id has ended, and the id has not
      been created again since. */
  predicate WasTaken(ls: seq<Ledger>, es: seq<Event>, id: string, s: nat, k: nat)
    requires k <= |es| < |ls|
  {
    exists j | s <= j < k :: Ends(ls, es, j, id) && !CreatedBetween(es, id, j, k)
  }

  predicate CreatedBetween(es: seq<Event>, id: string, j: nat, k: nat)
    requires k <= |es|
  {
    exists i | j < i < k :: es[i] == Create(id)
  }

  lemma StepKeepsActive(l: Ledger, e: Event, id: string)
    requires Enabled(l, e)
    ensures id in Step(l, e).active <==>
              e == Create(id) || (id in l.active && !(e.Finish? && l.running[e.exec] == id))
  {
  }

  lemma TakenStep(ls: seq<Ledger>, es: seq<Event>, id: string, s: nat, k: nat)
    requires s <= k < |es| < |ls|
    ensures WasTaken(ls, es, id, s, k + 1) <==>
              Ends(ls, es, k, id) || (WasTaken(ls, es, id, s, k) && es[k] != Create(id))
  {
    hide Ends;
    forall j | s <= j < k ensures CreatedBetween(es, id, j, k + 1) <==> CreatedBetween(es, id, j, k) || es[k] == Create(id) {
    }
    assert !CreatedBetween(es, id, k, k + 1);
    if WasTaken(ls, es, id, s, k + 1) {
      var j :| s <= j < k + 1 && Ends(ls, es, j, id) && !CreatedBetween(es, id, j, k + 1);
    }
    if WasTaken(ls, es, id, s, k) && es[k] != Create(id) {
      var j :| s <= j < k && Ends(ls, es, j, id) && !CreatedBetween(es, id, j, k);
      assert !CreatedBetween(es, id, j, k + 1);
    }
    hide CreatedBetween;
  }

  lemma {:induction false} GoneIffTaken(ls: seq<Ledger>, es: seq<Event>, id: string, s: nat, k: nat)
    requires IsRun(ls, es) && s <= k <= |es| && id in ls[s].active
    ensures id !in ls[k].active <==> WasTaken(ls, es, id, s, k)
  {
    assert |ls| == |es| + 1;
    if s < k {
      RunStep(ls, es, k - 1);
      hide IsRun, WasTaken, Step;
      GoneIffTaken(ls, es, id, s, k - 1);
      StepKeepsActive(ls[k - 1], es[k - 1], id);
      TakenStep(ls, es, id, s, k - 1);
    }
  }

  /** Some execution under the id has ended before event `k`. */
  predicate HasEnded(ls: seq<Ledger>, es: seq<Event>, id: string, k: nat)
    requires k <= |es| < |ls|
  {
    exists j | 0 <= j < k :: Ends(ls, es, j, id)
  }

  /** A saga is in the map of finished sagas if and only if an execution under its id has
      ended, however it did. */
  lemma {:induction false} FinishedIff(ls: seq<Ledger>, es: seq<Event>, id: string, k: nat)
    requires IsRun(ls, es) && k <= |es|
    ensures |es| < |ls| && (id in ls[k].finished <==> HasEnded(ls, es, id, k))
  {
    if k > 0 {
      RunStep(ls, es, k - 1);
      hide IsRun;
      FinishedIff(ls, es, id, k - 1);
      var l, e := ls[k - 1], es[k - 1];
      assert id in ls[k].finished <==> id in l.finished || (e.Finish? && l.running[e.exec] == id);
      hide Step, Enabled;
      assert Ends(ls, es, k - 1, id) ==> HasEnded(ls, es, id, k);
    }
  }

  /** Where an execution that is running started. */
  lemma {:induction false} StartOf(ls: seq<Ledger>, es: seq<Event>, x: ExecId, k: nat) returns (s: nat)
    requires IsRun(ls, es) && k <= |es| && x in ls[k].running
    ensures s < k && es[s] == Start(x, ls[k].running[x]) && es[s].id in ls[s].active
    ensures forall j | s < j < k && es[j].Finish? :: es[j].exec != x
    ensures forall j | s < j < k && es[j].Start? :: es[j].exec != x
  {
    if k > 0 {
      RunStep(ls, es, k - 1);
      if es[k - 1] == Start(x, ls[k].running[x]) {
        s := k - 1;
      } else {
        s := StartOf(ls, es, x, k - 1);
      }
    }
  }

  /** In every interleaving of creations and executions: an execution whose exceptions, if
      any, come from its steps and compensations ends FAILED if and only if, since it
      started at `s`, another execution under the same id has ended and the id has not been
      created again. */
  lemma FailsIff(ls: seq<Ledger>, es: seq<Event>, k: nat) returns (s: nat)
    requires IsRun(ls, es) && k < |es| && es[k].Finish?
    ensures s < k && es[k].exec in ls[k].running && es[s] == Start(es[k].exec, ls[k].running[es[k].exec])
    ensures forall j | s < j < k && es[j].Finish? :: es[j].exec != es[k].exec
    ensures EndStatus(ls[k], es[k].exec, es[k].outcome).Failed? <==>
              es[k].outcome.Escaped? || WasTaken(ls, es, es[s].id, s, k)
    ensures !EndStatus(ls[k], es[k].exec, es[k].outcome).Failed? ==>
              (EndStatus(ls[k], es[k].exec, es[k].outcome) ==
               if es[k].outcome.Succeeded? then Completed else Compensated)
  {
    RunStep(ls, es, k);
    s := StartOf(ls, es, es[k].exec, k);
    hide WasTaken, IsRun;
    GoneIffTaken(ls, es, es[s].id, s, k);
  }

  /** Whether no two executions start under the same id. */
  predicate StartedOnce(es: seq<Event>) {
    forall i, j | 0 <= i < j < |es| && es[i].Start? && es[j].Start? :: es[i].id != es[j].id
  }

  /** With one executor for each id no saga ends FAILED, whatever its steps and compensations
      raise, and no KeyError is raised. */
  lemma OneExecutorNeverFails(ls: seq<Ledger>, es: seq<Event>, k: nat)
    requires IsRun(ls, es) && StartedOnce(es) && k < |es| && es[k].Finish?
    ensures es[k].exec in ls[k].running && !IsGone(ls[k], es[k].exec)
    ensures EndStatus(ls[k], es[k].exec, es[k].outcome).Failed? <==> es[k].outcome.Escaped?
  {
    RunStep(ls, es, k);
    var s := StartOf(ls, es, es[k].exec, k);
    var id := es[s].id;
    GoneIffTaken(ls, es, id, s, k);
    if WasTaken(ls, es, id, s, k) {
      var j :| s <= j < k && Ends(ls, es, j, id);
      var i := StartOf(ls, es, es[j].exec, j);
      assert false;
    }
  }

  /** Two executions of one saga: both run to the end, and the second leaves it FAILED. */
  lemma SecondExecutorFails(id: string) returns (ls: seq<Ledger>, es: seq<Event>)
    ensures IsRun(ls, es) && |es| == 5 && CreatedOnce(es)
    ensures es[3] == Finish(0, Succeeded) && EndStatus(ls[3], 0, Succeeded) == Completed
    ensures es[4] == Finish(1, Succeeded) && 1 in ls[4].running && EndStatus(ls[4], 1, Succeeded) == Failed
    ensures ls[5].completedCount == 1 && ls[5].failedCount == 0
  {
    var l1 := Step(EMPTY, Create(id));
    var l2 := Step(l1, Start(0, id));
    var l3 := Step(l2, Start(1, id));
    var l4 := Step(l3, Finish(0, Succeeded));
    var l5 := Step(l4, Finish(1, Succeeded));
    ls := [EMPTY, l1, l2, l3, l4, l5];
    es := [Create(id), Start(0, id), Start(1, id), Finish(0, Succeeded), Finish(1, Succeeded)];
  }
}
