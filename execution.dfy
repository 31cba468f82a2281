/** The plan executor of planner.py (`PlanExecutor`) and gui.py
    (`PlanningGui`): control methods that set the `is_paused` and
    `is_stopped` flags, and a worker thread walking through the plan. Each
    control method and each step of the worker is one atomic transition;
    the worker's steps may interleave with the control methods in any
    order. */
module Execution {
  /** Where the worker thread is:
      - `AtCheck(i)`: at the head of the loop for action `i` (the stop
        check), or, when `i` is the plan's length, after the loop;
      - `Waiting(i)`: in the `while is_paused` poll before action `i`;
      - `Dispatching(i)`: past the poll, about to show action `i`. */
  datatype Worker = Idle | AtCheck(i: nat) | Waiting(i: nat) | Dispatching(i: nat)

  /** The executor's observable state. `plan` is the list the running
      thread iterates over, `executed` the actions it has shown so far. */
  datatype State = State(paused: bool, stopped: bool, worker: Worker, plan: seq<string>,
                         status: string, executed: seq<string>)

  const NoPlanLabel: string := "Current Action: No plan to execute!"
  const StoppedLabel: string := "Current Action: Execution stopped!"
  const CompletedLabel: string := "Current Action: Execution completed!"
  const PausedLabel: string := "Current Action: Execution paused!"
  const ResumedLabel: string := "Current Action: Execution resumed!"

  function ActionLabel(action: string): string { "Current Action: " + action }

  const Initial: State := State(false, false, Idle, [], "", [])

  /** A thread is alive. */
  predicate Running(s: State) { !s.worker.Idle? }

  /** `start_execution` with `current_plan` equal to `plan`. */
  function Start(s: State, plan: seq<string>): State {
    if plan == [] then s.(status := NoPlanLabel)
    else if Running(s) then s
    else s.(paused := false, stopped := false, worker := AtCheck(0), plan := plan, executed := [])
  }

  function Pause(s: State): State {
    s.(paused := true, status := PausedLabel)
  }

  /** `continue_execution`; gui.py's version (`guarded`) acts only when
      paused, planner.py's always does. */
  function Continue(s: State, guarded: bool): State {
    if guarded && !s.paused then s else s.(paused := false, status := ResumedLabel)
  }

  function Stop(s: State): State {
    s.(stopped := true, paused := false)
  }

  /** One atomic step of the worker thread. */
  function Step(s: State): State {
    match s.worker
    case Idle => s
    case AtCheck(i) =>
      if i < |s.plan| then
        if s.stopped then s.(status := StoppedLabel, worker := Idle) else s.(worker := Waiting(i))
      else if s.stopped then s.(worker := Idle)
      else s.(status := CompletedLabel, worker := Idle)
    case Waiting(i) =>
      if s.paused then s else s.(worker := Dispatching(i))
    case Dispatching(i) =>
      if i < |s.plan| then
        s.(status := ActionLabel(s.plan[i]), executed := s.executed + [s.plan[i]], worker := AtCheck(i + 1))
      else s.(worker := Idle)
  }

  datatype Event = StartEvent(plan: seq<string>) | PauseEvent | ContinueEvent | StopEvent | StepEvent

  function Apply(s: State, e: Event, guarded: bool): State {
    match e
    case StartEvent(plan) => Start(s, plan)
    case PauseEvent => Pause(s)
    case ContinueEvent => Continue(s, guarded)
    case StopEvent => Stop(s)
    case StepEvent => Step(s)
  }

  function Run(s: State, es: seq<Event>, guarded: bool): State
    decreases |es|
  {
    if es == [] then s else Run(Apply(s, es[0], guarded), es[1..], guarded)
  }

  /** The worker has shown an in-order prefix of the plan, and exactly the
      actions before its position. */
  ghost predicate Inv(s: State) {
    match s.worker
    case Idle => |s.executed| <= |s.plan| && s.executed == s.plan[..|s.executed|]
    case AtCheck(i) => i <= |s.plan| && s.executed == s.plan[..i]
    case Waiting(i) => i < |s.plan| && s.executed == s.plan[..i]
    case Dispatching(i) => i < |s.plan| && s.executed == s.plan[..i]
  }

  lemma InitialInv()
    ensures Inv(Initial)
  {
  }

  /** Every transition keeps the invariant. */
  lemma ApplyInv(s: State, e: Event, guarded: bool)
    requires Inv(s)
    ensures Inv(Apply(s, e, guarded))
  {
    if e.StepEvent? && s.worker.Dispatching? {
      var i := s.worker.i;
      assert s.plan[..i + 1] == s.plan[..i] + [s.plan[i]];
    }
  }

  lemma {:induction false} RunInv(s: State, es: seq<Event>, guarded: bool)
    requires Inv(s)
    ensures Inv(Run(s, es, guarded))
    decreases |es|
  {
    if es != [] {
      ApplyInv(s, es[0], guarded);
      RunInv(Apply(s, es[0], guarded), es[1..], guarded);
    }
  }

  /** `start_execution` does nothing but set a status when the plan is empty
      or a thread is alive, and otherwise clears both flags and starts the
      worker at the first action. */
  lemma StartCases(s: State, plan: seq<string>)
    ensures plan == [] ==> Start(s, plan) == s.(status := NoPlanLabel)
    ensures plan != [] && Running(s) ==> Start(s, plan) == s
    ensures plan != [] && !Running(s) ==>
      var t := Start(s, plan);
      !t.paused && !t.stopped && t.worker == AtCheck(0) && t.plan == plan && t.executed == []
  {
  }

  /** The only steps that change the status: showing the next action, the
      stop check, and the completion check, which needs the flag clear and
      the whole plan shown. */
  lemma StepStatus(s: State)
    requires Inv(s) && Step(s).status != s.status
    ensures match s.worker
      case Dispatching(i) => Step(s).status == ActionLabel(s.plan[i])
      case AtCheck(i) =>
        if i < |s.plan| then s.stopped && Step(s).status == StoppedLabel
        else !s.stopped && s.executed == s.plan && Step(s).status == CompletedLabel
      case _ => false
  {
    if s.worker.AtCheck? && s.worker.i == |s.plan| {
      assert s.plan[..|s.plan|] == s.plan;
    }
  }

  /** A worker that is not yet past the poll shows nothing while paused. */
  lemma PausedShowsNothing(s: State)
    requires s.paused && !s.worker.Dispatching?
    ensures Step(s).executed == s.executed
    ensures Step(s).worker.Dispatching? ==> false
  {
  }

  /** Once paused and not past the poll, nothing more is shown until a
      continue, a stop or a start. */
  lemma {:induction false} PausedRun(s: State, es: seq<Event>, guarded: bool)
    requires s.paused && !s.worker.Dispatching?
    requires forall k | 0 <= k < |es| :: es[k].StepEvent? || es[k].PauseEvent?
    ensures Run(s, es, guarded).executed == s.executed
    decreases |es|
  {
    if es != [] {
      PausedRun(Apply(s, es[0], guarded), es[1..], guarded);
    }
  }

  /** Actions still to be shown by a stopped worker: one if it is already
      past the stop check, none otherwise. */
  function Pending(s: State): nat {
    if s.worker.Waiting? || s.worker.Dispatching? then 1 else 0
  }

  lemma StepAfterStop(s: State, e: Event, guarded: bool)
    requires Inv(s) && s.stopped && !e.StartEvent?
    ensures Apply(s, e, guarded).stopped
    ensures |Apply(s, e, guarded).executed| + Pending(Apply(s, e, guarded)) <= |s.executed| + Pending(s)
  {
  }

  /** After a stop, and until the next start, the worker shows at most one
      more action. */
  lemma {:induction false} AtMostOneAfterStop(s: State, es: seq<Event>, guarded: bool)
    requires Inv(s) && s.stopped
    requires forall k | 0 <= k < |es| :: !es[k].StartEvent?
    ensures |Run(s, es, guarded).executed| <= |s.executed| + Pending(s)
    ensures Pending(s) <= 1
    decreases |es|
  {
    if es != [] {
      StepAfterStop(s, es[0], guarded);
      ApplyInv(s, es[0], guarded);
      AtMostOneAfterStop(Apply(s, es[0], guarded), es[1..], guarded);
    }
  }

  /** Stop releases a worker waiting in the pause poll: it shows its next
      action, and then finishes at the following stop check. */
  lemma StopReleasesWaiting(s: State, guarded: bool)
    requires Inv(s) && s.paused && s.worker.Waiting?
    ensures var i, t := s.worker.i, Run(s, [StopEvent, StepEvent, StepEvent], guarded);
      t.executed == s.executed + [s.plan[i]] && t.status == ActionLabel(s.plan[i]) && t.worker == AtCheck(i + 1)
    ensures var t := Run(s, [StopEvent, StepEvent, StepEvent, StepEvent], guarded);
      t.executed == s.executed + [s.plan[s.worker.i]] && !Running(t)
  {
    var es := [StopEvent, StepEvent, StepEvent, StepEvent];
    assert es[1..] == [StepEvent, StepEvent, StepEvent];
    assert es[1..][1..] == [StepEvent, StepEvent];
    assert es[1..][1..][1..] == [StepEvent];
    var three := [StopEvent, StepEvent, StepEvent];
    assert three[1..] == [StepEvent, StepEvent];
    assert three[1..][1..] == [StepEvent];
  }

  function Steps(s: State, n: nat): State
    decreases n
  {
    if n == 0 then s else Steps(Step(s), n - 1)
  }

  /** Undisturbed, the worker at action `i` takes three steps to show it. */
  lemma {:induction false} RunsToEnd(s: State, i: nat, n: nat)
    requires !s.paused && !s.stopped && s.worker == AtCheck(i) && i <= |s.plan| && s.executed == s.plan[..i]
    requires n == 3 * (|s.plan| - i) + 1
    ensures Steps(s, n).worker == Idle && Steps(s, n).status == CompletedLabel && Steps(s, n).executed == s.plan
    decreases |s.plan| - i
  {
    if i == |s.plan| {
      assert s.plan[..i] == s.plan;
    } else {
      var t := Step(Step(Step(s)));
      assert Steps(s, n) == Steps(Step(s), n - 1);
      assert Steps(Step(s), n - 1) == Steps(Step(Step(s)), n - 2);
      assert Steps(Step(Step(s)), n - 2) == Steps(t, n - 3);
      assert s.plan[..i + 1] == s.plan[..i] + [s.plan[i]];
      RunsToEnd(t, i + 1, n - 3);
    }
  }

  /** Started on a non-empty plan and left alone, the worker shows every
      action in order and ends with the completion status. */
  lemma UndisturbedRun(s: State, plan: seq<string>)
    requires plan != [] && !Running(s)
    ensures var t := Steps(Start(s, plan), 3 * |plan| + 1);
      t.worker == Idle && t.status == CompletedLabel && t.executed == plan
  {
    var u := Start(s, plan);
    assert u.plan == plan && u.worker == AtCheck(0) && u.executed == plan[..0];
    RunsToEnd(u, 0, 3 * |plan| + 1);
  }

  /** The executor as an object whose methods are the transitions. */
  class Executor {
    const guarded: bool
    var paused: bool
    var stopped: bool
    var worker: Worker
    var plan: seq<string>
    var status: string
    var executed: seq<string>

    function Current(): State
      reads this
    {
      State(paused, stopped, worker, plan, status, executed)
    }

    constructor(guardedContinue: bool)
      ensures Current() == Initial && guarded == guardedContinue
    {
      guarded := guardedContinue;
      paused, stopped, worker, plan, status, executed := false, false, Idle, [], "", [];
    }

    method StartExecution(currentPlan: seq<string>)
      modifies this
      ensures Current() == Start(old(Current()), currentPlan)
    {
      if currentPlan == [] {
        status := NoPlanLabel;
        return;
      }
      if worker != Idle {
        return;
      }
      paused := false;
      stopped := false;
      plan := currentPlan;
      executed := [];
      worker := AtCheck(0);
    }

    method PauseExecution()
      modifies this
      ensures Current() == Pause(old(Current()))
    {
      paused := true;
      status := PausedLabel;
    }

    method ContinueExecution()
      modifies this
      ensures Current() == Continue(old(Current()), guarded)
    {
      if !guarded || paused {
        paused := false;
        status := ResumedLabel;
      }
    }

    method StopExecution()
      modifies this
      ensures Current() == Stop(old(Current()))
    {
      stopped := true;
      paused := false;
    }

    /** One step of `execute_plan`. */
    method WorkerStep()
      modifies this
      ensures Current() == Step(old(Current()))
    {
      match worker {
        case Idle =>
        case AtCheck(i) =>
          if i < |plan| {
            if stopped {
              status := StoppedLabel;
              worker := Idle;
            } else {
              worker := Waiting(i);
            }
          } else {
            if !stopped {
              status := CompletedLabel;
            }
            worker := Idle;
          }
        case Waiting(i) =>
          if !paused {
            worker := Dispatching(i);
          }
        case Dispatching(i) =>
          if i < |plan| {
            status := ActionLabel(plan[i]);
            executed := executed + [plan[i]];
            worker := AtCheck(i + 1);
          } else {
            worker := Idle;
          }
      }
    }
  }
}
