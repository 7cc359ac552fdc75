/** The wake-up protocol between a module's worker thread and the threads that notify or stop
    it, as atomic steps over the flag `need_update` and an auto-reset trigger. */
module WakeUp {

  /** Where the worker stands: the loop test, the first look at the flag, the clear that follows
      it, the wait, the second look, its clear, about to update, and updating. */
  datatype Place = Test | Check | Clear | Wait | Recheck | ClearAgain | Ready | Updating | Exited

  /** How far a call of `stop` has come. */
  datatype Stop = NotAsked | Asked | Posted | Joined | Cleared

  /** `posting` notifiers have set the flag and not yet posted; `issued` counts the notifies and
      `covered` how many of them came before the start of the latest update. */
  datatype State = State(needUpdate: bool, trigger: bool, wantQuit: bool, useThread: bool,
                         at: Place, stop: Stop, posting: nat, issued: nat, covered: nat)

  datatype Step = Worker | NotifySet | NotifyPost | StopAsk | StopPost | StopJoin | StopClear

  const START := State(false, false, false, true, Test, NotAsked, 0, 0, 0)

  predicate Enabled(s: State, step: Step) {
    match step
    case Worker => s.at != Exited && (s.at == Wait ==> s.trigger)
    case NotifySet => true
    case NotifyPost => s.posting > 0
    case StopAsk => s.stop == NotAsked
    case StopPost => s.stop == Asked
    case StopJoin => s.stop == Posted && s.at == Exited
    case StopClear => s.stop == Joined
  }

  function Work(s: State): State
    requires Enabled(s, Worker)
  {
    match s.at
    case Test => s.(at := if s.wantQuit then Exited else Check)
    case Check => s.(at := if s.needUpdate then Clear else Wait)
    case Clear => s.(at := Ready, needUpdate := false)
    case Wait => s.(at := Recheck, trigger := false)
    case Recheck => s.(at := if s.needUpdate then ClearAgain else Test)
    case ClearAgain => s.(at := Ready, needUpdate := false)
    case Ready => s.(at := Updating, covered := s.issued)
    case Updating => s.(at := Test)
  }

  function Apply(s: State, step: Step): State
    requires Enabled(s, step)
  {
    match step
    case Worker => Work(s)
    case NotifySet => s.(needUpdate := true, posting := s.posting + 1, issued := s.issued + 1)
    case NotifyPost => s.(posting := s.posting - 1, trigger := s.trigger || s.useThread)
    case StopAsk => s.(wantQuit := true, stop := Asked)
    case StopPost => s.(trigger := true, stop := Posted)
    case StopJoin => s.(useThread := false, stop := Joined)
    case StopClear => s.(needUpdate := false, stop := Cleared)
  }

  // ----- what every step keeps

  ghost predicate Inv(s: State) {
    && s.covered <= s.issued
    // an unserved notify is still visible, in the flag or in an update about to start
    && (s.issued > s.covered && s.stop != Cleared ==> s.needUpdate || s.at == Ready)
    // a set flag never leaves the worker asleep
    && (s.at == Wait && s.needUpdate ==> s.trigger || s.posting > 0)
    && (s.wantQuit <==> s.stop != NotAsked)
    && (s.stop in {NotAsked, Asked, Posted} <==> s.useThread)
    && (s.stop in {Joined, Cleared} ==> s.at == Exited)
    // after the post of `stop` the worker can pass its wait
    && (s.stop == Posted && s.at in {Check, Wait} ==> s.trigger)
    && (s.at == Exited ==> s.wantQuit)
  }

  lemma StartKeeps()
    ensures Inv(START)
  {}

  lemma StepKeeps(s: State, step: Step)
    requires Inv(s) && Enabled(s, step)
    ensures Inv(Apply(s, step))
  {}

  /** The worker sleeps only when there is nothing to do and nobody has asked it to stop. */
  lemma AsleepOnlyWhenIdle(s: State)
    requires Inv(s) && s.at != Exited && !Enabled(s, Worker)
    ensures s.posting == 0 ==> !s.needUpdate && s.issued == s.covered
    ensures s.stop in {NotAsked, Asked}
  {}

  // ----- whole runs

  ghost predicate Run(trace: seq<State>, steps: seq<Step>) {
    && |trace| == |steps| + 1 && trace[0] == START
    && forall i :: 0 <= i < |steps| ==> Enabled(trace[i], steps[i]) && trace[i + 1] == Apply(trace[i], steps[i])
  }

  lemma {:induction false} RunKeeps(trace: seq<State>, steps: seq<Step>, n: nat)
    requires Run(trace, steps) && n <= |steps|
    ensures Inv(trace[n])
  {
    if n == 0 {
      StartKeeps();
    } else {
      RunKeeps(trace, steps, n - 1);
      assert trace[n - 1 + 1] == Apply(trace[n - 1], steps[n - 1]);
      StepKeeps(trace[n - 1], steps[n - 1]);
    }
  }

  function WorkerSteps(steps: seq<Step>): nat {
    if steps == [] then 0 else WorkerSteps(steps[..|steps| - 1]) + if steps[|steps| - 1] == Worker then 1 else 0
  }

  /** Steps of the worker, at most, before an update starts for a notify that is pending. */
  function ToUpdate(at: Place): nat {
    match at
    case Ready => 1
    case Clear => 2
    case ClearAgain => 2
    case Check => 3
    case Recheck => 3
    case Test => 4
    case Wait => 4
    case Updating => 5
    case Exited => 0
  }

  ghost predicate UpdateStarts(trace: seq<State>, steps: seq<Step>, k: int)
    requires |trace| == |steps| + 1 && 0 <= k < |steps|
  {
    steps[k] == Worker && trace[k].at == Ready
  }

  function Mine(step: Step): nat { if step == Worker then 1 else 0 }

  /** One step while notify number `n` waits for an update. */
  lemma ApproachStep(s: State, step: Step, n: nat)
    requires Inv(s) && Enabled(s, step) && s.covered < n <= s.issued
    requires !(step == Worker && s.at == Ready) && !Apply(s, step).wantQuit
    ensures Apply(s, step).covered < n <= Apply(s, step).issued
    ensures 1 <= ToUpdate(Apply(s, step).at) && ToUpdate(Apply(s, step).at) + Mine(step) <= ToUpdate(s.at)
  {}

  lemma WorkerStepsAppend(steps: seq<Step>, from: int, j: int)
    requires 0 <= from < j <= |steps|
    ensures WorkerSteps(steps[from..j]) == WorkerSteps(steps[from..j - 1]) + Mine(steps[j - 1])
  {
    assert steps[from..j][..j - 1 - from] == steps[from..j - 1];
  }

  lemma {:induction false} Approach(trace: seq<State>, steps: seq<Step>, i: int, j: int)
    requires Run(trace, steps) && 0 <= i < j <= |steps| && steps[i] == NotifySet
    requires !trace[j].wantQuit
    requires forall k :: i < k < j ==> !UpdateStarts(trace, steps, k)
    ensures trace[j].covered < trace[i + 1].issued <= trace[j].issued
    ensures 1 <= ToUpdate(trace[j].at) && ToUpdate(trace[j].at) + WorkerSteps(steps[i + 1..j]) <= 5
    decreases j
  {
    hide Apply; hide Enabled; hide Inv; hide ToUpdate;
    if j == i + 1 {
      RunKeeps(trace, steps, i);
      assert trace[i + 1] == Apply(trace[i], steps[i]);
      QuitStays(trace[i], NotifySet);
      NotifyPends(trace[i]);
      assert steps[i + 1..j] == [];
    } else {
      hide WorkerSteps;
      assert trace[j - 1 + 1] == Apply(trace[j - 1], steps[j - 1]);
      RunKeeps(trace, steps, j - 1);
      QuitStays(trace[j - 1], steps[j - 1]);
      Approach(trace, steps, i, j - 1);
      assert !UpdateStarts(trace, steps, j - 1);
      ApproachStep(trace[j - 1], steps[j - 1], trace[i + 1].issued);
      WorkerStepsAppend(steps, i + 1, j);
    }
  }

  lemma NotifyPends(s: State)
    requires Inv(s) && !s.wantQuit
    ensures var t := Apply(s, NotifySet);
            && Enabled(s, NotifySet) && !t.wantQuit && t.covered < t.issued && 1 <= ToUpdate(t.at) <= 5
  {}

  lemma QuitStays(s: State, step: Step)
    requires Enabled(s, step)
    ensures s.wantQuit ==> Apply(s, step).wantQuit
  {}

  /** No notify is lost: in every run, once the worker has taken five steps after a notify and
      the module has not been asked to stop, an update has started after that notify. */
  lemma NotifyIsServed(trace: seq<State>, steps: seq<Step>, i: int, j: int)
    requires Run(trace, steps) && 0 <= i < j <= |steps| && steps[i] == NotifySet
    requires !trace[j].wantQuit && WorkerSteps(steps[i + 1..j]) >= 5
    ensures exists k :: i < k < j && UpdateStarts(trace, steps, k)
  {
    if forall k :: i < k < j ==> !UpdateStarts(trace, steps, k) {
      Approach(trace, steps, i, j);
    }
  }

  /** And the worker is free to take those steps as soon as the notifiers have posted. */
  lemma NotifyUnblocks(trace: seq<State>, steps: seq<Step>, j: nat)
    requires Run(trace, steps) && j <= |steps|
    requires trace[j].issued > trace[j].covered && trace[j].posting == 0 && trace[j].at != Exited
    ensures Enabled(trace[j], Worker)
  {
    RunKeeps(trace, steps, j);
    if !Enabled(trace[j], Worker) { AsleepOnlyWhenIdle(trace[j]); }
  }

  /** Steps of the worker, at most, before it exits once `stop` has posted. */
  function ToExit(at: Place): nat {
    match at
    case Exited => 0
    case Test => 1
    case Updating => 2
    case Ready => 3
    case Clear => 4
    case ClearAgain => 4
    case Recheck => 5
    case Wait => 6
    case Check => 7
  }

  lemma {:induction false} Retreat(trace: seq<State>, steps: seq<Step>, i: int, j: int)
    requires Run(trace, steps) && 0 <= i < j <= |steps| && steps[i] == StopPost
    ensures trace[j].stop in {Posted, Joined, Cleared}
    ensures ToExit(trace[j].at) + WorkerSteps(steps[i + 1..j]) <= 7
    decreases j
  {
    assert trace[j - 1 + 1] == Apply(trace[j - 1], steps[j - 1]);
    RunKeeps(trace, steps, j - 1);
    if j == i + 1 {
      assert steps[i + 1..j] == [];
    } else {
      hide Apply; hide Enabled; hide Inv; hide ToExit; hide WorkerSteps;
      Retreat(trace, steps, i, j - 1);
      RetreatStep(trace[j - 1], steps[j - 1]);
      WorkerStepsAppend(steps, i + 1, j);
    }
  }

  lemma RetreatStep(s: State, step: Step)
    requires Inv(s) && Enabled(s, step) && s.stop in {Posted, Joined, Cleared}
    ensures Apply(s, step).stop in {Posted, Joined, Cleared}
    ensures ToExit(Apply(s, step).at) + Mine(step) <= ToExit(s.at)
  {}

  /** Once `stop` has posted, the worker is never blocked, and it has exited after at most seven
      steps of its own, so the join returns. */
  lemma StopIsHeard(trace: seq<State>, steps: seq<Step>, i: int, j: int)
    requires Run(trace, steps) && 0 <= i < j <= |steps| && steps[i] == StopPost
    ensures trace[j].at == Exited || Enabled(trace[j], Worker)
    ensures WorkerSteps(steps[i + 1..j]) <= 7
    ensures WorkerSteps(steps[i + 1..j]) == 7 ==> trace[j].at == Exited
  {
    Retreat(trace, steps, i, j);
    RunKeeps(trace, steps, j);
  }

  // ----- nothing happens without a cause

  predicate IsPost(step: Step) { step == NotifyPost || step == StopPost }

  function Notifies(steps: seq<Step>): nat {
    if steps == [] then 0 else Notifies(steps[..|steps| - 1]) + if steps[|steps| - 1] == NotifySet then 1 else 0
  }

  function Posts(steps: seq<Step>): nat {
    if steps == [] then 0 else Posts(steps[..|steps| - 1]) + if IsPost(steps[|steps| - 1]) then 1 else 0
  }

  /** How many updates have started, and how often the worker has come through its wait. */
  ghost function Updates(trace: seq<State>, steps: seq<Step>, n: nat): nat
    requires |trace| == |steps| + 1 && n <= |steps|
  {
    if n == 0 then 0 else Updates(trace, steps, n - 1) + if UpdateStarts(trace, steps, n - 1) then 1 else 0
  }

  ghost function Wakes(trace: seq<State>, steps: seq<Step>, n: nat): nat
    requires |trace| == |steps| + 1 && n <= |steps|
  {
    if n == 0 then 0
    else Wakes(trace, steps, n - 1) + if steps[n - 1] == Worker && trace[n - 1].at == Wait then 1 else 0
  }

  function One(b: bool): nat { if b then 1 else 0 }

  lemma CauseStep(s: State, step: Step)
    requires Inv(s) && Enabled(s, step) && (s.at in {Clear, ClearAgain} ==> s.needUpdate)
    ensures var t := Apply(s, step);
            && (t.at in {Clear, ClearAgain} ==> t.needUpdate)
            && One(t.needUpdate) + One(t.at == Ready) + One(step == Worker && s.at == Ready)
               <= One(s.needUpdate) + One(s.at == Ready) + One(step == NotifySet)
            && One(t.trigger) + One(step == Worker && s.at == Wait) <= One(s.trigger) + One(IsPost(step))
  {}

  /** In every run, no more updates have started than there were notifies, and the worker has not come
      through its wait more often than somebody posted. */
  lemma {:induction false} NothingUncalled(trace: seq<State>, steps: seq<Step>, n: nat)
    requires Run(trace, steps) && n <= |steps|
    ensures trace[n].at in {Clear, ClearAgain} ==> trace[n].needUpdate
    ensures Updates(trace, steps, n) + One(trace[n].needUpdate) + One(trace[n].at == Ready) <= Notifies(steps[..n])
    ensures Wakes(trace, steps, n) + One(trace[n].trigger) <= Posts(steps[..n])
  {
    hide Apply; hide Enabled; hide Inv;
    if n > 0 {
      NothingUncalled(trace, steps, n - 1);
      RunKeeps(trace, steps, n - 1);
      assert trace[n - 1 + 1] == Apply(trace[n - 1], steps[n - 1]) && Enabled(trace[n - 1], steps[n - 1]);
      CauseStep(trace[n - 1], steps[n - 1]);
      assert steps[..n][..n - 1] == steps[..n - 1];
    } else {
      assert steps[..0] == [];
    }
  }
}
