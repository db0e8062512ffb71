/** batchCache.DeleteMany as a step relation: launcher, workers, semaphore, wait group, channels, caller. */
module BatchDelete {
  import opened Types

  /** A worker goroutine, by what it does next; ok is the outcome of its DeleteWithContext call. */
  datatype Worker =
    | NotStarted | Deleting | Sending | Counting | Releasing(ok: bool) | Finishing(ok: bool) | Exited(ok: bool)

  /** The launching goroutine, by what it does next; Left means that it saw the cancellation and returned. */
  datatype Launcher = Checking | Adding | Acquiring | Spawning | Waiting | ClosingDone | ClosingErrs | Ended | Left

  datatype Outcome = Succeeded | BatchFailed | ContextError

  /** The calling goroutine. */
  datatype Caller = Selecting | Collecting | Returned(outcome: Outcome)

  /**
   * size is the truncated batch length and the capacity of errChan, limit is MaxConcurrent and the capacity of
   * sem. The error channel is everything sent so far, of which the caller has received a prefix.
   */
  datatype State = State(
    size: nat, limit: nat,
    workers: seq<Worker>,
    launcher: Launcher, next: nat,
    caller: Caller,
    sem: nat, wg: nat,
    sent: seq<nat>, received: nat,
    doneClosed: bool, errClosed: bool,
    cancelled: bool,
    successes: nat, errorCount: nat, timeouts: nat)

  function Init(length: nat, maxBatch: nat, limit: nat): State {
    var size := if length > maxBatch then maxBatch else length;
    State(size, limit, seq(size, _ => NotStarted), Checking, 0, Selecting, 0, 0, [], 0, false, false, false, 0, 0, 0)
  }

  datatype Step =
    | LaunchCheck | LaunchAdd | LaunchAcquire | LaunchSpawn | LaunchWait | CloseDone | CloseErrs | LaunchLeave
    | WorkDelete(i: nat, ok: bool) | WorkSend(i: nat) | WorkCount(i: nat) | WorkRelease(i: nat) | WorkFinish(i: nat)
    | CallerWake | CallerReceive | CallerReturn | CallerGiveUp
    | Cancel

  predicate Enabled(s: State, step: Step) {
    match step
    case LaunchCheck => s.launcher == Checking && (s.next == s.size || !s.cancelled)
    case LaunchAdd => s.launcher == Adding
    case LaunchAcquire => s.launcher == Acquiring && s.sem < s.limit
    case LaunchSpawn => s.launcher == Spawning && s.next < |s.workers|
    case LaunchWait => s.launcher == Waiting && s.wg == 0
    case CloseDone => s.launcher == ClosingDone
    case CloseErrs => s.launcher == ClosingErrs
    case LaunchLeave => s.launcher == Checking && s.next < s.size && s.cancelled
    case WorkDelete(i, _) => i < |s.workers| && s.workers[i] == Deleting
    case WorkSend(i) => i < |s.workers| && s.workers[i] == Sending && |s.sent| - s.received < s.size
    case WorkCount(i) => i < |s.workers| && s.workers[i] == Counting
    case WorkRelease(i) => i < |s.workers| && s.workers[i].Releasing? && s.sem > 0
    case WorkFinish(i) => i < |s.workers| && s.workers[i].Finishing? && s.wg > 0
    case CallerWake => s.caller == Selecting && s.doneClosed
    case CallerReceive => s.caller == Collecting && s.received < |s.sent|
    case CallerReturn => s.caller == Collecting && s.received == |s.sent| && s.errClosed
    case CallerGiveUp => s.caller == Selecting && s.cancelled
    case Cancel => !s.cancelled
  }

  function Next(s: State, step: Step): State
    requires Enabled(s, step)
  {
    match step
    case LaunchCheck => s.(launcher := if s.next < s.size then Adding else Waiting)
    case LaunchAdd => s.(launcher := Acquiring, wg := s.wg + 1)
    case LaunchAcquire => s.(launcher := Spawning, sem := s.sem + 1)
    case LaunchSpawn => s.(launcher := Checking, workers := s.workers[s.next := Deleting], next := s.next + 1)
    case LaunchWait => s.(launcher := ClosingDone)
    case CloseDone => s.(launcher := ClosingErrs, doneClosed := true)
    case CloseErrs => s.(launcher := Ended, errClosed := true)
    case LaunchLeave => s.(launcher := Left, timeouts := s.timeouts + 1)
    case WorkDelete(i, ok) => s.(workers := s.workers[i := if ok then Counting else Sending])
    case WorkSend(i) => s.(workers := s.workers[i := Releasing(false)], sent := s.sent + [i])
    case WorkCount(i) => s.(workers := s.workers[i := Releasing(true)], successes := s.successes + 1)
    case WorkRelease(i) => s.(workers := s.workers[i := Finishing(s.workers[i].ok)], sem := s.sem - 1)
    case WorkFinish(i) => s.(workers := s.workers[i := Exited(s.workers[i].ok)], wg := s.wg - 1)
    case CallerWake => s.(caller := Collecting)
    case CallerReceive => s.(received := s.received + 1)
    case CallerReturn =>
      s.(caller := Returned(if s.received > 0 then BatchFailed else Succeeded), errorCount := s.errorCount + s.received)
    case CallerGiveUp => s.(caller := Returned(ContextError), timeouts := s.timeouts + 1)
    case Cancel => s.(cancelled := true)
  }

  // ---------------------------------------------------------------- counting workers

  function Count(ws: seq<Worker>, p: Worker -> bool): (n: nat)
    ensures n <= |ws|
  {
    if ws == [] then 0 else Count(ws[..|ws| - 1], p) + if p(ws[|ws| - 1]) then 1 else 0
  }

  /** The count after one worker has moved. */
  function Moved(ws: seq<Worker>, i: nat, w: Worker, p: Worker -> bool): int
    requires i < |ws|
  {
    Count(ws, p) - (if p(ws[i]) then 1 else 0) + if p(w) then 1 else 0
  }

  lemma {:induction false} CountUpdate(ws: seq<Worker>, i: nat, w: Worker, p: Worker -> bool)
    requires i < |ws|
    ensures Count(ws[i := w], p) == Moved(ws, i, w, p)
  {
    var n := |ws| - 1;
    if i < n {
      CountUpdate(ws[..n], i, w, p);
      assert ws[i := w][..n] == ws[..n][i := w];
    } else {
      assert ws[i := w][..n] == ws[..n];
    }
  }

  lemma {:induction false} CountAt(ws: seq<Worker>, i: nat, p: Worker -> bool)
    requires i < |ws| && p(ws[i])
    ensures Count(ws, p) > 0
  {
    if i < |ws| - 1 {
      CountAt(ws[..|ws| - 1], i, p);
    }
  }

  lemma {:induction false} CountNone(ws: seq<Worker>, p: Worker -> bool)
    requires forall i :: 0 <= i < |ws| ==> !p(ws[i])
    ensures Count(ws, p) == 0
  {
    if ws == [] {
    } else {
      CountNone(ws[..|ws| - 1], p);
    }
  }

  /** Two disjoint properties that together hold of every worker count up to all of them. */
  lemma {:induction false} CountTwo(ws: seq<Worker>, p: Worker -> bool, q: Worker -> bool)
    ensures (forall i :: 0 <= i < |ws| ==> !(p(ws[i]) && q(ws[i]))) ==> Count(ws, p) + Count(ws, q) <= |ws|
    ensures (forall i :: 0 <= i < |ws| ==> (p(ws[i]) <==> !q(ws[i]))) ==> Count(ws, p) + Count(ws, q) == |ws|
  {
    if ws == [] {
    } else {
      CountTwo(ws[..|ws| - 1], p, q);
    }
  }

  // ---------------------------------------------------------------- what every step keeps

  /** The worker holds a semaphore slot. */
  predicate Holding(w: Worker) { w.Deleting? || w.Sending? || w.Counting? || w.Releasing? }

  /** The wait group counts the worker. */
  predicate Awaited(w: Worker) { Holding(w) || w.Finishing? }

  /** The worker's error is in the channel, or was received. */
  predicate Reported(w: Worker) { (w.Releasing? || w.Finishing? || w.Exited?) && !w.ok }

  /** The worker has raised SuccessCount. */
  predicate Counted(w: Worker) { (w.Releasing? || w.Finishing? || w.Exited?) && w.ok }

  predicate Unreported(w: Worker) { !Reported(w) }

  ghost predicate Inv(s: State) {
    && |s.workers| == s.size
    && s.next <= s.size && (s.launcher in {Adding, Acquiring, Spawning} ==> s.next < s.size)
    && (forall i :: 0 <= i < s.size ==> (s.workers[i].NotStarted? <==> i >= s.next))
    && (s.launcher in {Waiting, ClosingDone, ClosingErrs, Ended} ==> s.next == s.size)
    && s.sem <= s.limit
    && s.sem == Count(s.workers, Holding) + (if s.launcher == Spawning then 1 else 0)
    && s.wg == Count(s.workers, Awaited) + (if s.launcher in {Acquiring, Spawning} then 1 else 0)
    && (s.launcher in {ClosingDone, ClosingErrs, Ended} ==> forall i :: 0 <= i < s.size ==> s.workers[i].Exited?)
    && (s.doneClosed <==> s.launcher in {ClosingErrs, Ended})
    && (s.errClosed <==> s.launcher == Ended)
    && s.received <= |s.sent| && |s.sent| == Count(s.workers, Reported)
    && (forall i: nat :: i in s.sent <==> i < s.size && Reported(s.workers[i]))
    && s.successes == Count(s.workers, Counted)
    && (s.launcher == Left ==> s.cancelled)
    && (s.caller == Collecting ==> s.doneClosed)
    && (if s.caller.Returned? then CallerDone(s) else s.errorCount == 0)
  }

  /** What a return value of the caller says. */
  ghost predicate CallerDone(s: State)
    requires s.caller.Returned?
  {
    if s.caller.outcome == ContextError then s.cancelled && s.errorCount == 0
    else
      && s.errClosed && s.received == |s.sent| == s.errorCount
      && (s.caller.outcome == BatchFailed <==> s.received > 0)
  }

  lemma InitInv(length: nat, maxBatch: nat, limit: nat)
    ensures Inv(Init(length, maxBatch, limit))
  {
    var ws := Init(length, maxBatch, limit).workers;
    CountNone(ws, Holding);
    CountNone(ws, Awaited);
    CountNone(ws, Reported);
    CountNone(ws, Counted);
  }

  /** All four counts after one worker has moved. */
  lemma MoveCounts(ws: seq<Worker>, i: nat, w: Worker)
    requires i < |ws|
    ensures Count(ws[i := w], Holding) == Moved(ws, i, w, Holding)
    ensures Count(ws[i := w], Awaited) == Moved(ws, i, w, Awaited)
    ensures Count(ws[i := w], Reported) == Moved(ws, i, w, Reported)
    ensures Count(ws[i := w], Counted) == Moved(ws, i, w, Counted)
  {
    CountUpdate(ws, i, w, Holding);
    CountUpdate(ws, i, w, Awaited);
    CountUpdate(ws, i, w, Reported);
    CountUpdate(ws, i, w, Counted);
  }

  lemma WaitOver(s: State)
    requires Inv(s) && s.launcher == Waiting && s.wg == 0
    ensures forall i :: 0 <= i < s.size ==> s.workers[i].Exited?
  {
    forall i | 0 <= i < s.size
      ensures s.workers[i].Exited?
    {
      if Awaited(s.workers[i]) {
        CountAt(s.workers, i, Awaited);
      }
    }
  }

  lemma LauncherKeeps(s: State, step: Step)
    requires Inv(s) && Enabled(s, step)
    requires step.LaunchCheck? || step.LaunchAdd? || step.LaunchAcquire? || step.LaunchWait? || step.CloseDone?
      || step.CloseErrs? || step.LaunchLeave?
    ensures Inv(Next(s, step))
  {
    if step.LaunchWait? {
      WaitOver(s);
    }
  }

  lemma SpawnKeeps(s: State)
    requires Inv(s) && Enabled(s, LaunchSpawn)
    ensures Inv(Next(s, LaunchSpawn))
  {
    MoveCounts(s.workers, s.next, Deleting);
  }

  lemma DeleteKeeps(s: State, i: nat, ok: bool)
    requires Inv(s) && Enabled(s, WorkDelete(i, ok))
    ensures Inv(Next(s, WorkDelete(i, ok)))
  {
    MoveCounts(s.workers, i, if ok then Counting else Sending);
  }

  lemma CountKeeps(s: State, i: nat)
    requires Inv(s) && Enabled(s, WorkCount(i))
    ensures Inv(Next(s, WorkCount(i)))
  {
    MoveCounts(s.workers, i, Releasing(true));
  }

  lemma ReleaseKeeps(s: State, i: nat)
    requires Inv(s) && Enabled(s, WorkRelease(i))
    ensures Inv(Next(s, WorkRelease(i)))
  {
    MoveCounts(s.workers, i, Finishing(s.workers[i].ok));
  }

  lemma FinishKeeps(s: State, i: nat)
    requires Inv(s) && Enabled(s, WorkFinish(i))
    ensures Inv(Next(s, WorkFinish(i)))
  {
    MoveCounts(s.workers, i, Exited(s.workers[i].ok));
  }

  lemma SendKeeps(s: State, i: nat)
    requires Inv(s) && Enabled(s, WorkSend(i))
    ensures Inv(Next(s, WorkSend(i)))
  {
    MoveCounts(s.workers, i, Releasing(false));
    var s' := Next(s, WorkSend(i));
    forall j: nat
      ensures j in s'.sent <==> j < s'.size && Reported(s'.workers[j])
    {
      assert j in s'.sent <==> j in s.sent || j == i;
    }
  }

  lemma CallerKeeps(s: State, step: Step)
    requires Inv(s) && Enabled(s, step)
    requires step.CallerWake? || step.CallerReceive? || step.CallerReturn? || step.CallerGiveUp? || step.Cancel?
    ensures Inv(Next(s, step))
  {}

  lemma StepKeeps(s: State, step: Step)
    requires Inv(s) && Enabled(s, step)
    ensures Inv(Next(s, step))
  {
    match step
    case LaunchSpawn => SpawnKeeps(s);
    case WorkDelete(i, ok) => DeleteKeeps(s, i, ok);
    case WorkSend(i) => SendKeeps(s, i);
    case WorkCount(i) => CountKeeps(s, i);
    case WorkRelease(i) => ReleaseKeeps(s, i);
    case WorkFinish(i) => FinishKeeps(s, i);
    case CallerWake => CallerKeeps(s, step);
    case CallerReceive => CallerKeeps(s, step);
    case CallerReturn => CallerKeeps(s, step);
    case CallerGiveUp => CallerKeeps(s, step);
    case Cancel => CallerKeeps(s, step);
    case _ => LauncherKeeps(s, step);
  }

  // ---------------------------------------------------------------- every interleaving

  /** An interleaving: each step is enabled where it is taken. */
  predicate Interleaving(s: State, steps: seq<Step>) {
    steps != [] ==>
      Interleaving(s, steps[..|steps| - 1]) && Enabled(After(s, steps[..|steps| - 1]), steps[|steps| - 1])
  }

  function After(s: State, steps: seq<Step>): State {
    if steps == [] then s
    else
      var before := After(s, steps[..|steps| - 1]);
      if Enabled(before, steps[|steps| - 1]) then Next(before, steps[|steps| - 1]) else before
  }

  /** The batch and the limit stay, and a cancellation. */
  ghost predicate SameCall(s: State, s': State) {
    s'.size == s.size && s'.limit == s.limit && (s.cancelled ==> s'.cancelled)
  }

  lemma StepSameCall(s: State, step: Step)
    requires Enabled(s, step)
    ensures SameCall(s, Next(s, step))
  {}

  lemma {:induction false} InvHolds(s: State, steps: seq<Step>)
    requires Inv(s) && Interleaving(s, steps)
    ensures Inv(After(s, steps)) && SameCall(s, After(s, steps))
  {
    if steps == [] {
    } else {
      InvHolds(s, steps[..|steps| - 1]);
      StepKeeps(After(s, steps[..|steps| - 1]), steps[|steps| - 1]);
      StepSameCall(After(s, steps[..|steps| - 1]), steps[|steps| - 1]);
    }
  }

  /** Safety in every reachable state, cancelled or not. */
  lemma ReachableIsSafe(length: nat, maxBatch: nat, limit: nat, steps: seq<Step>)
    requires Interleaving(Init(length, maxBatch, limit), steps)
    ensures var s := After(Init(length, maxBatch, limit), steps);
      // never more than limit workers between acquiring and releasing the semaphore
      && Count(s.workers, Holding) <= limit
      // a worker that has an error to report finds the channel open and with room
      && (forall i :: 0 <= i < |s.workers| && s.workers[i].Sending? ==> !s.errClosed && Enabled(s, WorkSend(i)))
      // a worker that releases or finishes does not wait
      && (forall i :: 0 <= i < |s.workers| && s.workers[i].Releasing? ==> Enabled(s, WorkRelease(i)))
      && (forall i :: 0 <= i < |s.workers| && s.workers[i].Finishing? ==> Enabled(s, WorkFinish(i)))
  {
    InitInv(length, maxBatch, limit);
    InvHolds(Init(length, maxBatch, limit), steps);
    WorkersAreFree(After(Init(length, maxBatch, limit), steps));
  }

  lemma WorkersAreFree(s: State)
    requires Inv(s)
    ensures forall i :: 0 <= i < s.size && s.workers[i].Sending? ==> !s.errClosed && Enabled(s, WorkSend(i))
    ensures forall i :: 0 <= i < s.size && s.workers[i].Releasing? ==> Enabled(s, WorkRelease(i))
    ensures forall i :: 0 <= i < s.size && s.workers[i].Finishing? ==> Enabled(s, WorkFinish(i))
  {
    forall i | 0 <= i < s.size && s.workers[i].Sending?
      ensures !s.errClosed && Enabled(s, WorkSend(i))
    {
      CountTwo(s.workers, Reported, Unreported);
      CountAt(s.workers, i, Unreported);
    }
    forall i | 0 <= i < s.size && s.workers[i].Releasing?
      ensures Enabled(s, WorkRelease(i))
    {
      CountAt(s.workers, i, Holding);
    }
    forall i | 0 <= i < s.size && s.workers[i].Finishing?
      ensures Enabled(s, WorkFinish(i))
    {
      CountAt(s.workers, i, Awaited);
    }
  }

  // ---------------------------------------------------------------- progress

  /** Nothing is left to do: the call has returned and every goroutine it started has ended. */
  predicate Finished(s: State) {
    && s.caller.Returned?
    && (s.launcher == Ended || s.launcher == Left)
    && forall i :: 0 <= i < |s.workers| ==> s.workers[i].NotStarted? || s.workers[i].Exited?
  }

  /** The step an active worker can take. */
  function WorkerStep(i: nat, w: Worker): Step
    requires Awaited(w)
  {
    match w
    case Deleting => WorkDelete(i, true)
    case Sending => WorkSend(i)
    case Counting => WorkCount(i)
    case Releasing(_) => WorkRelease(i)
    case Finishing(_) => WorkFinish(i)
  }

  /** The step of the launcher or the caller when no worker is active. */
  function IdleStep(s: State): Step {
    match s.launcher
    case Checking => if s.next < s.size && s.cancelled then LaunchLeave else LaunchCheck
    case Adding => LaunchAdd
    case Acquiring => LaunchAcquire
    case Spawning => LaunchSpawn
    case Waiting => LaunchWait
    case ClosingDone => CloseDone
    case ClosingErrs => CloseErrs
    case _ =>
      match s.caller
      case Selecting => if s.doneClosed then CallerWake else CallerGiveUp
      case _ => if s.received < |s.sent| then CallerReceive else CallerReturn
  }

  lemma ActiveProgress(s: State, i: nat)
    requires Inv(s) && i < s.size && Awaited(s.workers[i])
    ensures Enabled(s, WorkerStep(i, s.workers[i]))
  {
    WorkersAreFree(s);
  }

  lemma IdleProgress(s: State)
    requires Inv(s) && (s.limit > 0 || s.size == 0) && !Finished(s)
    requires forall i :: 0 <= i < s.size ==> !Awaited(s.workers[i])
    ensures Enabled(s, IdleStep(s))
  {
    CountNone(s.workers, Holding);
    CountNone(s.workers, Awaited);
  }

  /** Some step other than a cancellation is enabled until everything is finished, if at least one worker may run. */
  lemma Progress(s: State)
    requires Inv(s) && (s.limit > 0 || s.size == 0) && !Finished(s)
    ensures exists step :: step != Cancel && Enabled(s, step)
  {
    if i :| 0 <= i < s.size && Awaited(s.workers[i]) {
      ActiveProgress(s, i);
    } else {
      IdleProgress(s);
    }
  }

  /** Nothing can happen any more, unless the context is cancelled. */
  ghost predicate Stopped(s: State) {
    forall step :: Enabled(s, step) ==> step == Cancel
  }

  /** How many steps a worker, the launcher and the caller have left at most. */
  function WorkerLeft(w: Worker): nat {
    match w
    case NotStarted => 6
    case Deleting => 5
    case Sending => 4
    case Counting => 4
    case Releasing(_) => 3
    case Finishing(_) => 2
    case Exited(_) => 1
  }

  function WorkersLeft(ws: seq<Worker>): nat {
    if ws == [] then 0 else WorkersLeft(ws[..|ws| - 1]) + WorkerLeft(ws[|ws| - 1])
  }

  lemma {:induction false} LeftUpdate(ws: seq<Worker>, i: nat, w: Worker)
    requires i < |ws|
    ensures WorkersLeft(ws[i := w]) == WorkersLeft(ws) - WorkerLeft(ws[i]) + WorkerLeft(w)
  {
    var n := |ws| - 1;
    if i < n {
      LeftUpdate(ws[..n], i, w);
      assert ws[i := w][..n] == ws[..n][i := w];
    } else {
      assert ws[i := w][..n] == ws[..n];
    }
  }

  function LauncherLeft(s: State): int {
    4 * (s.size - s.next) + match s.launcher
      case Checking => 5
      case Adding => 4
      case Acquiring => 3
      case Spawning => 2
      case Waiting => 4
      case ClosingDone => 3
      case ClosingErrs => 2
      case _ => 0
  }

  function CallerLeft(s: State): int {
    (s.size - s.received) + match s.caller
      case Selecting => 2
      case Collecting => 1
      case Returned(_) => 0
  }

  function Remaining(s: State): int {
    WorkersLeft(s.workers) + LauncherLeft(s) + CallerLeft(s) + if s.cancelled then 0 else 1
  }

  predicate WorkerMoves(step: Step) {
    step.WorkDelete? || step.WorkSend? || step.WorkCount? || step.WorkRelease? || step.WorkFinish?
  }

  /** What a worker's step does to the measure. */
  lemma WorkerMeasure(s: State, step: Step)
    requires Enabled(s, step) && WorkerMoves(step)
    ensures Remaining(Next(s, step)) < Remaining(s)
  {
    OneWorkerMeasure(s, Next(s, step), step.i, Next(s, step).workers[step.i]);
  }

  lemma OneWorkerMeasure(s: State, s': State, i: nat, w: Worker)
    requires i < |s.workers| && s'.workers == s.workers[i := w] && WorkerLeft(w) < WorkerLeft(s.workers[i])
    requires s'.size == s.size && s'.next == s.next && s'.launcher == s.launcher
    requires s'.received == s.received && s'.caller == s.caller && s'.cancelled == s.cancelled
    ensures Remaining(s') < Remaining(s)
  {
    LeftUpdate(s.workers, i, w);
  }

  lemma SpawnMeasure(s: State)
    requires Enabled(s, LaunchSpawn) && s.next < s.size && s.workers[s.next].NotStarted?
    ensures Remaining(Next(s, LaunchSpawn)) < Remaining(s)
  {
    LeftUpdate(s.workers, s.next, Deleting);
  }

  lemma OtherMeasure(s: State, step: Step)
    requires Enabled(s, step) && !WorkerMoves(step) && !step.LaunchSpawn? && s.next <= s.size
    ensures Remaining(Next(s, step)) < Remaining(s)
  {
    assert Next(s, step).workers == s.workers;
  }

  lemma MeasureBound(s: State)
    requires Inv(s)
    ensures Remaining(s) >= 0
  {}

  /** Every step brings the end nearer, so no interleaving goes on for ever. */
  lemma StepDecreases(s: State, step: Step)
    requires Inv(s) && Enabled(s, step)
    ensures 0 <= Remaining(Next(s, step)) < Remaining(s)
  {
    StepKeeps(s, step);
    MeasureBound(Next(s, step));
    if WorkerMoves(step) {
      WorkerMeasure(s, step);
    } else if step.LaunchSpawn? {
      SpawnMeasure(s);
    } else {
      OtherMeasure(s, step);
    }
  }

  lemma {:induction false} InterleavingsEnd(s: State, steps: seq<Step>)
    requires Inv(s) && Interleaving(s, steps)
    ensures |steps| <= Remaining(s) - Remaining(After(s, steps))
    ensures Remaining(After(s, steps)) >= 0
  {
    MeasureBound(s);
    if steps == [] {
    } else {
      var before := steps[..|steps| - 1];
      InterleavingsEnd(s, before);
      InvHolds(s, before);
      StepDecreases(After(s, before), steps[|steps| - 1]);
    }
  }

  // ---------------------------------------------------------------- results

  /**
   * Without cancellation, once the call has returned, every key of the truncated batch was tried, successes and
   * collected errors add up to the batch, the collected errors are those of the keys whose delete failed, and the
   * call reports failure exactly when there is one.
   */
  lemma UncancelledResult(length: nat, maxBatch: nat, limit: nat, steps: seq<Step>)
    requires Interleaving(Init(length, maxBatch, limit), steps)
    requires var s := After(Init(length, maxBatch, limit), steps); s.caller.Returned? && !s.cancelled
    ensures var s := After(Init(length, maxBatch, limit), steps);
      && |s.workers| == s.size == (if length > maxBatch then maxBatch else length)
      && (forall i :: 0 <= i < s.size ==> s.workers[i].Exited?)
      && s.successes + s.errorCount == s.size
      && |s.sent| == s.errorCount
      && (forall i: nat :: i in s.sent <==> i < s.size && s.workers[i] == Exited(false))
      && (s.caller.outcome == Succeeded <==> forall i :: 0 <= i < s.size ==> s.workers[i] == Exited(true))
  {
    InitInv(length, maxBatch, limit);
    InvHolds(Init(length, maxBatch, limit), steps);
    var s := After(Init(length, maxBatch, limit), steps);
    CountTwo(s.workers, Reported, Counted);
    if i :| 0 <= i < s.size && s.workers[i] == Exited(false) {
      assert i in s.sent;
    } else {
      CountNone(s.workers, Reported);
    }
  }

  /** The launcher is about to start one more worker. */
  predicate Launching(s: State) {
    s.launcher in {Adding, Acquiring, Spawning}
  }

  /** How many workers there will have been once it has. */
  function Launches(s: State): nat {
    s.next + if Launching(s) then 1 else 0
  }

  lemma LaunchStep(s: State, step: Step)
    requires Enabled(s, step) && s.cancelled
    ensures Next(s, step).cancelled && Launches(Next(s, step)) <= Launches(s)
  {}

  lemma {:induction false} LaunchesAtMostOne(s: State, steps: seq<Step>)
    requires Interleaving(s, steps) && s.cancelled
    ensures After(s, steps).cancelled && Launches(After(s, steps)) <= Launches(s)
  {
    if steps == [] {
    } else {
      LaunchesAtMostOne(s, steps[..|steps| - 1]);
      LaunchStep(After(s, steps[..|steps| - 1]), steps[|steps| - 1]);
    }
  }

  /** The launcher and the caller count a cancellation each when they see it. */
  predicate TimeoutsCounted(s: State) {
    s.timeouts == (if s.launcher == Left then 1 else 0) + if s.caller == Returned(ContextError) then 1 else 0
  }

  lemma WhoLeaves(s: State, step: Step)
    requires Enabled(s, step)
    ensures Next(s, step).launcher == Left <==> s.launcher == Left || step == LaunchLeave
    ensures step == LaunchLeave ==> s.launcher != Left
  {}

  lemma WhoGivesUp(s: State, step: Step)
    requires Enabled(s, step)
    ensures Next(s, step).caller == Returned(ContextError) <==>
      s.caller == Returned(ContextError) || step == CallerGiveUp
    ensures step == CallerGiveUp ==> s.caller != Returned(ContextError)
  {}

  lemma TimeoutStep(s: State, step: Step)
    requires Enabled(s, step)
    ensures Next(s, step).timeouts == s.timeouts + if step == LaunchLeave || step == CallerGiveUp then 1 else 0
  {}

  lemma {:induction false} TimeoutsHold(s: State, steps: seq<Step>)
    requires Interleaving(s, steps) && TimeoutsCounted(s)
    ensures TimeoutsCounted(After(s, steps))
  {
    if steps == [] {
    } else {
      TimeoutsHold(s, steps[..|steps| - 1]);
      var before, step := After(s, steps[..|steps| - 1]), steps[|steps| - 1];
      TimeoutStep(before, step);
      WhoLeaves(before, step);
      WhoGivesUp(before, step);
    }
  }

  /** In every reachable state the time-outs are those of the launcher and the caller; without cancellation none. */
  lemma TimeoutsAre(length: nat, maxBatch: nat, limit: nat, steps: seq<Step>)
    requires Interleaving(Init(length, maxBatch, limit), steps)
    ensures var s := After(Init(length, maxBatch, limit), steps);
      && s.timeouts == (if s.launcher == Left then 1 else 0) + (if s.caller == Returned(ContextError) then 1 else 0)
      && (!s.cancelled ==> s.timeouts == 0)
      && (s.caller == Returned(ContextError) ==> s.errorCount == 0)
  {
    InitInv(length, maxBatch, limit);
    InvHolds(Init(length, maxBatch, limit), steps);
    TimeoutsHold(Init(length, maxBatch, limit), steps);
  }

  /** Once the context is cancelled at most one more worker is started. */
  lemma CancelledStops(length: nat, maxBatch: nat, limit: nat, before: seq<Step>, steps: seq<Step>)
    requires Interleaving(Init(length, maxBatch, limit), before)
    requires var s := After(Init(length, maxBatch, limit), before); s.cancelled && Interleaving(s, steps)
    ensures var s := After(Init(length, maxBatch, limit), before);
      var s' := After(s, steps);
      |s'.workers| == |s.workers| && Count(s.workers, NotLaunched) <= Count(s'.workers, NotLaunched) + 1
  {
    var s := After(Init(length, maxBatch, limit), before);
    InitInv(length, maxBatch, limit);
    InvHolds(Init(length, maxBatch, limit), before);
    InvHolds(s, steps);
    LaunchesAtMostOne(s, steps);
    CountFrom(s.workers, s.next);
    CountFrom(After(s, steps).workers, After(s, steps).next);
  }

  lemma CollectorStep(s: State, step: Step)
    requires Enabled(s, step) && s.caller != Selecting && s.caller != Returned(ContextError)
    ensures Next(s, step).caller != Selecting && Next(s, step).caller != Returned(ContextError)
  {}

  /** A caller that has seen the batch done reports its result, whatever becomes of the context. */
  lemma {:induction false} CollectorDecides(s: State, steps: seq<Step>)
    requires Interleaving(s, steps) && s.caller == Collecting
    ensures After(s, steps).caller != Selecting && After(s, steps).caller != Returned(ContextError)
  {
    if steps == [] {
    } else {
      CollectorDecides(s, steps[..|steps| - 1]);
      CollectorStep(After(s, steps[..|steps| - 1]), steps[|steps| - 1]);
    }
  }

  predicate NotLaunched(w: Worker) { w.NotStarted? }

  lemma {:induction false} CountFrom(ws: seq<Worker>, n: nat)
    requires n <= |ws| && forall i :: 0 <= i < |ws| ==> (ws[i].NotStarted? <==> i >= n)
    ensures Count(ws, NotLaunched) == |ws| - n
  {
    if n == |ws| {
      CountNone(ws, NotLaunched);
    } else {
      CountFrom(ws[..|ws| - 1], n);
    }
  }

  // ---------------------------------------------------------------- when a call returns

  /** With a worker allowed or nothing to do, an interleaving that cannot go on has finished everything. */
  lemma StoppedIsFinished(length: nat, maxBatch: nat, limit: nat, steps: seq<Step>)
    requires Interleaving(Init(length, maxBatch, limit), steps)
    requires limit > 0 || length == 0 || maxBatch == 0
    ensures var s := After(Init(length, maxBatch, limit), steps); Stopped(s) ==> Finished(s)
  {
    InitInv(length, maxBatch, limit);
    InvHolds(Init(length, maxBatch, limit), steps);
    var s := After(Init(length, maxBatch, limit), steps);
    if Stopped(s) && !Finished(s) {
      Progress(s);
    }
  }

  lemma NextStep(s: State) returns (step: Step)
    requires Inv(s) && (s.limit > 0 || s.size == 0) && !Finished(s)
    ensures Enabled(s, step) && Next(s, step).cancelled == s.cancelled
    ensures 0 <= Remaining(Next(s, step)) < Remaining(s)
  {
    Progress(s);
    step :| step != Cancel && Enabled(s, step);
    StepDecreases(s, step);
    KeepsContext(s, step);
  }

  lemma KeepsContext(s: State, step: Step)
    requires Enabled(s, step) && step != Cancel
    ensures Next(s, step).cancelled == s.cancelled
  {}

  lemma OneMore(s: State, steps: seq<Step>, step: Step)
    requires Interleaving(s, steps) && Enabled(After(s, steps), step)
    ensures Interleaving(s, steps + [step]) && After(s, steps + [step]) == Next(After(s, steps), step)
  {
    var longer := steps + [step];
    assert longer[..|longer| - 1] == steps;
  }

  /** Indeed every interleaving can be carried on to such an end without a further cancellation. */
  lemma {:induction false} Completes(s: State, steps: seq<Step>) returns (all: seq<Step>)
    requires Inv(s) && Interleaving(s, steps) && (s.limit > 0 || s.size == 0)
    ensures steps <= all && Interleaving(s, all)
    ensures Finished(After(s, all)) && After(s, all).cancelled == After(s, steps).cancelled
    decreases Remaining(After(s, steps))
  {
    InvHolds(s, steps);
    if Finished(After(s, steps)) {
      all := steps;
    } else {
      var step := NextStep(After(s, steps));
      OneMore(s, steps, step);
      all := Completes(s, steps + [step]);
    }
  }

  /** The launcher is at the first key of the batch and no worker has been started. */
  ghost predicate AtFirstAcquire(s: State) {
    && s.limit == 0 && s.size > 0 && |s.workers| == s.size
    && s.next == 0 && s.launcher in {Checking, Adding, Acquiring}
    && s.caller == Selecting && !s.doneClosed
    && s.sem == 0 && forall i :: 0 <= i < s.size ==> s.workers[i] == NotStarted
  }

  /** With MaxConcurrent 0 no interleaving gets past the first acquire before a cancellation. */
  lemma {:induction false} ZeroConcurrencyBlocks(length: nat, maxBatch: nat, steps: seq<Step>)
    requires length > 0 && maxBatch > 0 && Interleaving(Init(length, maxBatch, 0), steps)
    ensures var s := After(Init(length, maxBatch, 0), steps);
      s.cancelled || AtFirstAcquire(s)
  {
    if steps == [] {
    } else {
      var step := steps[|steps| - 1];
      var before := After(Init(length, maxBatch, 0), steps[..|steps| - 1]);
      ZeroConcurrencyBlocks(length, maxBatch, steps[..|steps| - 1]);
      assert After(Init(length, maxBatch, 0), steps) == Next(before, step);
      if AtFirstAcquire(before) {
        FirstAcquireStays(before, step);
      }
    }
  }

  lemma FirstAcquireStays(s: State, step: Step)
    requires AtFirstAcquire(s) && Enabled(s, step)
    ensures step == Cancel || AtFirstAcquire(Next(s, step)) || s.cancelled
    ensures s.cancelled ==> Next(s, step).cancelled
  {}

  /** It is reached after two steps, and there only a cancellation is possible. */
  lemma FirstAcquireIsStopped(length: nat, maxBatch: nat)
    requires length > 0 && maxBatch > 0
    ensures var s := After(Init(length, maxBatch, 0), [LaunchCheck, LaunchAdd]);
      && Interleaving(Init(length, maxBatch, 0), [LaunchCheck, LaunchAdd])
      && Stopped(s) && !s.cancelled && !s.caller.Returned?
  {
    var s0 := Init(length, maxBatch, 0);
    var one, two := [LaunchCheck], [LaunchCheck, LaunchAdd];
    assert one[..0] == [] && two[..1] == one;
    assert After(s0, one) == Next(s0, LaunchCheck);
    assert After(s0, two) == Next(Next(s0, LaunchCheck), LaunchAdd);
  }

  /** Every interleaving that goes on for as long as it can, without a cancellation, ends with the call returned. */
  ghost predicate AlwaysReturns(length: nat, maxBatch: nat, limit: nat) {
    forall steps :: Interleaving(Init(length, maxBatch, limit), steps) ==>
      var s := After(Init(length, maxBatch, limit), steps);
      Stopped(s) && !s.cancelled ==> s.caller.Returned?
  }

  /** An uncancelled call always returns if and only if a worker may run or the truncated batch is empty. */
  lemma AlwaysReturnsIff(length: nat, maxBatch: nat, limit: nat)
    ensures AlwaysReturns(length, maxBatch, limit) <==> limit > 0 || length == 0 || maxBatch == 0
  {
    if limit > 0 || length == 0 || maxBatch == 0 {
      forall steps | Interleaving(Init(length, maxBatch, limit), steps)
        ensures var s := After(Init(length, maxBatch, limit), steps); Stopped(s) ==> s.caller.Returned?
      {
        StoppedIsFinished(length, maxBatch, limit, steps);
      }
    } else {
      FirstAcquireIsStopped(length, maxBatch);
    }
  }
}
