/** The exit-event hand-off of ProcessWorker: the waiter goroutine of Start, any number of callers of Wait and
    WaitFor, and the three channels between them.

    A schedule is any sequence of steps; a step that is not enabled leaves the state alone. The check and the
    close at the top of Wait are one step, as for callers that do not race each other there. A WaitFor is a
    Wait whose context may also end by itself. */
module ProcessWorker {
  import opened Prelude

  datatype ExitEvent = ExitEvent(code: Option<int>, signal: Option<int>, stderr: string) {
    predicate Success() {
      code == Some(0)
    }
  }

  /** What a receive from a closed channel yields. */
  const ZERO_EVENT := ExitEvent(None, None, "")

  /** Error of cmd.Wait: nil, an ExitError with its WaitStatus (ExitStatus is -1 unless the process exited),
      or any other error. */
  datatype WaitError = Nil | ExitError(status: int, signal: int) | OtherError

  /** getExitEvent: exactly one of exit code and signal is reported; an unknown failure counts as code 1. */
  function GetExitEvent(err: WaitError, stderr: string): (e: ExitEvent)
    ensures e.code.Some? <==> e.signal.None?
    ensures e.Success() <==> err == Nil || (err.ExitError? && err.status == 0)
    ensures e.signal.Some? <==> err.ExitError? && err.status < 0
    ensures err.ExitError? ==> e.code == Some(err.status) || e.signal == Some(err.signal)
    ensures err.OtherError? ==> e.code == Some(1)
    ensures e.stderr == stderr && e != ZERO_EVENT
  {
    match err
    case Nil => ExitEvent(Some(0), None, stderr)
    case ExitError(status, signal) =>
      if status >= 0 then ExitEvent(Some(status), None, stderr) else ExitEvent(None, Some(signal), stderr)
    case OtherError => ExitEvent(Some(1), None, stderr)
  }

  /** Launched: Start holds its lock and has launched the waiter, but has not started the process yet. */
  datatype Process = Unstarted | Launched | FailedToStart | Running | Exited(err: WaitError)

  datatype Waiter = NotLaunched | AwaitWait | AwaitStderr | AwaitProcess | Sending | CloseExit | CloseDone | Finished

  datatype Caller = Selecting | GotEvent(event: ExitEvent) | AlreadyCalled | ContextEnded

  /** `readerAdded` and `readerDone` are the two changes of stderrWg. `fault` records a double close or a send
      on a closed channel, either of which panics in Go. */
  datatype Worker = Worker(
    process: Process, readerAdded: bool, readerDone: bool, stderr: string,
    waitClosed: bool, exitClosed: bool, doneClosed: bool,
    waiter: Waiter, produced: Option<ExitEvent>, callers: map<nat, Caller>, fault: bool)

  datatype Step =
    | StartLaunches(ctxOk: bool, pipeOk: bool)
    | StartAddsReader
    | StartSpawns(startOk: bool)
    | ProcessExits(err: WaitError)
    | StderrReads(text: string)
    | StderrEnds
    | WaiterRuns
    | CallWait(c: nat)
    | ContextEnds(c: nat)
    | Receive(c: nat)

  const INIT := Worker(Unstarted, false, false, "", false, false, false, NotLaunched, None, map[], false)

  predicate IsCall(step: Step) {
    step.CallWait? || step.ContextEnds? || step.Receive?
  }

  function Next(w: Worker, step: Step): Worker {
    if IsCall(step) then CallerNext(w, step) else WorkerNext(w, step)
  }

  /** A step of Start, of the process, of its stderr or of the waiter goroutine. */
  function WorkerNext(w: Worker, step: Step): (t: Worker)
    requires !IsCall(step)
    ensures t.callers == w.callers && t.waitClosed == w.waitClosed
  {
    match step
    case StartLaunches(ctxOk, pipeOk) =>
      // A second Start finds the process, or waits for the lock, or finds the stderr pipe already taken.
      if w.process.Unstarted? && ctxOk && pipeOk then w.(process := Launched, waiter := AwaitWait) else w
    case StartAddsReader => if w.process.Launched? then w.(readerAdded := true) else w
    case StartSpawns(startOk) =>
      if w.process.Launched? && w.readerAdded then w.(process := if startOk then Running else FailedToStart) else w
    case ProcessExits(err) => if w.process.Running? then w.(process := Exited(err)) else w
    case StderrReads(text) => if Spawned(w) && !w.readerDone then w.(stderr := w.stderr + text) else w
    case StderrEnds => if Spawned(w) then w.(readerDone := true) else w
    case WaiterRuns => WaiterNext(w)
  }

  predicate Spawned(w: Worker) {
    w.process.FailedToStart? || w.process.Running? || w.process.Exited?
  }

  /** A step of a caller of Wait or WaitFor. A call that has returned takes no more steps. */
  function CallerNext(w: Worker, step: Step): (t: Worker)
    requires IsCall(step)
    ensures step.c in w.callers && !w.callers[step.c].Selecting? ==> t == w
    ensures t.callers - {step.c} == w.callers - {step.c}
    ensures t.process == w.process && t.readerAdded == w.readerAdded && t.readerDone == w.readerDone
    ensures t.stderr == w.stderr
  {
    match step
    case CallWait(c) =>
      if c in w.callers then w
      else if w.waitClosed then w.(callers := w.callers[c := AlreadyCalled])
      else w.(waitClosed := true, callers := w.callers[c := Selecting])
    case ContextEnds(c) =>
      if c in w.callers && w.callers[c].Selecting? then w.(callers := w.callers[c := ContextEnded]) else w
    case Receive(c) =>
      if !(c in w.callers && w.callers[c].Selecting?) then w
      else if w.exitClosed then w.(callers := w.callers[c := GotEvent(ZERO_EVENT)])
      else if w.waiter.Sending? && w.produced.Some? then
        w.(callers := w.callers[c := GotEvent(w.produced.value)], waiter := CloseExit)
      else w
  }

  /** One step of the goroutine launched by Start; its send completes in `Receive`. While the reader is not
      yet registered, stderrWg.Wait does not block; while the process is not there, neither does cmd.Wait. */
  function WaiterNext(w: Worker): (t: Worker)
    ensures t.callers == w.callers && t.waitClosed == w.waitClosed
    ensures t.process == w.process && t.readerAdded == w.readerAdded && t.readerDone == w.readerDone
    ensures t.stderr == w.stderr
  {
    match w.waiter
    case NotLaunched => w
    case AwaitWait => if w.waitClosed then w.(waiter := AwaitStderr) else w
    case AwaitStderr => if !w.readerAdded || w.readerDone then w.(waiter := AwaitProcess) else w
    case AwaitProcess => if w.process.Running? then w else w.(waiter := Sending, produced := Some(EventOf(w)))
    case Sending => if w.exitClosed then w.(fault := true) else w
    case CloseExit => if w.exitClosed then w.(fault := true) else w.(exitClosed := true, waiter := CloseDone)
    case CloseDone => if w.doneClosed then w.(fault := true) else w.(doneClosed := true, waiter := Finished)
    case Finished => w
  }

  /** What cmd.Wait and the stderr buffer amount to at this moment. */
  function EventOf(w: Worker): ExitEvent {
    GetExitEvent(if w.process.Exited? then w.process.err else OtherError, w.stderr)
  }

  function Run(w: Worker, schedule: seq<Step>): Worker
    decreases |schedule|
  {
    if schedule == [] then w else Run(Next(w, schedule[0]), schedule[1..])
  }

  // ----- invariant -----

  /** The caller that closed `wait`, if any: the only one that is not turned away. */
  ghost predicate Winner(w: Worker, c: nat) {
    c in w.callers && !w.callers[c].AlreadyCalled?
  }

  ghost predicate Delivered(w: Worker) {
    exists c :: Winner(w, c) && w.callers[c].GotEvent?
  }

  predicate PastSending(x: Waiter) {
    x.CloseExit? || x.CloseDone? || x.Finished?
  }

  ghost predicate Inv(w: Worker) {
    && !w.fault
    && (w.waitClosed <==> exists c :: Winner(w, c))
    && (forall c, c' :: Winner(w, c) && Winner(w, c') ==> c == c')
    && (forall c :: c in w.callers ==> w.waitClosed)
    && (forall c :: Winner(w, c) && w.callers[c].GotEvent? ==> w.produced == Some(w.callers[c].event))
    && (PastSending(w.waiter) <==> Delivered(w))
    && (w.exitClosed <==> w.waiter.CloseDone? || w.waiter.Finished?)
    && (w.doneClosed <==> w.waiter.Finished?)
    && (w.produced.Some? <==> w.waiter.Sending? || PastSending(w.waiter))
    && w.produced != Some(ZERO_EVENT)
    && (w.waiter.NotLaunched? <==> w.process.Unstarted?)
    && (!w.waiter.NotLaunched? && !w.waiter.AwaitWait? ==> w.waitClosed)
    && (Spawned(w) ==> w.readerAdded) && (w.readerDone ==> Spawned(w))
    && (w.readerAdded ==> !w.process.Unstarted?)
  }

  /** Steps that do not touch the callers keep who won and who got the event. */
  lemma SameCallers(w: Worker, t: Worker)
    requires w.callers == t.callers
    ensures forall c :: Winner(w, c) <==> Winner(t, c)
    ensures Delivered(w) <==> Delivered(t)
  {
    assert forall c :: Winner(w, c) <==> Winner(t, c);
  }

  lemma CallerStepKeepsInv(w: Worker, step: Step)
    requires Inv(w) && IsCall(step)
    ensures Inv(Next(w, step))
  {
    var t := Next(w, step);
    var c := step.c;
    assert forall d :: d != c ==> (Winner(t, d) <==> Winner(w, d)) && (Winner(w, d) ==> t.callers[d] == w.callers[d]);
    if t != w {
      if step.CallWait? && w.waitClosed {
        assert !Winner(w, c) && !Winner(t, c);
      } else {
        assert step.CallWait? || Winner(w, c);
        assert Winner(t, c);
      }
    }
  }

  lemma NextKeepsInv(w: Worker, step: Step)
    requires Inv(w)
    ensures Inv(Next(w, step))
  {
    if IsCall(step) {
      CallerStepKeepsInv(w, step);
    } else {
      SameCallers(w, Next(w, step));
    }
  }

  lemma {:induction false} RunKeepsInv(w: Worker, schedule: seq<Step>)
    requires Inv(w)
    ensures Inv(Run(w, schedule))
    decreases |schedule|
  {
    if schedule != [] {
      NextKeepsInv(w, schedule[0]);
      RunKeepsInv(Next(w, schedule[0]), schedule[1..]);
    }
  }

  /** Exit-event hand-off. In every run at most one call gets an exit event; it is the event the waiter
      produced, never the zero event of the closed channel; and no channel is closed twice or sent on after
      closing. */
  lemma ExitEventIsHandedOverOnce(schedule: seq<Step>)
    ensures var w := Run(INIT, schedule);
            && !w.fault
            && (forall c, c' :: c in w.callers && c' in w.callers ==>
                  w.callers[c].GotEvent? && w.callers[c'].GotEvent? ==> c == c')
            && (forall c :: c in w.callers && w.callers[c].GotEvent? ==>
                  w.produced == Some(w.callers[c].event) && w.callers[c].event != ZERO_EVENT)
  {
    assert Inv(INIT);
    RunKeepsInv(INIT, schedule);
    var w := Run(INIT, schedule);
    forall c | c in w.callers && w.callers[c].GotEvent?
      ensures Winner(w, c)
    {
    }
  }

  // ----- whose event it is -----

  /** The process has ended, or never started, and its stderr was read to the end. */
  predicate Ended(w: Worker) {
    (w.process.FailedToStart? || w.process.Exited?) && w.readerDone
  }

  /** If call c was given an event, it is how the process ended, with all of its stderr. */
  predicate ToldTheOutcome(w: Worker, c: nat) {
    c in w.callers && w.callers[c].GotEvent? ==> Ended(w) && w.callers[c].event == EventOf(w)
  }

  /** `wait` was not closed before the stderr reader was registered. */
  ghost predicate Orderly(w: Worker) {
    && w.readerAdded
    && (w.waiter.AwaitProcess? || w.produced.Some? ==> w.readerDone)
    && (w.produced.Some? ==> Ended(w) && w.produced == Some(EventOf(w)))
  }

  lemma NextStaysOrderly(w: Worker, step: Step)
    requires Inv(w) && Orderly(w)
    ensures Inv(Next(w, step)) && Orderly(Next(w, step))
  {
    NextKeepsInv(w, step);
  }

  /** In an orderly worker a call that got an event was told the outcome. */
  lemma OrderlyTellsTheOutcome(w: Worker, c: nat)
    requires Inv(w) && Orderly(w)
    ensures ToldTheOutcome(w, c)
  {
    assert c in w.callers && w.callers[c].GotEvent? ==> Winner(w, c);
  }

  lemma {:induction false} RunStaysOrderly(w: Worker, schedule: seq<Step>)
    requires Inv(w) && Orderly(w)
    ensures Inv(Run(w, schedule)) && Orderly(Run(w, schedule))
    decreases |schedule|
  {
    if schedule != [] {
      NextStaysOrderly(w, schedule[0]);
      RunStaysOrderly(Next(w, schedule[0]), schedule[1..]);
    }
  }

  /** The shortest way from a call to an event: the waiter passes stderrWg and cmd.Wait, and sends. */
  function Hasty(c: nat): seq<Step> {
    [StartLaunches(true, true), WaiterRuns, WaiterRuns, WaiterRuns, Receive(c)]
  }

  lemma RunOfHasty(w: Worker, c: nat)
    ensures Run(w, Hasty(c)) ==
            Next(WaiterNext(WaiterNext(WaiterNext(Next(w, StartLaunches(true, true))))), Receive(c))
  {
    var w1 := Next(w, StartLaunches(true, true));
    var w4 := WaiterNext(WaiterNext(WaiterNext(w1)));
    assert Hasty(c)[1..] == [WaiterRuns, WaiterRuns, WaiterRuns, Receive(c)];
    assert [WaiterRuns, WaiterRuns, WaiterRuns, Receive(c)][1..] == [WaiterRuns, WaiterRuns, Receive(c)];
    assert [WaiterRuns, WaiterRuns, Receive(c)][1..] == [WaiterRuns, Receive(c)];
    assert [WaiterRuns, Receive(c)][1..] == [Receive(c)] && [Receive(c)][1..] == [];
    assert Run(w, Hasty(c)) == Run(w1, Hasty(c)[1..]);
    assert Run(w1, Hasty(c)[1..]) == Run(WaiterNext(w1), [WaiterRuns, WaiterRuns, Receive(c)]);
    assert Run(WaiterNext(WaiterNext(w1)), [WaiterRuns, Receive(c)]) == Run(w4, [Receive(c)]);
    assert Run(Next(w4, Receive(c)), []) == Next(w4, Receive(c));
  }

  /** Before the reader is registered, a waiter that is let go reports a failure of a process that was not
      even started. */
  lemma HastyWaitIsMisinformed(w: Worker, c: nat)
    requires Inv(w) && !w.waitClosed && c !in w.callers && !w.readerAdded
    ensures !ToldTheOutcome(Run(Next(w, CallWait(c)), Hasty(c)), c)
  {
    RunOfHasty(Next(w, CallWait(c)), c);
  }

  /** Exactly when the first call of Wait is sure to be told how the process ended, whatever happens next: if
      Start had registered the stderr reader by then, which it has once it returns. An earlier call, made
      before or during Start, can be told of a failure with code 1 while the process is about to run. */
  lemma WaitIsToldTheOutcomeIff(before: seq<Step>, c: nat)
    requires !Run(INIT, before).waitClosed && c !in Run(INIT, before).callers
    ensures (forall after :: ToldTheOutcome(Run(Next(Run(INIT, before), CallWait(c)), after), c))
            <==> Run(INIT, before).readerAdded
  {
    assert Inv(INIT);
    RunKeepsInv(INIT, before);
    var w := Run(INIT, before);
    var called := Next(w, CallWait(c));
    NextKeepsInv(w, CallWait(c));
    if w.readerAdded {
      forall after
        ensures ToldTheOutcome(Run(called, after), c)
      {
        RunStaysOrderly(called, after);
        OrderlyTellsTheOutcome(Run(called, after), c);
      }
    } else {
      HastyWaitIsMisinformed(w, c);
    }
  }

  /** So a first call of Wait made after Start has returned is told how the process ended, whatever happens. */
  lemma WaitAfterStartIsTold(before: seq<Step>, c: nat, after: seq<Step>)
    requires Spawned(Run(INIT, before)) && !Run(INIT, before).waitClosed && c !in Run(INIT, before).callers
    ensures ToldTheOutcome(Run(Next(Run(INIT, before), CallWait(c)), after), c)
  {
    assert Inv(INIT);
    RunKeepsInv(INIT, before);
    WaitIsToldTheOutcomeIff(before, c);
  }

  // ----- what the event says -----

  /** How the process exits along the schedule, if it does: the error of its exit while it runs. */
  function ExitAlong(w: Worker, schedule: seq<Step>): Option<WaitError>
    decreases |schedule|
  {
    if schedule == [] then None
    else if schedule[0].ProcessExits? && w.process.Running? then Some(schedule[0].err)
    else ExitAlong(Next(w, schedule[0]), schedule[1..])
  }

  predicate SpawnDecides(w: Worker, step: Step) {
    step.StartSpawns? && w.process.Launched? && w.readerAdded
  }

  /** Whether the process can be started, along the schedule, if Start gets that far. */
  function SpawnAlong(w: Worker, schedule: seq<Step>): Option<bool>
    decreases |schedule|
  {
    if schedule == [] then None
    else if SpawnDecides(w, schedule[0]) then Some(schedule[0].startOk)
    else SpawnAlong(Next(w, schedule[0]), schedule[1..])
  }

  /** What the process writes to stderr along the schedule, up to the end of it. */
  function StderrAlong(w: Worker, schedule: seq<Step>): string
    decreases |schedule|
  {
    if schedule == [] then ""
    else
      (if ReadsStderr(w, schedule[0]) then schedule[0].text else "")
      + StderrAlong(Next(w, schedule[0]), schedule[1..])
  }

  predicate ReadsStderr(w: Worker, step: Step) {
    step.StderrReads? && Spawned(w) && !w.readerDone
  }

  lemma NextMovesProcess(w: Worker, step: Step)
    ensures if step.ProcessExits? && w.process.Running? then Next(w, step).process == Exited(step.err)
            else Next(w, step).process.Exited? <==> w.process.Exited?
    ensures w.process.Exited? ==> Next(w, step).process == w.process
    ensures if SpawnDecides(w, step) then Next(w, step).process == if step.startOk then Running else FailedToStart
            else Spawned(Next(w, step)) <==> Spawned(w)
    ensures w.process.FailedToStart? ==> Next(w, step).process.FailedToStart?
    ensures w.process.Running? || w.process.Exited? ==>
              Next(w, step).process.Running? || Next(w, step).process.Exited?
  {
    hide CallerNext, WaiterNext;
  }

  lemma NextMovesStderr(w: Worker, step: Step)
    ensures Next(w, step).stderr == if ReadsStderr(w, step) then w.stderr + step.text else w.stderr
  {
    hide CallerNext, WaiterNext;
  }

  lemma {:induction false} ExitedStays(w: Worker, schedule: seq<Step>)
    requires w.process.Exited?
    ensures Run(w, schedule).process == w.process
    decreases |schedule|
  {
    hide Next;
    if schedule != [] {
      NextMovesProcess(w, schedule[0]);
      ExitedStays(Next(w, schedule[0]), schedule[1..]);
    }
  }

  lemma {:induction false} ProcessFollowsTheSchedule(w: Worker, schedule: seq<Step>)
    requires !w.process.Exited?
    ensures match ExitAlong(w, schedule)
            case None => !Run(w, schedule).process.Exited?
            case Some(err) => Run(w, schedule).process == Exited(err)
    decreases |schedule|
  {
    hide Next;
    if schedule != [] {
      NextMovesProcess(w, schedule[0]);
      if schedule[0].ProcessExits? && w.process.Running? {
        ExitedStays(Next(w, schedule[0]), schedule[1..]);
      } else {
        ProcessFollowsTheSchedule(Next(w, schedule[0]), schedule[1..]);
      }
    }
  }

  lemma {:induction false} SpawnedStays(w: Worker, schedule: seq<Step>)
    requires Spawned(w)
    ensures Run(w, schedule).process.FailedToStart? <==> w.process.FailedToStart?
    ensures Spawned(Run(w, schedule))
    decreases |schedule|
  {
    hide Next;
    if schedule != [] {
      NextMovesProcess(w, schedule[0]);
      SpawnedStays(Next(w, schedule[0]), schedule[1..]);
    }
  }

  lemma {:induction false} SpawnFollowsTheSchedule(w: Worker, schedule: seq<Step>)
    requires !Spawned(w)
    ensures match SpawnAlong(w, schedule)
            case None => !Spawned(Run(w, schedule))
            case Some(ok) => Spawned(Run(w, schedule)) && (Run(w, schedule).process.FailedToStart? <==> !ok)
    decreases |schedule|
  {
    hide Next;
    if schedule != [] {
      NextMovesProcess(w, schedule[0]);
      if SpawnDecides(w, schedule[0]) {
        SpawnedStays(Next(w, schedule[0]), schedule[1..]);
      } else {
        SpawnFollowsTheSchedule(Next(w, schedule[0]), schedule[1..]);
      }
    }
  }

  lemma UnstartedStays(w: Worker, step: Step)
    requires w.process.Unstarted? && (step.StartLaunches? ==> !step.ctxOk || !step.pipeOk)
    ensures Next(w, step).process.Unstarted?
  {
    hide CallerNext, WaiterNext, Spawned;
  }

  /** Start launches nothing with a context that has ended or without a pipe for stderr. */
  lemma {:induction false} RefusedStartLaunchesNothing(schedule: seq<Step>, w: Worker)
    requires w.process.Unstarted?
    requires forall i :: 0 <= i < |schedule| && schedule[i].StartLaunches? ==> !schedule[i].ctxOk || !schedule[i].pipeOk
    ensures Run(w, schedule).process.Unstarted?
    decreases |schedule|
  {
    hide Next;
    if schedule != [] {
      UnstartedStays(w, schedule[0]);
      RefusedStartLaunchesNothing(schedule[1..], Next(w, schedule[0]));
    }
  }

  lemma {:induction false} StderrFollowsTheSchedule(w: Worker, schedule: seq<Step>)
    ensures Run(w, schedule).stderr == w.stderr + StderrAlong(w, schedule)
    decreases |schedule|
  {
    hide Next;
    if schedule != [] {
      NextMovesStderr(w, schedule[0]);
      StderrFollowsTheSchedule(Next(w, schedule[0]), schedule[1..]);
    }
  }

  lemma {:induction false} RunAppend(w: Worker, a: seq<Step>, b: seq<Step>)
    ensures Run(w, a + b) == Run(Run(w, a), b)
    decreases |a|
  {
    if a == [] {
      assert a + b == b;
    } else {
      assert (a + b)[1..] == a[1..] + b;
      RunAppend(Next(w, a[0]), a[1..], b);
    }
  }

  /** What a Wait made after Start has returned reports, told from the schedule alone: the exit code or the signal
      that the process ended with, code 1 if that is unknown or the process never started, and all that it wrote
      to stderr, in order. */
  lemma WaitReportsTheProcess(before: seq<Step>, c: nat, after: seq<Step>)
    requires Spawned(Run(INIT, before)) && !Run(INIT, before).waitClosed && c !in Run(INIT, before).callers
    requires var w := Run(INIT, before + [CallWait(c)] + after); c in w.callers && w.callers[c].GotEvent?
    ensures var schedule := before + [CallWait(c)] + after;
            var ExitEvent(code, signal, stderr) := Run(INIT, schedule).callers[c].event;
            && stderr == StderrAlong(INIT, schedule)
            && match ExitAlong(INIT, schedule)
               case Some(Nil) => code == Some(0) && signal == None
               case Some(ExitError(status, number)) =>
                 if status >= 0 then code == Some(status) && signal == None else code == None && signal == Some(number)
               case _ => code == Some(1) && signal == None
    ensures var schedule := before + [CallWait(c)] + after;
            SpawnAlong(INIT, schedule) == Some(ExitAlong(INIT, schedule).Some?)
  {
    var schedule := before + [CallWait(c)] + after;
    var w := Run(INIT, before);
    RunAppend(INIT, before + [CallWait(c)], after);
    RunAppend(INIT, before, [CallWait(c)]);
    assert Run(w, [CallWait(c)]) == Run(Next(w, CallWait(c)), []);
    WaitAfterStartIsTold(before, c, after);
    ProcessFollowsTheSchedule(INIT, schedule);
    SpawnFollowsTheSchedule(INIT, schedule);
    StderrFollowsTheSchedule(INIT, schedule);
  }

  // ----- progress -----

  /** A Wait from start to end: the process writes to stderr, closes it and exits, the waiter hands its event to
      the call, and then closes both channels. */
  lemma WaitCompletes(before: seq<Step>, c: nat, text: string, err: WaitError)
    requires var w := Run(INIT, before);
             w.process.Running? && !w.readerDone && !w.waitClosed && c !in w.callers
    ensures var w := Run(INIT, before);
            var ended := Next(Next(Next(Next(w, CallWait(c)), StderrReads(text)), StderrEnds), ProcessExits(err));
            var told := Next(WaiterNext(WaiterNext(WaiterNext(ended))), Receive(c));
            var t := WaiterNext(WaiterNext(told));
            && c in t.callers && t.callers[c] == GotEvent(GetExitEvent(err, w.stderr + text))
            && t.exitClosed && t.doneClosed && t.waiter.Finished? && !t.fault
  {
    assert Inv(INIT);
    RunKeepsInv(INIT, before);
    var w := Run(INIT, before);
    var ended := Next(Next(Next(Next(w, CallWait(c)), StderrReads(text)), StderrEnds), ProcessExits(err));
    assert w.waiter.AwaitWait? && ended == w.(waitClosed := true, callers := w.callers[c := Selecting],
      stderr := w.stderr + text, readerDone := true, process := Exited(err));
    var told := Next(WaiterNext(WaiterNext(WaiterNext(ended))), Receive(c));
    assert told.waiter.CloseExit? && told.callers[c] == GotEvent(GetExitEvent(err, w.stderr + text));
  }

  /** A call of Wait is turned away exactly if there was one before. */
  lemma WaitIsTurnedAwayIff(before: seq<Step>, c: nat)
    requires c !in Run(INIT, before).callers
    ensures var called := Next(Run(INIT, before), CallWait(c)).callers;
            && c in called && (called[c].AlreadyCalled? || called[c].Selecting?)
            && (called[c].AlreadyCalled? <==> exists d :: d in Run(INIT, before).callers)
  {
    assert Inv(INIT);
    RunKeepsInv(INIT, before);
  }

  /** A waiting call gives up exactly when its context ends, and whenever it does. */
  lemma WaitGivesUpIff(w: Worker, step: Step, c: nat)
    requires c in w.callers && w.callers[c].Selecting?
    ensures c in Next(w, step).callers && (Next(w, step).callers[c].ContextEnded? <==> step == ContextEnds(c))
  {
    if IsCall(step) && step.c != c {
      assert c in w.callers - {step.c} && c in CallerNext(w, step).callers - {step.c};
    }
  }

  /** No deadlock: in any reachable state where a call waits and the process has ended, the waiter needs at
      most three steps before that call can receive the event. */
  lemma WaitingCallCanReceive(schedule: seq<Step>, c: nat)
    requires var w := Run(INIT, schedule);
             c in w.callers && w.callers[c].Selecting? && Ended(w)
    ensures var x := WaiterNext(WaiterNext(WaiterNext(Run(INIT, schedule))));
            var t := Next(x, Receive(c));
            && x.produced.Some? && c in t.callers && t.callers[c] == GotEvent(x.produced.value) && !t.fault
            && (Run(INIT, schedule).produced.None? ==> x.produced == Some(EventOf(Run(INIT, schedule))))
  {
    assert Inv(INIT);
    RunKeepsInv(INIT, schedule);
    WaiterReachesSending(Run(INIT, schedule), c);
  }

  lemma WaiterReachesSending(w: Worker, c: nat)
    requires Inv(w) && c in w.callers && w.callers[c].Selecting? && Ended(w)
    ensures var x := WaiterNext(WaiterNext(WaiterNext(w)));
            && x.waiter.Sending? && x.produced.Some? && !x.exitClosed && x.callers == w.callers && !x.fault
            && (w.produced.None? ==> x.produced == Some(EventOf(w)))
  {
    assert Winner(w, c);
    assert !PastSending(w.waiter);
  }

  /** `done` closes only after a call got the event; so once the one effective Wait has given up because its
      context ended, the waiter stays blocked for ever and neither channel ever closes. */
  lemma AbandonedWaitBlocksTheWaiter(before: seq<Step>, after: seq<Step>, c: nat)
    requires c in Run(INIT, before).callers && Run(INIT, before).callers[c].ContextEnded?
    ensures var w := Run(Run(INIT, before), after);
            !w.exitClosed && !w.doneClosed && !PastSending(w.waiter)
  {
    assert Inv(INIT);
    RunKeepsInv(INIT, before);
    ContextEndedIsFinal(Run(INIT, before), after, c);
    RunKeepsInv(Run(INIT, before), after);
    assert Winner(Run(Run(INIT, before), after), c);
  }

  /** A call that has returned stays as it is. */
  lemma ReturnedCallStays(w: Worker, step: Step, c: nat)
    requires c in w.callers && !w.callers[c].Selecting?
    ensures c in Next(w, step).callers && Next(w, step).callers[c] == w.callers[c]
  {
    if IsCall(step) && step.c != c {
      assert c in w.callers - {step.c} && c in CallerNext(w, step).callers - {step.c};
    }
  }

  /** Only a call of Wait adds a caller. */
  lemma CallersGrowByWait(w: Worker, step: Step, c: nat)
    requires c in Next(w, step).callers && !(step.CallWait? && step.c == c)
    ensures c in w.callers
  {
    if IsCall(step) && step.c != c {
      assert c in CallerNext(w, step).callers - {step.c};
    }
  }

  lemma {:induction false} ContextEndedIsFinal(w: Worker, schedule: seq<Step>, c: nat)
    requires c in w.callers && w.callers[c].ContextEnded?
    ensures c in Run(w, schedule).callers && Run(w, schedule).callers[c].ContextEnded?
    decreases |schedule|
  {
    if schedule != [] {
      ReturnedCallStays(w, schedule[0], c);
      var next := Next(w, schedule[0]);
      ContextEndedIsFinal(next, schedule[1..], c);
      assert Run(w, schedule) == Run(next, schedule[1..]);
    }
  }
}
