/** The graceful stop of a persistent supervisor's workers: when the context of a worker is cancelled, told from
    its process, the calls of its release function and their contexts. */
module StopWindow {
  import opened Prelude
  import opened Supervisor
  import opened SupervisorRuns
  import PW = ProcessWorker

  // ----- invariant -----

  /** Every process has only had the waits of release calls of its own adapter. */
  ghost predicate ProcessSound(s: System, a: nat)
    requires a in s.workers
  {
    && PW.Inv(s.workers[a]) && PW.Orderly(s.workers[a])
    && (forall c :: c in s.workers[a].callers ==> c < |s.stopping| && s.stopping[c].adapter == a)
  }

  ghost predicate ProcessesSound(persistent: bool, s: System) {
    && (forall a :: a in s.workers ==> a < s.sup.made && ProcessSound(s, a))
    && (persistent ==> forall a :: a in s.sup.started ==> a in s.workers)
  }

  /** A release call has returned only if its wait is over, and has cancelled only for a reason. */
  ghost predicate CallSound(persistent: bool, s: System, i: nat)
    requires i < |s.stopping|
  {
    var x := s.stopping[i];
    && (x.returned ==> WaitOver(persistent, s, i))
    && (x.fired == Some(Timeout) ==> x.timedOut)
    && (x.fired == Some(WaitDone) ==> x.returned)
  }

  ghost predicate CancelledBy(s: System, a: nat, i: nat) {
    i < |s.stopping| && s.stopping[i].adapter == a && s.stopping[i].fired.Some?
  }

  ghost predicate CallsSound(persistent: bool, s: System) {
    && (forall i :: 0 <= i < |s.stopping| ==> CallSound(persistent, s, i))
    && (forall a :: a in s.sup.cancelled ==> a in s.sup.failedStops || exists i :: CancelledBy(s, a, i))
  }

  ghost predicate Inv(persistent: bool, s: System) {
    Books(s) && ProcessesSound(persistent, s) && CallsSound(persistent, s)
  }

  // ----- every step keeps it -----

  lemma BootedIsSound(s: System, a: nat)
    requires a in s.workers && s.workers[a] == BOOTED
    ensures ProcessSound(s, a)
  {
    BootedIsStarted();
    assert PW.Inv(PW.INIT);
    PW.RunKeepsInv(PW.INIT, [PW.StartLaunches(true, true), PW.StartAddsReader, PW.StartSpawns(true)]);
  }

  /** A step of the processes: what has returned has returned. */
  lemma MovedKeepsCallSound(persistent: bool, s: System, a: nat, step: PW.Step, i: nat)
    requires i < |s.stopping| && CallSound(persistent, s, i)
    ensures CallSound(persistent, Moved(s, a, step), i)
  {
    if persistent && s.stopping[i].returned && s.stopping[i].adapter == a {
      PW.ReturnedCallStays(s.workers[a], step, i);
    }
  }

  lemma MovedKeepsProcessSound(s: System, a: nat, step: PW.Step, b: nat)
    requires b in s.workers && ProcessSound(s, b)
    requires step.CallWait? ==> step.c < |s.stopping| && s.stopping[step.c].adapter == a
    ensures ProcessSound(Moved(s, a, step), b)
  {
    if a == b {
      PW.NextStaysOrderly(s.workers[a], step);
      forall c | c in PW.Next(s.workers[a], step).callers
        ensures c < |s.stopping| && s.stopping[c].adapter == a
      {
        if !(step.CallWait? && step.c == c) {
          PW.CallersGrowByWait(s.workers[a], step, c);
        }
      }
    }
  }

  lemma MovedKeepsInv(persistent: bool, s: System, a: nat, step: PW.Step)
    requires Inv(persistent, s)
    requires step.CallWait? ==> step.c < |s.stopping| && s.stopping[step.c].adapter == a
    ensures Inv(persistent, Moved(s, a, step))
  {
    hide ProcessSound, CallSound, Conserved;
    var t := Moved(s, a, step);
    forall b | b in t.workers
      ensures ProcessSound(t, b)
    {
      MovedKeepsProcessSound(s, a, step, b);
    }
    forall i | 0 <= i < |t.stopping|
      ensures CallSound(persistent, t, i)
    {
      MovedKeepsCallSound(persistent, s, a, step, i);
    }
    SameCancels(persistent, s, t);
  }

  /** Steps that cancel nothing and forget no call. */
  lemma SameCancels(persistent: bool, s: System, t: System)
    requires CallsSound(persistent, s) && s.sup.cancelled <= t.sup.cancelled && s.sup.failedStops <= t.sup.failedStops
    requires forall a :: a in t.sup.cancelled && a !in s.sup.cancelled ==>
               a in t.sup.failedStops || exists i :: CancelledBy(t, a, i)
    requires forall a, i :: CancelledBy(s, a, i) ==> CancelledBy(t, a, i)
    ensures forall a :: a in t.sup.cancelled ==> a in t.sup.failedStops || exists i :: CancelledBy(t, a, i)
  {
    forall a | a in t.sup.cancelled && a in s.sup.cancelled && a !in s.sup.failedStops
      ensures exists i :: CancelledBy(t, a, i)
    {
      var i: nat :| CancelledBy(s, a, i);
      assert CancelledBy(t, a, i);
    }
  }

  /** A step of the supervisor: calls and processes stay, except for a process just booted. */
  lemma SupervisorStepKeepsInv(persistent: bool, s: System, t: System)
    requires Inv(persistent, s) && Books(t) && t.stopping == s.stopping
    requires s.sup.made <= t.sup.made
    requires (t.workers == s.workers && (t.sup.started == s.sup.started || !persistent))
          || (t.workers == s.workers[s.sup.made := BOOTED] && t.sup.made > s.sup.made
              && t.sup.started == s.sup.started + [s.sup.made])
    requires s.sup.cancelled <= t.sup.cancelled && s.sup.failedStops <= t.sup.failedStops
    requires t.sup.cancelled - s.sup.cancelled <= t.sup.failedStops
    ensures Inv(persistent, t)
  {
    hide Conserved, ProcessSound, CallSound;
    forall a | a in t.workers
      ensures ProcessSound(t, a)
    {
      if a in s.workers {
        SameCallsKeepProcessSound(s, t, a);
      } else {
        BootedIsSound(t, a);
      }
    }
    forall i | 0 <= i < |t.stopping|
      ensures CallSound(persistent, t, i)
    {
      SameWorkersKeepCallSound(persistent, s, t, i);
    }
    assert forall a, i :: CancelledBy(s, a, i) ==> CancelledBy(t, a, i);
    SameCancels(persistent, s, t);
  }

  lemma SameCallsKeepProcessSound(s: System, t: System, a: nat)
    requires a in s.workers && ProcessSound(s, a)
    requires a in t.workers && t.workers[a] == s.workers[a] && t.stopping == s.stopping
    ensures ProcessSound(t, a)
  {
  }

  lemma SameWorkersKeepCallSound(persistent: bool, s: System, t: System, i: nat)
    requires i < |s.stopping| && CallSound(persistent, s, i) && t.stopping == s.stopping
    requires forall a :: a in s.workers ==> a in t.workers && t.workers[a] == s.workers[a]
    ensures CallSound(persistent, t, i)
  {
  }

  predicate IsReleaseStep(step: Step) {
    step.CallRelease? || step.WaitReturns? || step.TimeoutElapses? || step.Cancel?
  }

  /** A step of the release calls: the processes stay. */
  lemma ReleaseStepKeepsProcessSound(persistent: bool, s: System, step: Step, a: nat)
    requires a in s.workers && ProcessSound(s, a) && IsReleaseStep(step)
    ensures a in Next(persistent, s, step).workers && ProcessSound(Next(persistent, s, step), a)
  {
    hide PW.Inv, PW.Orderly;
  }

  lemma ReleaseStepKeepsCallSound(persistent: bool, s: System, step: Step, i: nat)
    requires IsReleaseStep(step) && i < |Next(persistent, s, step).stopping|
    requires i < |s.stopping| ==> CallSound(persistent, s, i)
    ensures CallSound(persistent, Next(persistent, s, step), i)
  {
  }

  lemma ReleaseStepKeepsCancels(persistent: bool, s: System, step: Step)
    requires CallsSound(persistent, s) && IsReleaseStep(step)
    ensures var t := Next(persistent, s, step);
            forall a :: a in t.sup.cancelled ==> a in t.sup.failedStops || exists i :: CancelledBy(t, a, i)
  {
    var t := Next(persistent, s, step);
    assert forall a, i :: CancelledBy(s, a, i) ==> CancelledBy(t, a, i);
    if step.Cancel? && t != s {
      assert CancelledBy(t, s.stopping[step.i].adapter, step.i);
    }
    SameCancels(persistent, s, t);
  }

  lemma ReleaseStepKeepsInv(persistent: bool, s: System, step: Step)
    requires Inv(persistent, s) && IsReleaseStep(step)
    ensures Inv(persistent, Next(persistent, s, step))
  {
    hide Conserved, ProcessSound, CallSound;
    var t := Next(persistent, s, step);
    NextKeepsBooks(persistent, s, step);
    forall a | a in t.workers
      ensures ProcessSound(t, a)
    {
      ReleaseStepKeepsProcessSound(persistent, s, step, a);
    }
    forall i | 0 <= i < |t.stopping|
      ensures CallSound(persistent, t, i)
    {
      ReleaseStepKeepsCallSound(persistent, s, step, i);
    }
    ReleaseStepKeepsCancels(persistent, s, step);
  }

  lemma NextKeepsInv(persistent: bool, s: System, step: Step)
    requires Inv(persistent, s)
    ensures Inv(persistent, Next(persistent, s, step))
  {
    hide Conserved, ProcessesSound, CallsSound, PW.Next;
    NextKeepsBooks(persistent, s, step);
    match step
    case CallWait(i) => if i < |s.stopping| { MovedKeepsInv(persistent, s, s.stopping[i].adapter, PW.CallWait(i)); }
    case WorkerMoves(a, move) => if !move.CallWait? { MovedKeepsInv(persistent, s, a, move); }
    case CallRelease(_) => ReleaseStepKeepsInv(persistent, s, step);
    case WaitReturns(_) => ReleaseStepKeepsInv(persistent, s, step);
    case TimeoutElapses(_) => ReleaseStepKeepsInv(persistent, s, step);
    case Cancel(_, _) => ReleaseStepKeepsInv(persistent, s, step);
    case _ => SupervisorStepKeepsInv(persistent, s, Next(persistent, s, step));
  }

  lemma {:induction false} RunKeepsInv(persistent: bool, s: System, schedule: seq<Step>)
    requires Inv(persistent, s)
    ensures Inv(persistent, Run(persistent, s, schedule))
    decreases |schedule|
  {
    if schedule != [] {
      NextKeepsInv(persistent, s, schedule[0]);
      RunKeepsInv(persistent, Next(persistent, s, schedule[0]), schedule[1..]);
    }
  }

  lemma Reached(persistent: bool, schedule: seq<Step>)
    ensures Inv(persistent, Run(persistent, INIT, schedule))
  {
    RunKeepsInv(persistent, INIT, schedule);
  }

  // ----- when a worker is cancelled -----

  predicate ProcessEnded(s: System, a: nat) {
    a in s.workers && PW.Ended(s.workers[a])
  }

  /** The call of Wait made by release call i, if it was made. */
  function WaitOf(s: System, i: nat): Option<PW.Caller>
    requires i < |s.stopping|
  {
    var a := s.stopping[i].adapter;
    if a in s.workers && i in s.workers[a].callers then Some(s.workers[a].callers[i]) else None
  }

  /** Its wait failed: the context given to the release function ended, or Wait had been called before. */
  predicate WaitFailed(s: System, i: nat)
    requires i < |s.stopping|
  {
    WaitOf(s, i).Some? && (WaitOf(s, i).value.ContextEnded? || WaitOf(s, i).value.AlreadyCalled?)
  }

  /** Its wait gave the event of the process, which has ended. */
  predicate WaitSucceeded(s: System, i: nat)
    requires i < |s.stopping|
  {
    var a := s.stopping[i].adapter;
    ProcessEnded(s, a) && WaitOf(s, i) == Some(PW.GotEvent(PW.EventOf(s.workers[a])))
  }

  lemma WaitOverMeans(s: System, i: nat)
    requires Inv(true, s) && i < |s.stopping| && WaitOver(true, s, i)
    ensures WaitFailed(s, i) || WaitSucceeded(s, i)
  {
    var a := s.stopping[i].adapter;
    assert ProcessSound(s, a);
    PW.OrderlyTellsTheOutcome(s.workers[a], i);
  }

  /** Why release call i cancelled: its stop timeout had elapsed, or its wait was over. */
  ghost predicate Justified(persistent: bool, s: System, i: nat)
    requires i < |s.stopping| && s.stopping[i].fired.Some?
  {
    match s.stopping[i].fired.value
    case Timeout => s.stopping[i].timedOut
    case WaitDone => persistent ==> WaitSucceeded(s, i) || WaitFailed(s, i)
  }

  /** Graceful stop window. A supervisor cancels the context of a worker only after it stopped it: at once if
      Stop failed, and otherwise through a call of its release function whose stop timeout has elapsed or whose
      wait is over. For a persistent supervisor such a wait gave the event of the process, which then has ended,
      or it failed. */
  lemma GracefulStopWindow(persistent: bool, schedule: seq<Step>)
    ensures var s := Run(persistent, INIT, schedule);
            && s.sup.failedStops <= s.sup.cancelled
            && (forall a :: a in s.sup.cancelled ==> a in s.sup.stops)
            && (forall a :: a in s.sup.cancelled && a !in s.sup.failedStops ==>
                  exists i: nat :: CancelledBy(s, a, i) && Justified(persistent, s, i))
  {
    Reached(persistent, schedule);
    var s := Run(persistent, INIT, schedule);
    forall a | a in s.sup.cancelled && a !in s.sup.failedStops
      ensures exists i: nat :: CancelledBy(s, a, i) && Justified(persistent, s, i)
    {
      var i: nat :| CancelledBy(s, a, i);
      assert CallSound(persistent, s, i);
      if persistent && s.stopping[i].fired == Some(WaitDone) {
        WaitOverMeans(s, i);
      }
      assert Justified(persistent, s, i);
    }
  }

  /** Exactly when a release call can cancel a worker whose process has not ended, in any reachable state: if
      its stop timeout has elapsed, or its wait failed. */
  lemma CancelBeforeEndIff(schedule: seq<Step>, i: nat)
    requires var s := Run(true, INIT, schedule);
             i < |s.stopping| && s.stopping[i].fired.None? && !ProcessEnded(s, s.stopping[i].adapter)
    ensures var s := Run(true, INIT, schedule);
            (exists reason :: CancelEnabled(Next(true, s, WaitReturns(i)), i, reason))
            <==> s.stopping[i].timedOut || WaitFailed(s, i)
  {
    Reached(true, schedule);
    var s := Run(true, INIT, schedule);
    var t := Next(true, s, WaitReturns(i));
    assert CallSound(true, s, i);
    if WaitOver(true, s, i) {
      WaitOverMeans(s, i);
      assert CancelEnabled(t, i, WaitDone);
    }
    if s.stopping[i].timedOut {
      assert CancelEnabled(t, i, Timeout);
    }
  }

  /** A wait finds that Wait was called before only if the same release function was called twice. */
  lemma AlreadyCalledMeansTwoCalls(s: System, i: nat)
    requires Inv(true, s) && i < |s.stopping| && WaitOf(s, i) == Some(PW.AlreadyCalled)
    ensures exists j :: 0 <= j < |s.stopping| && j != i && s.stopping[j].adapter == s.stopping[i].adapter
  {
    var a := s.stopping[i].adapter;
    assert ProcessSound(s, a);
    var j: nat :| PW.Winner(s.workers[a], j);
    assert j != i && s.stopping[j].adapter == a;
  }

  ghost predicate OneCallFor(s: System, a: nat) {
    forall i, j :: 0 <= i < j < |s.stopping| ==> s.stopping[i].adapter != a || s.stopping[j].adapter != a
  }

  /** So an adapter whose release function was called once is cancelled gracefully: its process has ended, or the
      stop timeout elapsed, or the context given to the release function ended. */
  lemma SingleReleaseIsGraceful(schedule: seq<Step>, a: nat)
    requires var s := Run(true, INIT, schedule);
             && a in s.sup.cancelled && a !in s.sup.failedStops
             && OneCallFor(s, a)
    ensures var s := Run(true, INIT, schedule);
            exists i: nat :: CancelledBy(s, a, i)
              && (ProcessEnded(s, a) || s.stopping[i].timedOut || WaitOf(s, i) == Some(PW.ContextEnded))
  {
    Reached(true, schedule);
    GracefulStopWindow(true, schedule);
    var s := Run(true, INIT, schedule);
    var i: nat :| CancelledBy(s, a, i) && Justified(true, s, i);
    if WaitOf(s, i) == Some(PW.AlreadyCalled) {
      AlreadyCalledMeansTwoCalls(s, i);
    }
  }

  /** A second call of a release function breaks the window: in any reachable state where a first call waits for
      a process that has not ended, the second one fails at once and cancels the worker. */
  lemma SecondReleaseCancelsEarly(schedule: seq<Step>, i: nat, k: nat)
    requires var s := Run(true, INIT, schedule);
             && i < |s.stopping| && WaitOf(s, i) == Some(PW.Selecting)
             && k < |s.releases| && s.releases[k] == s.stopping[i].adapter
             && !ProcessEnded(s, s.stopping[i].adapter)
    ensures var s := Run(true, INIT, schedule);
            var (a, j) := (s.stopping[i].adapter, |s.stopping|);
            var called := Next(true, Next(true, s, CallRelease(k)), CallWait(j));
            var t := Next(true, Next(true, called, WaitReturns(j)), Cancel(j, WaitDone));
            && a in t.sup.cancelled && !ProcessEnded(t, a)
            && i < |t.stopping| && WaitOf(t, i) == Some(PW.Selecting) && t.stopping[i] == s.stopping[i]
  {
    hide Inv, PW.Inv, PW.Orderly;
    Reached(true, schedule);
    var s := Run(true, INIT, schedule);
    var (a, j) := (s.stopping[i].adapter, |s.stopping|);
    var released := Next(true, s, CallRelease(k));
    SecondWaitFails(s, a, i);
    var called := Next(true, released, CallWait(j));
    var returned := Next(true, called, WaitReturns(j));
    assert returned.stopping[j].returned && CancelEnabled(returned, j, WaitDone);
  }

  lemma SecondWaitFails(s: System, a: nat, i: nat)
    requires Inv(true, s) && i < |s.stopping| && s.stopping[i].adapter == a && WaitOf(s, i) == Some(PW.Selecting)
    ensures var j := |s.stopping|;
            var w := PW.Next(s.workers[a], PW.CallWait(j));
            w == s.workers[a].(callers := s.workers[a].callers[j := PW.AlreadyCalled])
  {
    assert ProcessSound(s, a);
  }

  /** After the stop timeout of a release call has elapsed, the call can cancel, unless it has done so. */
  lemma TimeoutEnablesCancel(persistent: bool, s: System, i: nat)
    requires i < |s.stopping| && s.stopping[i].fired.None?
    ensures CancelEnabled(Next(persistent, s, TimeoutElapses(i)), i, Timeout)
  {
  }

  /** A stopped worker can always be got rid of, whatever its process does: Shutdown hands out a release function,
      and a call of it cancels when the timeout has elapsed; if Stop fails it is cancelled at once. */
  lemma ShutdownLeadsToCancel(persistent: bool, s: System, a: nat)
    requires s.sup.ref == Some(a)
    ensures var (k, i) := (|s.releases|, |s.stopping|);
            var released := Next(persistent, Next(persistent, s, CallShutdown(true)), CallRelease(k));
            var t := Next(persistent, Next(persistent, released, TimeoutElapses(i)), Cancel(i, Timeout));
            t.sup.ref == None && t.sup.stops == s.sup.stops + [a] && a in t.sup.cancelled
    ensures var t := Next(persistent, s, CallShutdown(false));
            t.sup.ref == None && t.sup.stops == s.sup.stops + [a] && a in t.sup.cancelled && t.releases == s.releases
  {
    var (k, i) := (|s.releases|, |s.stopping|);
    var released := Next(persistent, Next(persistent, s, CallShutdown(true)), CallRelease(k));
    assert released.stopping[i] == Stopping(a, false, false, None);
    TimeoutEnablesCancel(persistent, released, i);
  }

  function WaiterMoves(s: System, a: nat): System {
    Moved(s, a, PW.WaiterRuns)
  }

  lemma WaiterMovesKeepInv(s: System, a: nat)
    requires Inv(true, s)
    ensures Inv(true, WaiterMoves(WaiterMoves(WaiterMoves(s, a), a), a))
  {
    hide Inv, Moved;
    MovedKeepsInv(true, s, a, PW.WaiterRuns);
    MovedKeepsInv(true, WaiterMoves(s, a), a, PW.WaiterRuns);
    MovedKeepsInv(true, WaiterMoves(WaiterMoves(s, a), a), a, PW.WaiterRuns);
  }

  lemma WaiterMovesAre(s: System, a: nat)
    requires a in s.workers
    ensures WaiterMoves(WaiterMoves(WaiterMoves(s, a), a), a) ==
            s.(workers := s.workers[a := PW.WaiterNext(PW.WaiterNext(PW.WaiterNext(s.workers[a])))])
  {
    hide PW.WaiterNext;
  }

  lemma WaiterReachesCall(s: System, a: nat, i: nat)
    requires Inv(true, s) && i < |s.stopping| && s.stopping[i].adapter == a && WaitOf(s, i) == Some(PW.Selecting)
    requires ProcessEnded(s, a)
    ensures var sending := WaiterMoves(WaiterMoves(WaiterMoves(s, a), a), a);
            && sending == s.(workers := sending.workers)
            && WaitOf(sending, i) == Some(PW.Selecting) && sending.workers[a].waiter.Sending?
            && sending.workers[a].produced.Some? && !sending.workers[a].exitClosed
  {
    hide Moved, PW.WaiterNext, PW.Inv, PW.Orderly;
    assert ProcessSound(s, a);
    PW.WaiterReachesSending(s.workers[a], i);
    WaiterMovesAre(s, a);
  }

  lemma CallReceives(s: System, a: nat, i: nat)
    requires Inv(true, s) && i < |s.stopping| && s.stopping[i].adapter == a && WaitOf(s, i) == Some(PW.Selecting)
    requires s.workers[a].waiter.Sending? && s.workers[a].produced.Some? && !s.workers[a].exitClosed
    ensures var told := Next(true, s, WorkerMoves(a, PW.Receive(i)));
            told == s.(workers := told.workers) && WaitOver(true, told, i) && WaitSucceeded(told, i)
  {
    var told := Next(true, s, WorkerMoves(a, PW.Receive(i)));
    assert told.workers[a].callers[i] == PW.GotEvent(s.workers[a].produced.value);
    MovedKeepsInv(true, s, a, PW.Receive(i));
    WaitOverMeans(told, i);
  }

  /** Stopping ends: in any reachable state where a release call waits for a process that has ended, three steps
      of the waiter hand it the event, after which it returns and cancels. */
  lemma EndedWorkerIsReleased(schedule: seq<Step>, i: nat)
    requires var s := Run(true, INIT, schedule);
             && i < |s.stopping| && s.stopping[i].fired.None? && WaitOf(s, i) == Some(PW.Selecting)
             && ProcessEnded(s, s.stopping[i].adapter)
    ensures var s := Run(true, INIT, schedule);
            var a := s.stopping[i].adapter;
            var sending := WaiterMoves(WaiterMoves(WaiterMoves(s, a), a), a);
            var told := Next(true, sending, WorkerMoves(a, PW.Receive(i)));
            var t := Next(true, Next(true, told, WaitReturns(i)), Cancel(i, WaitDone));
            a in t.sup.cancelled && i < |t.stopping| && WaitSucceeded(t, i)
  {
    hide Inv, PW.Next, PW.WaiterNext;
    Reached(true, schedule);
    var s := Run(true, INIT, schedule);
    var a := s.stopping[i].adapter;
    WaiterMovesKeepInv(s, a);
    WaiterReachesCall(s, a, i);
    CallReceives(WaiterMoves(WaiterMoves(WaiterMoves(s, a), a), a), a, i);
  }
}
