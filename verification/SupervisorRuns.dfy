/** One WorkerSupervisor under any interleaving of Start, Send, Suspend, Shutdown and the release functions
    they hand out, together with the processes of its workers.

    A section under workerLock is one step; a Send is two of them, with the worker busy and sendLock held in
    between, unless the adapter's Send panics, which frees sendLock alone. A persistent supervisor has RPC
    adapters: its workers are processes, and releasing one waits for its process. A transient one has file
    adapters, whose Send waits for the process itself and whose release therefore returns at once.

    Each call of a release function starts a goroutine of its own that cancels the worker's context when the
    wait has returned or the stop timeout has elapsed. */
module SupervisorRuns {
  import opened Prelude
  import opened Supervisor
  import PW = ProcessWorker

  /** Why the goroutine of a release call cancelled. */
  datatype Reason = Timeout | WaitDone

  /** One call of a release function. */
  datatype Stopping = Stopping(adapter: nat, returned: bool, timedOut: bool, fired: Option<Reason>)

  /** `workers` are the processes of the adapters a persistent supervisor started. Release call i is caller i of
      Wait on the process of its adapter. */
  datatype System = System(
    sup: State, sender: Option<nat>, releases: seq<nat>, stopping: seq<Stopping>, workers: map<nat, PW.Worker>)

  datatype Step =
    | CallStart(boot: Boot)
    | SendBegins(t: nat, boot: Boot)
    | SendEnds(t: nat, stopOk: bool)
    | SendPanics(t: nat)
    | CallSuspend(stopOk: bool)
    | CallShutdown(stopOk: bool)
    | CallRelease(k: nat)
    | CallWait(i: nat)
    | WaitReturns(i: nat)
    | TimeoutElapses(i: nat)
    | Cancel(i: nat, reason: Reason)
    | WorkerMoves(a: nat, step: PW.Step)

  const INIT := System(EMPTY, None, [], [], map[])

  /** A process whose Start has returned and on which nobody has waited yet. */
  const BOOTED := PW.Worker(PW.Running, true, false, "", false, false, false, PW.AwaitWait, None, map[], false)

  lemma BootedIsStarted()
    ensures BOOTED == PW.Run(PW.INIT, [PW.StartLaunches(true, true), PW.StartAddsReader, PW.StartSpawns(true)])
  {
    var steps := [PW.StartLaunches(true, true), PW.StartAddsReader, PW.StartSpawns(true)];
    var launched := PW.Next(PW.INIT, steps[0]);
    var added := PW.Next(launched, steps[1]);
    assert steps[1..][0] == steps[1] && steps[1..][1..] == [steps[2]] && [steps[2]][1..] == [];
    assert PW.Run(PW.INIT, steps) == PW.Run(launched, steps[1..]) == PW.Run(added, [steps[2]]);
    assert PW.Run(added, [steps[2]]) == PW.Run(PW.Next(added, steps[2]), []);
  }

  /** The wait of release call i is over: the call of Wait has returned in one of its three ways. */
  predicate WaitOver(persistent: bool, s: System, i: nat)
    requires i < |s.stopping|
  {
    var a := s.stopping[i].adapter;
    !persistent || (a in s.workers && i in s.workers[a].callers && !s.workers[a].callers[i].Selecting?)
  }

  predicate CancelEnabled(s: System, i: nat, reason: Reason) {
    && i < |s.stopping| && s.stopping[i].fired.None?
    && if reason.Timeout? then s.stopping[i].timedOut else s.stopping[i].returned
  }

  /** acquireWorker, and the process of the worker it boots. */
  function Acquired(persistent: bool, s: System, boot: Boot): System {
    s.(sup := Acquire(s.sup, boot).1,
       workers := if persistent && s.sup.ref.None? && boot.Boots? then s.workers[s.sup.made := BOOTED] else s.workers)
  }

  function Released(s: System, outcome: (Release, State)): System {
    s.(sup := outcome.1, releases := if outcome.0.WaitFor? then s.releases + [outcome.0.adapter] else s.releases)
  }

  function Moved(s: System, a: nat, step: PW.Step): System {
    if a in s.workers then s.(workers := s.workers[a := PW.Next(s.workers[a], step)]) else s
  }

  function Next(persistent: bool, s: System, step: Step): System {
    match step
    case CallStart(boot) => if persistent then Acquired(persistent, s, boot) else s
    case SendBegins(t, boot) =>
      if s.sender.Some? then s
      else Acquired(persistent, s, boot).(sender := if Acquire(s.sup, boot).0.Some? then Some(t) else None)
    case SendEnds(t, stopOk) =>
      if s.sender != Some(t) then s
      else Released(s, ReleaseWorker(persistent, s.sup, stopOk)).(sender := None)
    case SendPanics(t) => if s.sender != Some(t) then s else s.(sender := None)
    case CallSuspend(stopOk) => Released(s, ReleaseWorker(persistent, s.sup, stopOk))
    case CallShutdown(stopOk) => Released(s, Terminate(s.sup, stopOk))
    case CallRelease(k) =>
      if k < |s.releases| then s.(stopping := s.stopping + [Stopping(s.releases[k], false, false, None)]) else s
    case CallWait(i) => if i < |s.stopping| then Moved(s, s.stopping[i].adapter, PW.CallWait(i)) else s
    case WaitReturns(i) =>
      if i < |s.stopping| && WaitOver(persistent, s, i) then
        s.(stopping := s.stopping[i := s.stopping[i].(returned := true)])
      else s
    case TimeoutElapses(i) =>
      if i < |s.stopping| then s.(stopping := s.stopping[i := s.stopping[i].(timedOut := true)]) else s
    case Cancel(i, reason) =>
      if CancelEnabled(s, i, reason) then
        s.(stopping := s.stopping[i := s.stopping[i].(fired := Some(reason))],
           sup := s.sup.(cancelled := s.sup.cancelled + {s.stopping[i].adapter}))
      else s
    case WorkerMoves(a, move) => if move.CallWait? then s else Moved(s, a, move)
  }

  function Run(persistent: bool, s: System, schedule: seq<Step>): System
    decreases |schedule|
  {
    if schedule == [] then s else Run(persistent, Next(persistent, s, schedule[0]), schedule[1..])
  }

  // ----- worker conservation -----

  /** The books of the supervisor: conservation, and only stopped adapters are released. */
  ghost predicate Books(s: System) {
    && Conserved(s.sup)
    && (forall k :: 0 <= k < |s.releases| ==> s.releases[k] in s.sup.stops)
    && (forall i :: 0 <= i < |s.stopping| ==> s.stopping[i].adapter in s.sup.stops)
  }

  lemma AcquiredKeepsBooks(persistent: bool, s: System, boot: Boot)
    requires Books(s)
    ensures Books(Acquired(persistent, s, boot))
  {
    AcquireConserves(s.sup, boot);
  }

  lemma ReleasedKeepsBooks(persistent: bool, s: System, stopOk: bool)
    requires Books(s)
    ensures Books(Released(s, ReleaseWorker(persistent, s.sup, stopOk)))
  {
    TerminateConserves(s.sup, stopOk);
  }

  lemma CancelKeepsBooks(persistent: bool, s: System, i: nat, reason: Reason)
    requires Books(s)
    ensures Books(Next(persistent, s, Cancel(i, reason)))
  {
  }

  lemma NextKeepsBooks(persistent: bool, s: System, step: Step)
    requires Books(s)
    ensures Books(Next(persistent, s, step))
  {
    hide Conserved;
    match step
    case CallStart(boot) => AcquiredKeepsBooks(persistent, s, boot);
    case SendBegins(_, boot) => AcquiredKeepsBooks(persistent, s, boot);
    case SendEnds(_, stopOk) => ReleasedKeepsBooks(persistent, s, stopOk);
    case CallSuspend(stopOk) => ReleasedKeepsBooks(persistent, s, stopOk);
    case CallShutdown(stopOk) => ReleasedKeepsBooks(false, s, stopOk);
    case Cancel(i, reason) => CancelKeepsBooks(persistent, s, i, reason);
    case _ =>
  }

  lemma {:induction false} RunKeepsBooks(persistent: bool, s: System, schedule: seq<Step>)
    requires Books(s)
    ensures Books(Run(persistent, s, schedule))
    decreases |schedule|
  {
    if schedule != [] {
      NextKeepsBooks(persistent, s, schedule[0]);
      RunKeepsBooks(persistent, Next(persistent, s, schedule[0]), schedule[1..]);
    }
  }

  /** What a transient supervisor has of workers, told from the schedule alone: none, the one of the Send in
      progress, or one that a panicking Send left behind. */
  datatype Hold = Free | InSend | Orphaned

  function HoldNext(s: System, step: Step, h: Hold): Hold {
    match step
    case SendBegins(_, boot) => if s.sender.None? && (h.Orphaned? || boot.Boots?) then InSend else h
    case SendEnds(t, _) => if s.sender == Some(t) then Free else h
    case SendPanics(t) => if s.sender == Some(t) && h.InSend? then Orphaned else h
    case CallSuspend(_) => Free
    case CallShutdown(_) => Free
    case _ => h
  }

  function HoldAfter(s: System, schedule: seq<Step>, h: Hold): Hold
    decreases |schedule|
  {
    if schedule == [] then h else HoldAfter(Next(false, s, schedule[0]), schedule[1..], HoldNext(s, schedule[0], h))
  }

  predicate HoldIs(s: System, h: Hold) {
    && (s.sup.ref.Some? <==> !h.Free?)
    && (h.InSend? ==> s.sender.Some?) && (h.Orphaned? ==> s.sender.None?)
  }

  lemma {:induction false} RunKeepsHold(s: System, schedule: seq<Step>, h: Hold)
    requires HoldIs(s, h)
    ensures HoldIs(Run(false, s, schedule), HoldAfter(s, schedule, h))
    decreases |schedule|
  {
    if schedule != [] {
      RunKeepsHold(Next(false, s, schedule[0]), schedule[1..], HoldNext(s, schedule[0], h));
    }
  }

  /** Worker conservation, for persistent and transient supervisors and any interleaving, panics included:
      successful starts minus calls of Stop is 1 if workerRef is set and 0 otherwise, and no adapter is stopped
      twice even when Stop fails. With no Send in progress a transient supervisor holds a worker exactly if a
      panicking Send left it behind and no Send has ended, and nothing was suspended or shut down, since. */
  lemma WorkersAreConserved(persistent: bool, schedule: seq<Step>)
    ensures var s := Run(persistent, INIT, schedule);
            && |s.sup.started| == |s.sup.stops| + (if s.sup.ref.Some? then 1 else 0)
            && multiset(s.sup.started) == multiset(s.sup.stops) + Held(s.sup)
            && (forall a :: multiset(s.sup.stops)[a] <= 1)
            && (!persistent && s.sender.None? ==> (s.sup.ref.Some? <==> HoldAfter(INIT, schedule, Free).Orphaned?))
  {
    RunKeepsBooks(persistent, INIT, schedule);
    ConservedCounts(Run(persistent, INIT, schedule).sup);
    if !persistent {
      RunKeepsHold(INIT, schedule, Free);
    }
  }

  lemma {:induction false} NoPanicNoOrphan(s: System, schedule: seq<Step>, h: Hold)
    requires !h.Orphaned?
    requires forall i :: 0 <= i < |schedule| ==> !schedule[i].SendPanics?
    ensures !HoldAfter(s, schedule, h).Orphaned?
    decreases |schedule|
  {
    if schedule != [] {
      NoPanicNoOrphan(Next(false, s, schedule[0]), schedule[1..], HoldNext(s, schedule[0], h));
    }
  }

  /** So without panics a transient supervisor holds a worker only while a Send is in progress. */
  lemma TransientHoldsNoWorkerBetweenSends(schedule: seq<Step>)
    requires forall i :: 0 <= i < |schedule| ==> !schedule[i].SendPanics?
    ensures var s := Run(false, INIT, schedule);
            s.sender.None? ==> s.sup.ref.None?
  {
    WorkersAreConserved(false, schedule);
    NoPanicNoOrphan(INIT, schedule, Free);
  }

  /** Whether a persistent supervisor holds a worker, told from the schedule alone: one was booted, by Start or by a
      Send, and nothing was shut down since. */
  function BootedSince(s: System, schedule: seq<Step>, held: bool): bool
    decreases |schedule|
  {
    if schedule == [] then held
    else
      BootedSince(Next(true, s, schedule[0]), schedule[1..], BootedNext(s, schedule[0], held))
  }

  function BootedNext(s: System, step: Step, held: bool): bool {
    match step
    case CallStart(boot) => held || boot.Boots?
    case SendBegins(_, boot) => held || (s.sender.None? && boot.Boots?)
    case CallShutdown(_) => false
    case _ => held
  }

  lemma NextKeepsBooted(s: System, step: Step)
    ensures Next(true, s, step).sup.ref.Some? == BootedNext(s, step, s.sup.ref.Some?)
  {
  }

  lemma {:induction false} RunKeepsBooted(s: System, schedule: seq<Step>, held: bool)
    requires s.sup.ref.Some? == held
    ensures Run(true, s, schedule).sup.ref.Some? == BootedSince(s, schedule, held)
    decreases |schedule|
  {
    hide Next, BootedNext;
    if schedule != [] {
      NextKeepsBooted(s, schedule[0]);
      RunKeepsBooted(Next(true, s, schedule[0]), schedule[1..], BootedNext(s, schedule[0], held));
    }
  }

  lemma PersistentHoldsWorkerIff(schedule: seq<Step>)
    ensures Run(true, INIT, schedule).sup.ref.Some? <==> BootedSince(INIT, schedule, false)
  {
    RunKeepsBooted(INIT, schedule, false);
  }

  lemma {:induction false} NoShutdownNoStops(s: System, schedule: seq<Step>)
    requires s.sup.stops == []
    requires forall i :: 0 <= i < |schedule| ==> !schedule[i].CallShutdown?
    ensures Run(true, s, schedule).sup.stops == []
    decreases |schedule|
  {
    if schedule != [] {
      NoShutdownNoStops(Next(true, s, schedule[0]), schedule[1..]);
    }
  }

  /** A persistent supervisor that is not shut down starts at most one worker, whatever is sent and suspended. */
  lemma PersistentReusesItsWorker(schedule: seq<Step>)
    requires forall i :: 0 <= i < |schedule| ==> !schedule[i].CallShutdown?
    ensures |Run(true, INIT, schedule).sup.started| <= 1
  {
    NoShutdownNoStops(INIT, schedule);
    WorkersAreConserved(true, schedule);
  }
}
