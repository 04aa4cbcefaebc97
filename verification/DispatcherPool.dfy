/** PooledDispatcher over puddle: the pool of supervisors, and what each request does to the one it acquired.

    The pool is modelled as its resources, each with the supervisor it holds. A schedule is any sequence of
    steps of any requests, of their background disposals and of closing the pool. */
module DispatcherPool {
  import opened Prelude
  import opened Supervisor

  /** createPool's size: the configured number cut to 32 bits, the CPU count when it is not positive, and
      puddle's refusal of a size below 1. */
  function PoolSize(maxWorkers: int, numCpu: nat): (size: Option<nat>)
    ensures size.Some? ==> 1 <= size.value <= 0x7FFF_FFFF
    ensures 1 <= maxWorkers <= 0x7FFF_FFFF ==> size == Some(maxWorkers)
    ensures maxWorkers <= 0 && 1 <= numCpu <= 0x7FFF_FFFF ==> size == Some(numCpu)
  {
    var wanted := if maxWorkers <= 0 then numCpu else maxWorkers;
    var low := wanted % 0x1_0000_0000;
    if low == 0 || low > 0x7FFF_FFFF then None else Some(low)
  }

  // ----- one request, as an object -----

  datatype Status = Acquired | Released | Destroyed

  /** puddle.Resource: Destroy and Release each end an acquisition and panic on one that has ended. */
  class Resource {
    const value: WorkerSupervisor
    var status: Status

    constructor (value: WorkerSupervisor)
      ensures this.value == value && status == Acquired
    {
      this.value, status := value, Acquired;
    }

    method Destroy()
      requires status == Acquired
      modifies this
      ensures status == Destroyed
    {
      status := Destroyed;
    }

    method Release()
      requires status == Acquired
      modifies this
      ensures status == Released
    {
      status := Released;
    }
  }

  /** The captured variable `res`: nil, or a result with its release function. */
  datatype SendResult = NoResult | SendResult(release: Release)

  /** sendToSupervisor's deferred dispose, with the `res` and `err` it captured: the resource is ended exactly
      once, and goes back only if there is no error and a release function, if any, returned none. */
  method Dispose(resource: Resource, res: SendResult, err: bool, waitOk: bool)
    requires resource.status == Acquired
    modifies resource
    ensures resource.status == if !err && ReleaseSucceeds(res, waitOk) then Released else Destroyed
  {
    if res.SendResult? && !ReleaseSucceeds(res, waitOk) {
      resource.Destroy();
      return;
    }
    if err {
      resource.Destroy();
    } else {
      resource.Release();
    }
  }

  predicate ReleaseSucceeds(res: SendResult, waitOk: bool) {
    res.NoResult? || res.release.Noop? || (res.release.WaitFor? && waitOk)
  }

  /** What the caller of a request sees: data, an error, or a panic passing through. */
  datatype Seen = Data | Error | Unwound

  /** A whole request on an acquired resource, disposal included. The resource goes back exactly if there was
      data and the release succeeded, or a panic, which leaves `res` and `err` unset. A transient supervisor is
      left with a worker exactly by a panic. */
  method SendToSupervisor(resource: Resource, boot: Boot, sending: Sending, stopOk: bool, waitOk: bool)
    returns (seen: Seen)
    requires resource.status == Acquired && Conserved(resource.value.View())
    modifies resource, resource.value
    ensures Conserved(resource.value.View())
    ensures var acquired := Acquire(old(resource.value.View()), boot).0.Some?;
            && (seen.Data? <==> acquired && sending.Answers?)
            && (seen.Unwound? <==> acquired && sending.Panics?)
    ensures resource.status != Acquired
    ensures resource.status == Released <==>
            seen.Unwound? || (seen.Data? && (resource.value.persistent || (stopOk && waitOk)))
    ensures !resource.value.persistent ==> (resource.value.workerRef.Some? <==> seen.Unwound?)
  {
    var res, err := NoResult, false;
    var sent := resource.value.Send(boot, sending, stopOk);
    match sent {
      case Panicked => seen := Unwound;
      case Refused => seen, err := Error, true;
      case Returned(release, ok) => seen, res, err := if ok then Data else Error, SendResult(release), !ok;
    }
    Dispose(resource, res, err, waitOk);
  }

  // ----- all requests together -----

  /** How the Send of an acquisition ended, as its own step says. */
  datatype How = Unsent | Answered | Errored | Crashed

  /** Disposing holds the captured `err` and `res`; `how` and `stopOk` record the step that ended the Send. */
  datatype Phase =
    | Idle
    | Held                                     // acquired, Send not begun
    | Sending                                  // the worker is busy
    | Disposing(err: bool, res: SendResult, how: How, stopOk: bool)
    | Destroying                               // the destructor has not run
    | Gone                                     // it has; the pool still counts the resource

  datatype Res = Res(phase: Phase, ticket: nat, sup: State)

  /** How an acquisition ended: back to idle or not, after which Send, and with which outcomes of stopping the
      worker and of waiting for it. */
  datatype Ending = Ending(ticket: nat, toIdle: bool, how: How, stopOk: bool, waitOk: bool)

  /** `starts` and `stops` count the successful starts and the calls of Stop of the whole run, those of removed
      resources included. */
  datatype Pool = Pool(res: map<nat, Res>, tickets: nat, endings: seq<Ending>, starts: int, stops: int)

  /** Create acquires by constructing: a failing Start leaves nothing behind, and if the caller's context ends
      meanwhile the resource is not delivered but put to idle. */
  datatype Step =
    | Create(r: nat, boot: Boot, delivered: bool)
    | AcquireIdle(r: nat)
    | Begin(r: nat, boot: Boot)
    | Reply(r: nat, sendOk: bool, stopOk: bool)
    | Panic(r: nat)                            // the worker's Send panics
    | DisposeRes(r: nat, waitOk: bool)
    | CloseIdle(r: nat)
    | Destruct(r: nat, stopOk: bool)
    | Remove(r: nat)

  const INIT := Pool(map[], 0, [], 0, 0)

  /** What a step does to the resource it names; `ticket` is the next one to issue. */
  function ResNext(persistent: bool, ticket: nat, x: Res, step: Step): Res {
    match step
    case AcquireIdle(_) => if x.phase.Idle? then Res(Held, ticket, x.sup) else x
    case Begin(_, boot) =>
      if x.phase.Held? then
        var (worker, sup) := Acquire(x.sup, boot);
        x.(phase := if worker.Some? then Sending else Disposing(true, NoResult, Unsent, true), sup := sup)
      else x
    case Reply(_, sendOk, stopOk) =>
      if x.phase.Sending? then
        var (release, sup) := ReleaseWorker(persistent, x.sup, stopOk);
        var how := if sendOk then Answered else Errored;
        x.(phase := Disposing(!sendOk, SendResult(release), how, stopOk), sup := sup)
      else x
    case Panic(_) => if x.phase.Sending? then x.(phase := Disposing(false, NoResult, Crashed, true)) else x
    case DisposeRes(_, waitOk) =>
      if x.phase.Disposing? then x.(phase := if GoesBack(x.phase, waitOk) then Idle else Destroying) else x
    case CloseIdle(_) => if x.phase.Idle? then x.(phase := Destroying) else x
    case Destruct(_, stopOk) =>
      if x.phase.Destroying? then x.(phase := Gone, sup := Terminate(x.sup, stopOk).1) else x
    case _ => x
  }

  predicate GoesBack(phase: Phase, waitOk: bool)
    requires phase.Disposing?
  {
    !phase.err && ReleaseSucceeds(phase.res, waitOk)
  }

  function Next(persistent: bool, max: nat, s: Pool, step: Step): Pool {
    var r := step.r;
    if step.Create? then
      if r in s.res || |s.res| >= max then s
      else
        var (worker, sup) := if persistent then Acquire(EMPTY, step.boot) else (None, EMPTY);
        if persistent && worker.None? then s
        else s.(res := s.res[r := Res(if step.delivered then Held else Idle, s.tickets, sup)],
                tickets := if step.delivered then s.tickets + 1 else s.tickets,
                starts := s.starts + |sup.started|)
    else if r !in s.res then s
    else
      var x := s.res[r];
      if step.Remove? then (if x.phase.Gone? then s.(res := s.res - {r}) else s)
      else
        var y := ResNext(persistent, s.tickets, x, step);
        Pool(s.res[r := y],
             if step.AcquireIdle? && x.phase.Idle? then s.tickets + 1 else s.tickets,
             if step.DisposeRes? && x.phase.Disposing? then s.endings + [EndingOf(x, step.waitOk)] else s.endings,
             s.starts + |y.sup.started| - |x.sup.started|,
             s.stops + |y.sup.stops| - |x.sup.stops|)
  }

  function EndingOf(x: Res, waitOk: bool): Ending
    requires x.phase.Disposing?
  {
    Ending(x.ticket, GoesBack(x.phase, waitOk), x.phase.how, x.phase.stopOk, waitOk)
  }

  /** A step changes no resource but the one it names. */
  lemma NextIsLocal(persistent: bool, max: nat, s: Pool, step: Step, q: nat)
    requires q in Next(persistent, max, s, step).res
    ensures var y := Next(persistent, max, s, step).res[q];
            || (q in s.res && (y == s.res[q] || y == ResNext(persistent, s.tickets, s.res[q], step)))
            || (q !in s.res && step.Create? && (y.phase.Held? || y.phase.Idle?)
                && y.sup in {EMPTY, Acquire(EMPTY, step.boot).1})
  {
  }

  function Run(persistent: bool, max: nat, s: Pool, schedule: seq<Step>): Pool
    decreases |schedule|
  {
    if schedule == [] then s else Run(persistent, max, Next(persistent, max, s, schedule[0]), schedule[1..])
  }

  // ----- transient supervisors and their workers -----

  predicate HoldsWorker(x: Res) {
    x.sup.ref.Some?
  }

  function HoldersIn(res: map<nat, Res>): set<nat> {
    set r | r in res && HoldsWorker(res[r])
  }

  function Holders(s: Pool): set<nat> {
    HoldersIn(s.res)
  }

  /** Which supervisors a step orphans: a panicking Send leaves its worker behind, until a later Send of the
      same supervisor or its destructor stops it. */
  function OrphansNext(s: Pool, step: Step, orphans: set<nat>): set<nat> {
    if step.r !in s.res then orphans
    else match step
      case Panic(r) => if s.res[r].phase.Sending? then orphans + {r} else orphans
      case Reply(r, _, _) => if s.res[r].phase.Sending? then orphans - {r} else orphans
      case Destruct(r, _) => if s.res[r].phase.Destroying? then orphans - {r} else orphans
      case _ => orphans
  }

  /** The supervisors with a panic not yet followed by a Reply or a Destruct, along the schedule. */
  function Orphans(persistent: bool, max: nat, s: Pool, schedule: seq<Step>, orphans: set<nat>): set<nat>
    decreases |schedule|
  {
    if schedule == [] then orphans
    else
      var step := schedule[0];
      Orphans(persistent, max, Next(persistent, max, s, step), schedule[1..], OrphansNext(s, step, orphans))
  }

  /** In transient mode a supervisor holds a worker exactly while its Send is in progress or it is orphaned. */
  ghost predicate HoldersKnown(s: Pool, orphans: set<nat>) {
    && (forall r :: r in orphans ==> r in s.res && !s.res[r].phase.Gone?)
    && (forall r :: r in s.res ==> (HoldsWorker(s.res[r]) <==> s.res[r].phase.Sending? || r in orphans))
  }

  lemma NextKeepsHoldersKnown(max: nat, s: Pool, step: Step, orphans: set<nat>)
    requires HoldersKnown(s, orphans)
    ensures HoldersKnown(Next(false, max, s, step), OrphansNext(s, step, orphans))
  {
  }

  lemma {:induction false} RunKeepsHoldersKnown(max: nat, s: Pool, schedule: seq<Step>, orphans: set<nat>)
    requires HoldersKnown(s, orphans)
    ensures HoldersKnown(Run(false, max, s, schedule), Orphans(false, max, s, schedule, orphans))
    decreases |schedule|
  {
    if schedule != [] {
      NextKeepsHoldersKnown(max, s, schedule[0], orphans);
      RunKeepsHoldersKnown(max, Next(false, max, s, schedule[0]), schedule[1..], OrphansNext(s, schedule[0], orphans));
    }
  }

  /** Pool and supervisors together, in transient mode and for every schedule, panics included: an idle
      supervisor holds a worker exactly if a panic of its Send has not since been followed by a Reply of its own
      or by its destructor; any other holds one exactly if that is so or its Send is in progress. */
  lemma IdleSupervisorHoldsWorkerIff(max: nat, schedule: seq<Step>)
    ensures var s := Run(false, max, INIT, schedule);
            var orphans := Orphans(false, max, INIT, schedule, {});
            forall r :: r in s.res ==>
              && (s.res[r].phase.Idle? ==> (HoldsWorker(s.res[r]) <==> r in orphans))
              && (HoldsWorker(s.res[r]) <==> s.res[r].phase.Sending? || r in orphans)
  {
    RunKeepsHoldersKnown(max, INIT, schedule, {});
  }

  lemma {:induction false} NoPanicNoOrphans(persistent: bool, max: nat, s: Pool, schedule: seq<Step>)
    requires forall i :: 0 <= i < |schedule| ==> !schedule[i].Panic?
    ensures Orphans(persistent, max, s, schedule, {}) == {}
    decreases |schedule|
  {
    if schedule != [] {
      assert OrphansNext(s, schedule[0], {}) == {};
      NoPanicNoOrphans(persistent, max, Next(persistent, max, s, schedule[0]), schedule[1..]);
    }
  }

  /** So without panics every idle supervisor holds no worker. */
  lemma IdleSupervisorsHoldNoWorker(max: nat, schedule: seq<Step>)
    requires forall i :: 0 <= i < |schedule| ==> !schedule[i].Panic?
    ensures var s := Run(false, max, INIT, schedule);
            forall r :: r in s.res ==>
              && (s.res[r].phase.Idle? ==> !HoldsWorker(s.res[r]))
              && (HoldsWorker(s.res[r]) <==> s.res[r].phase.Sending?)
  {
    IdleSupervisorHoldsWorkerIff(max, schedule);
    NoPanicNoOrphans(false, max, INIT, schedule);
  }

  /** However a Send in progress ends in whatever run, its disposal makes the supervisor idle with a worker
      still in it exactly if it ended in a panic. */
  lemma PanicLeavesAWorkerIdleIff(max: nat, before: seq<Step>, end: Step, waitOk: bool)
    requires var s := Run(false, max, INIT, before);
             end.r in s.res && s.res[end.r].phase.Sending? && (end.Reply? || end.Panic?)
    ensures var r := end.r;
            var t := Next(false, max, Next(false, max, Run(false, max, INIT, before), end), DisposeRes(r, waitOk));
            r in t.res && (t.res[r].phase.Idle? && HoldsWorker(t.res[r]) <==> end.Panic?)
  {
    RunKeepsHoldersKnown(max, INIT, before, {});
  }

  // ----- worker conservation across the layers -----

  ghost predicate AllConserved(s: Pool) {
    forall r :: r in s.res ==> Conserved(s.res[r].sup)
  }

  lemma ResNextConserves(persistent: bool, ticket: nat, x: Res, step: Step)
    requires Conserved(x.sup)
    ensures Conserved(ResNext(persistent, ticket, x, step).sup)
  {
    hide Conserved;
    match step
    case Begin(_, boot) => AcquireConserves(x.sup, boot);
    case Reply(_, _, stopOk) => TerminateConserves(x.sup, stopOk);
    case Destruct(_, stopOk) => TerminateConserves(x.sup, stopOk);
    case _ =>
  }

  lemma NextConserves(persistent: bool, max: nat, s: Pool, step: Step, q: nat)
    requires AllConserved(s) && q in Next(persistent, max, s, step).res
    ensures Conserved(Next(persistent, max, s, step).res[q].sup)
  {
    NextIsLocal(persistent, max, s, step, q);
    if q in s.res {
      ResNextConserves(persistent, s.tickets, s.res[q], step);
    } else {
      AcquireConserves(EMPTY, step.boot);
    }
  }

  lemma NextKeepsConserved(persistent: bool, max: nat, s: Pool, step: Step)
    requires AllConserved(s)
    ensures AllConserved(Next(persistent, max, s, step))
  {
    var t := Next(persistent, max, s, step);
    forall q | q in t.res
      ensures Conserved(t.res[q].sup)
    {
      NextConserves(persistent, max, s, step, q);
    }
  }

  lemma {:induction false} RunKeepsConserved(persistent: bool, max: nat, s: Pool, schedule: seq<Step>)
    requires AllConserved(s)
    ensures AllConserved(Run(persistent, max, s, schedule))
    decreases |schedule|
  {
    if schedule != [] {
      NextKeepsConserved(persistent, max, s, schedule[0]);
      RunKeepsConserved(persistent, max, Next(persistent, max, s, schedule[0]), schedule[1..]);
    }
  }

  /** Worker conservation in the pool: when the destructor of a resource has run, every worker its supervisor
      ever started has been stopped, exactly once, panics included. */
  lemma DestroyedSupervisorsLeakNoWorker(persistent: bool, max: nat, schedule: seq<Step>, r: nat)
    requires r in Run(persistent, max, INIT, schedule).res
    ensures var x := Run(persistent, max, INIT, schedule).res[r];
            Conserved(x.sup) && (x.phase.Gone? ==> multiset(x.sup.started) == multiset(x.sup.stops))
  {
    RunKeepsConserved(persistent, max, INIT, schedule);
    RunLeavesGoneEmpty(persistent, max, INIT, schedule);
  }

  ghost predicate GoneAreEmpty(s: Pool) {
    forall r :: r in s.res && s.res[r].phase.Gone? ==> !HoldsWorker(s.res[r])
  }

  lemma NextLeavesGoneEmpty(persistent: bool, max: nat, s: Pool, step: Step)
    requires GoneAreEmpty(s)
    ensures GoneAreEmpty(Next(persistent, max, s, step))
  {
    var t := Next(persistent, max, s, step);
    forall q | q in t.res && t.res[q].phase.Gone?
      ensures !HoldsWorker(t.res[q])
    {
      NextIsLocal(persistent, max, s, step, q);
    }
  }

  lemma {:induction false} RunLeavesGoneEmpty(persistent: bool, max: nat, s: Pool, schedule: seq<Step>)
    requires GoneAreEmpty(s)
    ensures GoneAreEmpty(Run(persistent, max, s, schedule))
    decreases |schedule|
  {
    if schedule != [] {
      NextLeavesGoneEmpty(persistent, max, s, schedule[0]);
      RunLeavesGoneEmpty(persistent, max, Next(persistent, max, s, schedule[0]), schedule[1..]);
    }
  }

  // ----- the bound on workers -----

  lemma SubsetSize(a: set<nat>, b: set<nat>)
    requires a <= b
    ensures |a| <= |b|
  {
    assert b == a + (b - a);
  }

  lemma NextKeepsBound(persistent: bool, max: nat, s: Pool, step: Step)
    requires |s.res| <= max
    ensures |Next(persistent, max, s, step).res| <= max
  {
    var t := Next(persistent, max, s, step);
    if step.r in t.res {
      assert t.res.Keys == s.res.Keys + {step.r};
    } else {
      assert t.res.Keys <= s.res.Keys;
      SubsetSize(t.res.Keys, s.res.Keys);
    }
  }

  /** What every step keeps of the pool as a whole: its size, the conservation of each supervisor, and that the
      workers started and not stopped are those held. */
  ghost predicate Balanced(max: nat, s: Pool) {
    && |s.res| <= max && AllConserved(s) && GoneAreEmpty(s)
    && s.starts - s.stops == |Holders(s)|
  }

  /** One supervisor's part of the balance. */
  function Balance(x: Res): int {
    |x.sup.started| - |x.sup.stops|
  }

  lemma BalanceIsHolding(x: Res)
    requires Conserved(x.sup)
    ensures Balance(x) == if HoldsWorker(x) then 1 else 0
  {
    ConservedCounts(x.sup);
  }

  lemma SizesApart(a: set<nat>, b: set<nat>, r: nat)
    requires a - {r} == b - {r}
    ensures |a| - |b| == (if r in a then 1 else 0) - (if r in b then 1 else 0)
  {
    assert a == (a - {r}) + if r in a then {r} else {};
    assert b == (b - {r}) + if r in b then {r} else {};
  }

  lemma HoldersOfUpdate(res: map<nat, Res>, r: nat, y: Res)
    ensures |HoldersIn(res[r := y])| - |HoldersIn(res)| ==
            (if HoldsWorker(y) then 1 else 0) - (if r in res && HoldsWorker(res[r]) then 1 else 0)
  {
    SizesApart(HoldersIn(res[r := y]), HoldersIn(res), r);
  }

  lemma NextUpdatesOne(persistent: bool, max: nat, s: Pool, step: Step)
    ensures var (t, r) := (Next(persistent, max, s, step), step.r);
            if r in t.res then t.res == s.res[r := t.res[r]]
            else
              && t.res == s.res - {r} && (r in s.res ==> s.res[r].phase.Gone?)
              && t.starts == s.starts && t.stops == s.stops
  {
  }

  /** A step moves the counts of the run as it moves those of the supervisor it names. */
  lemma BalanceMoves(persistent: bool, max: nat, s: Pool, step: Step)
    requires step.r in Next(persistent, max, s, step).res
    ensures var t := Next(persistent, max, s, step);
            (t.starts - t.stops) - (s.starts - s.stops) ==
            Balance(t.res[step.r]) - (if step.r in s.res then Balance(s.res[step.r]) else 0)
  {
  }

  lemma NextKeepsCounts(persistent: bool, max: nat, s: Pool, step: Step)
    requires AllConserved(s) && GoneAreEmpty(s) && AllConserved(Next(persistent, max, s, step))
    requires s.starts - s.stops == |Holders(s)|
    ensures var t := Next(persistent, max, s, step); t.starts - t.stops == |Holders(t)|
  {
    hide Next, Conserved, HoldersIn, Balance;
    var (t, r) := (Next(persistent, max, s, step), step.r);
    NextUpdatesOne(persistent, max, s, step);
    if r in t.res {
      HoldersOfUpdate(s.res, r, t.res[r]);
      BalanceMoves(persistent, max, s, step);
      BalanceIsHolding(t.res[r]);
      if r in s.res {
        BalanceIsHolding(s.res[r]);
      }
    } else {
      HoldersOfRemoval(s.res, r);
    }
  }

  lemma HoldersOfRemoval(res: map<nat, Res>, r: nat)
    requires r in res ==> !HoldsWorker(res[r])
    ensures HoldersIn(res - {r}) == HoldersIn(res)
  {
  }

  lemma NextKeepsBalanced(persistent: bool, max: nat, s: Pool, step: Step)
    requires Balanced(max, s)
    ensures Balanced(max, Next(persistent, max, s, step))
  {
    hide Next, Conserved, Holders;
    NextKeepsBound(persistent, max, s, step);
    NextKeepsConserved(persistent, max, s, step);
    NextLeavesGoneEmpty(persistent, max, s, step);
    NextKeepsCounts(persistent, max, s, step);
  }

  lemma {:induction false} RunKeepsBalanced(persistent: bool, max: nat, s: Pool, schedule: seq<Step>)
    requires Balanced(max, s)
    ensures Balanced(max, Run(persistent, max, s, schedule))
    decreases |schedule|
  {
    if schedule != [] {
      NextKeepsBalanced(persistent, max, s, schedule[0]);
      RunKeepsBalanced(persistent, max, Next(persistent, max, s, schedule[0]), schedule[1..]);
    }
  }

  /** Worker bound, in both modes, for every configuration the pool accepts and even if workers panic: over the
      whole run, removed supervisors included, the workers started and not yet stopped are as many as the
      supervisors that hold one, and never more than the effective pool size. */
  lemma WorkersNeverExceedPoolSize(persistent: bool, maxWorkers: int, numCpu: nat, schedule: seq<Step>)
    requires PoolSize(maxWorkers, numCpu).Some?
    ensures var size := PoolSize(maxWorkers, numCpu).value;
            var s := Run(persistent, size, INIT, schedule);
            && s.starts - s.stops == |Holders(s)| <= |s.res| <= size
            && (1 <= maxWorkers <= 0x7FFF_FFFF ==> s.starts - s.stops <= maxWorkers)
  {
    var size := PoolSize(maxWorkers, numCpu).value;
    assert Holders(INIT) == {};
    RunKeepsBalanced(persistent, size, INIT, schedule);
    var s := Run(persistent, size, INIT, schedule);
    SubsetSize(Holders(s), s.res.Keys);
  }

  // ----- exactly-once disposal -----

  predicate InUse(x: Res) {
    x.phase.Held? || x.phase.Sending? || x.phase.Disposing?
  }

  /** The tickets of the acquisitions that have not ended, by resource. */
  function UsesIn(res: map<nat, Res>): map<nat, nat> {
    map r | r in res && InUse(res[r]) :: res[r].ticket
  }

  function Uses(s: Pool): map<nat, nat> {
    UsesIn(s.res)
  }

  lemma UsesHave(res: map<nat, Res>, r: nat)
    ensures r in UsesIn(res) <==> r in res && InUse(res[r])
    ensures r in UsesIn(res) ==> UsesIn(res)[r] == res[r].ticket
    ensures r !in UsesIn(res) ==> UsesIn(res - {r}) == UsesIn(res) && UsesIn(res) - {r} == UsesIn(res)
    ensures r in UsesIn(res) ==> UsesIn(res)[r := res[r].ticket] == UsesIn(res)
  {
  }

  lemma UsesOfUpdate(res: map<nat, Res>, r: nat, y: Res)
    ensures UsesIn(res[r := y]) == if InUse(y) then UsesIn(res)[r := y.ticket] else UsesIn(res) - {r}
  {
  }

  function CountEndings(endings: seq<Ending>, ticket: nat): nat {
    if endings == [] then 0
    else CountEndings(endings[..|endings| - 1], ticket) + (if endings[|endings| - 1].ticket == ticket then 1 else 0)
  }

  function UsersOf(uses: map<nat, nat>, ticket: nat): set<nat> {
    set r | r in uses && uses[r] == ticket
  }

  function CountUses(uses: map<nat, nat>, ticket: nat): nat {
    |UsersOf(uses, ticket)|
  }

  /** Every ticket issued is held by one resource or has one ending, never both and never more; a ticket not
      yet issued has neither. */
  ghost predicate Accounted(uses: map<nat, nat>, tickets: nat, endings: seq<Ending>) {
    forall t: nat {:trigger CountUses(uses, t)} ::
      CountUses(uses, t) + CountEndings(endings, t) == if t < tickets then 1 else 0
  }

  lemma CountAfterIssue(uses: map<nat, nat>, r: nat, ticket: nat, t: nat)
    requires r !in uses
    ensures CountUses(uses[r := ticket], t) == CountUses(uses, t) + if t == ticket then 1 else 0
  {
    assert UsersOf(uses[r := ticket], t) == if t == ticket then UsersOf(uses, t) + {r} else UsersOf(uses, t);
  }

  lemma CountAfterEnd(uses: map<nat, nat>, r: nat, t: nat)
    requires r in uses
    ensures CountUses(uses, t) == CountUses(uses - {r}, t) + if t == uses[r] then 1 else 0
  {
    assert UsersOf(uses, t) == if t == uses[r] then UsersOf(uses - {r}, t) + {r} else UsersOf(uses - {r}, t);
  }

  lemma IssueKeepsAccounted(uses: map<nat, nat>, tickets: nat, endings: seq<Ending>, r: nat)
    requires Accounted(uses, tickets, endings) && r !in uses
    ensures Accounted(uses[r := tickets], tickets + 1, endings)
  {
    forall t: nat
      ensures CountUses(uses[r := tickets], t) + CountEndings(endings, t) == if t < tickets + 1 then 1 else 0
    {
      CountAfterIssue(uses, r, tickets, t);
      assert CountUses(uses, t) + CountEndings(endings, t) == if t < tickets then 1 else 0;
    }
  }

  lemma EndKeepsAccounted(uses: map<nat, nat>, tickets: nat, endings: seq<Ending>, r: nat, e: Ending)
    requires Accounted(uses, tickets, endings) && r in uses && e.ticket == uses[r]
    ensures Accounted(uses - {r}, tickets, endings + [e])
  {
    assert (endings + [e])[..|endings|] == endings;
    forall t: nat
      ensures CountUses(uses - {r}, t) + CountEndings(endings + [e], t) == if t < tickets then 1 else 0
    {
      CountAfterEnd(uses, r, t);
      assert CountUses(uses, t) + CountEndings(endings, t) == if t < tickets then 1 else 0;
    }
  }

  predicate InUseAt(res: map<nat, Res>, r: nat) {
    r in res && InUse(res[r])
  }

  datatype TicketMove = Stays | Issues | Ends

  function MoveOf(s: Pool, t: Pool): TicketMove {
    if t.tickets != s.tickets then Issues else if t.endings != s.endings then Ends else Stays
  }

  /** A step issues a ticket to its resource, ends the acquisition of its resource, or does neither. */
  lemma NextMovesOne(persistent: bool, max: nat, s: Pool, step: Step)
    ensures var (t, r) := (Next(persistent, max, s, step), step.r);
            match MoveOf(s, t)
            case Stays =>
              && (InUseAt(t.res, r) <==> InUseAt(s.res, r))
              && (InUseAt(t.res, r) ==> t.res[r].ticket == s.res[r].ticket)
            case Issues =>
              && t.tickets == s.tickets + 1 && t.endings == s.endings
              && !InUseAt(s.res, r) && InUseAt(t.res, r) && t.res[r].ticket == s.tickets
            case Ends =>
              && t.endings == s.endings + [t.endings[|s.endings|]]
              && InUseAt(s.res, r) && !InUseAt(t.res, r) && t.endings[|s.endings|].ticket == s.res[r].ticket
  {
    hide Acquire, ReleaseWorker, Terminate;
  }

  lemma NextMovesTickets(persistent: bool, max: nat, s: Pool, step: Step)
    ensures var (t, r) := (Next(persistent, max, s, step), step.r);
            match MoveOf(s, t)
            case Stays => Uses(t) == Uses(s)
            case Issues => r !in Uses(s) && Uses(t) == Uses(s)[r := s.tickets]
            case Ends => r in Uses(s) && Uses(s)[r] == s.res[r].ticket && Uses(t) == Uses(s) - {r}
  {
    hide Next, UsesIn, InUse;
    var (t, r) := (Next(persistent, max, s, step), step.r);
    NextMovesOne(persistent, max, s, step);
    NextUpdatesOne(persistent, max, s, step);
    UsesHave(s.res, r);
    if r in t.res {
      UsesOfUpdate(s.res, r, t.res[r]);
    } else {
      assert r in s.res ==> !InUse(s.res[r]) by {
        assert r in s.res ==> s.res[r].phase.Gone?;
        GoneIsNotInUse(s.res, r);
      }
    }
  }

  lemma GoneIsNotInUse(res: map<nat, Res>, r: nat)
    requires r in res ==> res[r].phase.Gone?
    ensures !InUseAt(res, r)
  {
  }

  lemma NextKeepsAccounted(persistent: bool, max: nat, s: Pool, step: Step)
    requires Accounted(Uses(s), s.tickets, s.endings)
    ensures var t := Next(persistent, max, s, step);
            Accounted(Uses(t), t.tickets, t.endings)
  {
    hide Next, UsesIn, Accounted, InUse;
    var (t, r) := (Next(persistent, max, s, step), step.r);
    NextMovesOne(persistent, max, s, step);
    NextMovesTickets(persistent, max, s, step);
    match MoveOf(s, t)
    case Stays =>
    case Issues => IssueKeepsAccounted(Uses(s), s.tickets, s.endings, r);
    case Ends => EndKeepsAccounted(Uses(s), s.tickets, s.endings, r, t.endings[|s.endings|]);
  }

  lemma {:induction false} RunKeepsAccounted(persistent: bool, max: nat, s: Pool, schedule: seq<Step>)
    requires Accounted(Uses(s), s.tickets, s.endings)
    ensures var t := Run(persistent, max, s, schedule);
            Accounted(Uses(t), t.tickets, t.endings)
    decreases |schedule|
  {
    if schedule != [] {
      NextKeepsAccounted(persistent, max, s, schedule[0]);
      RunKeepsAccounted(persistent, max, Next(persistent, max, s, schedule[0]), schedule[1..]);
    }
  }

  /** Exactly-once disposal. In every run each acquisition is still held by exactly one resource or was ended
      exactly once, by Destroy or by Release. */
  lemma EveryAcquisitionEndsOnce(persistent: bool, max: nat, schedule: seq<Step>, ticket: nat)
    ensures var s := Run(persistent, max, INIT, schedule);
            ticket < s.tickets ==> CountUses(Uses(s), ticket) + CountEndings(s.endings, ticket) == 1
  {
    var none: map<nat, nat> := map[];
    assert Uses(INIT) == none;
    forall t: nat
      ensures CountUses(none, t) == 0
    {
      assert UsersOf(none, t) == {};
    }
    RunKeepsAccounted(persistent, max, INIT, schedule);
    assert CountUses(Uses(Run(persistent, max, INIT, schedule)), ticket) >= 0;
  }

  /** The captured `err` and `res` say how the Send ended. */
  ghost predicate CapturedRightly(persistent: bool, x: Res) {
    && (x.phase.Sending? ==> HoldsWorker(x))
    && (x.phase.Disposing? ==>
          var Disposing(err, res, how, stopOk) := x.phase;
          && (err <==> how.Unsent? || how.Errored?)
          && (res.NoResult? <==> how.Unsent? || how.Crashed?)
          && (res.SendResult? && persistent ==> res.release.Noop?)
          && (res.SendResult? && !persistent ==> !res.release.Noop? && (res.release.WaitFor? <==> stopOk)))
  }

  /** Back to idle exactly after a panic, or after an answer whose worker, if transient, was stopped and waited
      for. */
  predicate EndedRightly(persistent: bool, e: Ending) {
    e.toIdle <==> e.how.Crashed? || (e.how.Answered? && (persistent || (e.stopOk && e.waitOk)))
  }

  ghost predicate AllRight(persistent: bool, s: Pool) {
    && (forall r :: r in s.res ==> CapturedRightly(persistent, s.res[r]))
    && (forall k :: 0 <= k < |s.endings| ==> EndedRightly(persistent, s.endings[k]))
  }

  lemma NextKeepsAllRight(persistent: bool, max: nat, s: Pool, step: Step)
    requires AllRight(persistent, s)
    ensures AllRight(persistent, Next(persistent, max, s, step))
  {
    var t := Next(persistent, max, s, step);
    forall q | q in t.res
      ensures CapturedRightly(persistent, t.res[q])
    {
      NextIsLocal(persistent, max, s, step, q);
    }
  }

  lemma {:induction false} RunKeepsAllRight(persistent: bool, max: nat, s: Pool, schedule: seq<Step>)
    requires AllRight(persistent, s)
    ensures AllRight(persistent, Run(persistent, max, s, schedule))
    decreases |schedule|
  {
    if schedule != [] {
      NextKeepsAllRight(persistent, max, s, schedule[0]);
      RunKeepsAllRight(persistent, max, Next(persistent, max, s, schedule[0]), schedule[1..]);
    }
  }

  /** A resource goes back to idle exactly if its Send panicked, or answered and, in transient mode, its worker
      was both stopped and waited for without an error. */
  lemma ReleasedIff(persistent: bool, max: nat, schedule: seq<Step>, k: nat)
    requires k < |Run(persistent, max, INIT, schedule).endings|
    ensures var e := Run(persistent, max, INIT, schedule).endings[k];
            e.toIdle <==> e.how.Crashed? || (e.how.Answered? && (persistent || (e.stopOk && e.waitOk)))
  {
    RunKeepsAllRight(persistent, max, INIT, schedule);
  }

  // ----- disposal, told from the schedule -----

  /** The step that ended the Send of r's acquisition: its reply, its panic, or a begin without a worker. */
  function EndNext(s: Pool, step: Step, r: nat, end: Option<Step>): Option<Step> {
    if step.r != r || r !in s.res then end
    else match step
      case AcquireIdle(_) => if s.res[r].phase.Idle? then None else end
      case Begin(_, boot) => if s.res[r].phase.Held? && !HoldsWorker(s.res[r]) && !boot.Boots? then Some(step) else end
      case Reply(_, _, _) => if s.res[r].phase.Sending? then Some(step) else end
      case Panic(_) => if s.res[r].phase.Sending? then Some(step) else end
      case _ => end
  }

  function EndAlong(persistent: bool, max: nat, s: Pool, schedule: seq<Step>, r: nat, end: Option<Step>): Option<Step>
    decreases |schedule|
  {
    if schedule == [] then end
    else
      var step := schedule[0];
      EndAlong(persistent, max, Next(persistent, max, s, step), schedule[1..], r, EndNext(s, step, r, end))
  }

  /** The phase of a resource records how that step ended its Send. */
  ghost predicate Records(x: Res, end: Option<Step>) {
    x.phase.Disposing? ==>
      && end.Some?
      && match end.value
         case Panic(_) => x.phase.how == Crashed
         case Reply(_, sendOk, stopOk) =>
           x.phase.how == (if sendOk then Answered else Errored) && x.phase.stopOk == stopOk
         case Begin(_, _) => x.phase.how == Unsent
         case _ => false
  }

  lemma NextKeepsRecords(persistent: bool, max: nat, s: Pool, step: Step, r: nat, end: Option<Step>)
    requires r in s.res ==> Records(s.res[r], end)
    ensures var t := Next(persistent, max, s, step);
            r in t.res ==> Records(t.res[r], EndNext(s, step, r, end))
  {
  }

  lemma {:induction false} RunKeepsRecords(persistent: bool, max: nat, s: Pool, schedule: seq<Step>, r: nat,
                                           end: Option<Step>)
    requires r in s.res ==> Records(s.res[r], end)
    ensures var t := Run(persistent, max, s, schedule);
            r in t.res ==> Records(t.res[r], EndAlong(persistent, max, s, schedule, r, end))
    decreases |schedule|
  {
    hide Next, EndNext, Records;
    if schedule != [] {
      NextKeepsRecords(persistent, max, s, schedule[0], r, end);
      var next := Next(persistent, max, s, schedule[0]);
      RunKeepsRecords(persistent, max, next, schedule[1..], r, EndNext(s, schedule[0], r, end));
    }
  }

  /** Disposal, told from the schedule alone: it puts a resource back to idle exactly if its Send panicked, or
      replied without an error and, in transient mode, stopping the worker and waiting for it succeeded; otherwise
      the resource is destroyed. */
  lemma DisposalFollowsTheSend(persistent: bool, max: nat, before: seq<Step>, r: nat, waitOk: bool)
    requires var s := Run(persistent, max, INIT, before); r in s.res && s.res[r].phase.Disposing?
    ensures var t := Next(persistent, max, Run(persistent, max, INIT, before), DisposeRes(r, waitOk));
            var end := EndAlong(persistent, max, INIT, before, r, None);
            && r in t.res && (t.res[r].phase.Idle? || t.res[r].phase.Destroying?) && end.Some?
            && (t.res[r].phase.Idle? <==>
                  match end.value
                  case Panic(_) => true
                  case Reply(_, sendOk, stopOk) => sendOk && (persistent || (stopOk && waitOk))
                  case _ => false)
  {
    RunKeepsRecords(persistent, max, INIT, before, r, None);
    RunKeepsAllRight(persistent, max, INIT, before);
  }

  /** A request from start to end, undisturbed, on a new resource or an idle one: it is answered, its acquisition
      ends, and the resource is idle again, holding a worker exactly in persistent mode. */
  lemma RequestIsServed(persistent: bool, max: nat, s: Pool, r: nat)
    requires if r in s.res then s.res[r].phase.Idle? else |s.res| < max
    ensures var acquired := Next(persistent, max, s, if r in s.res then AcquireIdle(r) else Create(r, Boots, true));
            var begun := Next(persistent, max, acquired, Begin(r, Boots));
            var replied := Next(persistent, max, begun, Reply(r, true, true));
            var t := Next(persistent, max, replied, DisposeRes(r, true));
            && r in t.res && t.res[r].phase.Idle? && (HoldsWorker(t.res[r]) <==> persistent)
            && t.tickets == s.tickets + 1 && t.endings == s.endings + [Ending(s.tickets, true, Answered, true, true)]
            && t.res - {r} == s.res - {r}
  {
    var acquired := Next(persistent, max, s, if r in s.res then AcquireIdle(r) else Create(r, Boots, true));
    assert acquired.res[r].phase.Held? && acquired.res[r].ticket == s.tickets;
    var begun := Next(persistent, max, acquired, Begin(r, Boots));
    assert begun.res[r].phase.Sending? && HoldsWorker(begun.res[r]);
    var replied := Next(persistent, max, begun, Reply(r, true, true));
    assert replied.res[r].phase.Disposing?;
  }

  /** Closing an idle resource stops the worker it may hold and takes it out of the pool. */
  lemma ClosedResourceIsRemoved(persistent: bool, max: nat, s: Pool, r: nat, stopOk: bool)
    requires r in s.res && s.res[r].phase.Idle?
    ensures var closed := Next(persistent, max, Next(persistent, max, s, CloseIdle(r)), Destruct(r, stopOk));
            var t := Next(persistent, max, closed, Remove(r));
            && t.res == s.res - {r} && t.starts == s.starts
            && t.stops == s.stops + (if HoldsWorker(s.res[r]) then 1 else 0)
  {
    var closing := Next(persistent, max, s, CloseIdle(r));
    assert closing.res == s.res[r := s.res[r].(phase := Destroying)];
    var closed := Next(persistent, max, closing, Destruct(r, stopOk));
    assert closed.res[r].phase.Gone?;
  }

  lemma {:induction false} NoPanicNoCrash(persistent: bool, max: nat, s: Pool, schedule: seq<Step>)
    requires forall i :: 0 <= i < |schedule| ==> !schedule[i].Panic?
    requires forall r :: r in s.res && s.res[r].phase.Disposing? ==> !s.res[r].phase.how.Crashed?
    requires forall k :: 0 <= k < |s.endings| ==> !s.endings[k].how.Crashed?
    ensures forall k :: 0 <= k < |Run(persistent, max, s, schedule).endings| ==>
              !Run(persistent, max, s, schedule).endings[k].how.Crashed?
    decreases |schedule|
  {
    if schedule != [] {
      NoPanicNoCrash(persistent, max, Next(persistent, max, s, schedule[0]), schedule[1..]);
    }
  }

  /** So without panics it goes back exactly when Send and any release both succeeded. */
  lemma ReleasedOnlyOnSuccess(persistent: bool, max: nat, schedule: seq<Step>, k: nat)
    requires k < |Run(persistent, max, INIT, schedule).endings|
    requires forall i :: 0 <= i < |schedule| ==> !schedule[i].Panic?
    ensures var e := Run(persistent, max, INIT, schedule).endings[k];
            e.toIdle <==> e.how.Answered? && (persistent || (e.stopOk && e.waitOk))
  {
    ReleasedIff(persistent, max, schedule, k);
    NoPanicNoCrash(persistent, max, INIT, schedule);
  }
}
