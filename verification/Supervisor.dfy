/** WorkerSupervisor: which adapter it holds, and what it did to every adapter it ever made. */
module Supervisor {
  import opened Prelude

  /** Outcome of booting a worker: the adapter factory or the adapter's Start may fail. */
  datatype Boot = CreateFails | StartFails | Boots

  /** What releasing yields: a no-op, a function that waits for a stopped adapter, or the error of Stop. */
  datatype Release = Noop | WaitFor(adapter: nat) | StopError

  /** Adapters are numbered as they are made. `ref` is workerRef; `started` lists successful starts, `stops`
      the calls of Stop and `failedStops` those that failed, all in order; `cancelled` are the adapters
      whose context was cancelled. */
  datatype State = State(
    ref: Option<nat>, made: nat, started: seq<nat>, stops: seq<nat>, failedStops: set<nat>, cancelled: set<nat>)

  const EMPTY := State(None, 0, [], [], {}, {})

  /** acquireWorker, under workerLock. A made adapter whose Start fails is dropped without a cancel. */
  function Acquire(s: State, boot: Boot): (Option<nat>, State) {
    if s.ref.Some? then (s.ref, s)
    else match boot
      case CreateFails => (None, s)
      case StartFails => (None, s.(made := s.made + 1))
      case Boots => (Some(s.made), s.(ref := Some(s.made), made := s.made + 1, started := s.started + [s.made]))
  }

  /** terminateWorker, under workerLock. */
  function Terminate(s: State, stopOk: bool): (Release, State) {
    if s.ref.None? then (Noop, s)
    else
      var a := s.ref.value;
      var stopped := s.(ref := None, stops := s.stops + [a]);
      if stopOk then (WaitFor(a), stopped)
      else (StopError, stopped.(failedStops := s.failedStops + {a}, cancelled := s.cancelled + {a}))
  }

  /** releaseWorker */
  function ReleaseWorker(persistent: bool, s: State, stopOk: bool): (Release, State) {
    if persistent then (Noop, s) else Terminate(s, stopOk)
  }

  function Held(s: State): multiset<nat> {
    if s.ref.Some? then multiset{s.ref.value} else multiset{}
  }

  ghost predicate Distinct(s: seq<nat>) {
    forall i, j :: 0 <= i < j < |s| ==> s[i] != s[j]
  }

  /** Conservation: the adapters started are those stopped plus the one held, and none was started twice.
      So each is stopped at most once, whether or not Stop succeeded, and starts minus stops is 1 or 0. */
  ghost predicate Conserved(s: State) {
    && multiset(s.started) == multiset(s.stops) + Held(s)
    && Distinct(s.started)
    && (forall a :: a in s.started ==> a < s.made)
    && s.failedStops <= s.cancelled
    && (forall a :: a in s.failedStops || a in s.cancelled ==> a in s.stops)
  }

  lemma AcquireConserves(s: State, boot: Boot)
    requires Conserved(s)
    ensures Conserved(Acquire(s, boot).1)
    ensures Acquire(s, boot).0 == Acquire(s, boot).1.ref
  {
    assert forall i :: 0 <= i < |s.started| ==> s.started[i] in s.started;
  }

  lemma TerminateConserves(s: State, stopOk: bool)
    requires Conserved(s)
    ensures Conserved(Terminate(s, stopOk).1)
    ensures Terminate(s, stopOk).1.ref == None
  {
  }

  lemma MultiplicityOfDistinct(s: seq<nat>, a: nat)
    requires Distinct(s)
    ensures multiset(s)[a] <= 1
  {
    if s != [] {
      var last := |s| - 1;
      assert s == s[..last] + [s[last]];
      MultiplicityOfDistinct(s[..last], a);
      if a == s[last] {
        assert a !in s[..last];
        assert a !in multiset(s[..last]);
      }
    }
  }

  /** What conservation means for counts: starts minus stops is 1 while an adapter is held and 0 otherwise,
      no adapter is stopped twice, and the one held has not been stopped. */
  lemma ConservedCounts(s: State)
    requires Conserved(s)
    ensures |s.started| == |s.stops| + (if s.ref.Some? then 1 else 0)
    ensures forall a :: multiset(s.stops)[a] <= 1
    ensures s.ref.Some? ==> s.ref.value in s.started && s.ref.value !in s.stops
  {
    assert |multiset(s.started)| == |multiset(s.stops)| + |Held(s)|;
    forall a
      ensures multiset(s.stops)[a] + Held(s)[a] <= 1
    {
      MultiplicityOfDistinct(s.started, a);
      assert multiset(s.started)[a] == multiset(s.stops)[a] + Held(s)[a];
    }
    if s.ref.Some? {
      assert s.ref.value in multiset(s.started) && s.ref.value !in multiset(s.stops);
    }
  }

  // ----- the object -----

  /** How the adapter's Send ends. */
  datatype Sending = Answers | Errs | Panics

  /** What comes of WorkerSupervisor.Send: no worker could be acquired, the adapter's Send panicked, or a result
      and whether there is an error with it. */
  datatype SendReturn = Refused | Panicked | Returned(release: Release, ok: bool)

  class WorkerSupervisor {
    const persistent: bool
    var workerRef: Option<nat>
    var made: nat
    ghost var started: seq<nat>
    ghost var stops: seq<nat>
    ghost var failedStops: set<nat>
    ghost var cancelled: set<nat>

    ghost function View(): State
      reads this
    {
      State(workerRef, made, started, stops, failedStops, cancelled)
    }

    constructor (persistent: bool)
      ensures this.persistent == persistent && View() == EMPTY && Conserved(View())
    {
      this.persistent, workerRef, made := persistent, None, 0;
      started, stops, failedStops, cancelled := [], [], {}, {};
    }

    method AcquireWorker(boot: Boot) returns (worker: Option<nat>)
      requires Conserved(View())
      modifies this
      ensures Conserved(View()) && (worker, View()) == Acquire(old(View()), boot)
      ensures worker == workerRef
    {
      AcquireConserves(View(), boot);
      if workerRef.Some? {
        return workerRef;
      }
      if boot.CreateFails? {
        return None;
      }
      var ref := made;
      made := made + 1;
      if boot.StartFails? {
        return None;
      }
      started := started + [ref];
      workerRef := Some(ref);
      return workerRef;
    }

    method TerminateWorker(stopOk: bool) returns (release: Release)
      requires Conserved(View())
      modifies this
      ensures Conserved(View()) && (release, View()) == Terminate(old(View()), stopOk)
      ensures workerRef == None
    {
      TerminateConserves(View(), stopOk);
      if workerRef.None? {
        return Noop;
      }
      var a := workerRef.value;
      stops := stops + [a];
      workerRef := None;
      if !stopOk {
        failedStops, cancelled := failedStops + {a}, cancelled + {a};
        return StopError;
      }
      return WaitFor(a);
    }

    /** Start boots the worker of a persistent supervisor and does nothing for a transient one. */
    method Start(boot: Boot) returns (ok: bool)
      requires Conserved(View())
      modifies this
      ensures Conserved(View())
      ensures !persistent ==> ok && View() == old(View())
      ensures persistent ==> ok == workerRef.Some? && View() == Acquire(old(View()), boot).1
    {
      if !persistent {
        return true;
      }
      var worker := AcquireWorker(boot);
      return worker.Some?;
    }

    /** Send acquires, sends and releases before it returns either result; a panic of the adapter skips the
        release. So a transient supervisor holds a worker afterwards exactly if there was a panic; a persistent
        one keeps the same worker. */
    method Send(boot: Boot, sending: Sending, stopOk: bool) returns (result: SendReturn)
      requires Conserved(View())
      modifies this
      ensures Conserved(View())
      ensures result.Refused? <==> Acquire(old(View()), boot).0 == None
      ensures !result.Refused? ==> (result.Panicked? <==> sending.Panics?)
      ensures !result.Returned? ==> View() == Acquire(old(View()), boot).1
      ensures result.Returned? ==>
                && (result.ok <==> sending.Answers?)
                && (result.release, View()) == ReleaseWorker(persistent, Acquire(old(View()), boot).1, stopOk)
      ensures !persistent ==> (workerRef.Some? <==> result.Panicked?)
      ensures persistent && old(workerRef).Some? ==> workerRef == old(workerRef) && started == old(started)
    {
      var worker := AcquireWorker(boot);
      if worker.None? {
        return Refused;
      }
      if sending.Panics? {
        return Panicked;
      }
      var release := Noop;
      if !persistent {
        release := TerminateWorker(stopOk);
      }
      return Returned(release, sending.Answers?);
    }

    method Suspend(stopOk: bool) returns (release: Release)
      requires Conserved(View())
      modifies this
      ensures Conserved(View()) && (release, View()) == ReleaseWorker(persistent, old(View()), stopOk)
    {
      if persistent {
        return Noop;
      }
      release := TerminateWorker(stopOk);
    }

    method Shutdown(stopOk: bool) returns (release: Release)
      requires Conserved(View())
      modifies this
      ensures Conserved(View()) && (release, View()) == Terminate(old(View()), stopOk)
      ensures workerRef == None
    {
      release := TerminateWorker(stopOk);
    }
  }
}
