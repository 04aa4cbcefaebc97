/** wasmAdapter, wasmSupervisor and wasm.Dispatcher as objects, each method proved against the functions of
    WasmGuest and WasmSnapshot. One caller at a time; WasmPool has the interleavings. */
module WasmRuntime {
  import opened Prelude
  import opened WasmGuest
  import opened WasmSnapshot

  /** wazero's api.Module: an instance of a compiled guest whose state changes in place. */
  class Module {
    const guest: Guest
    var inst: Instance

    constructor (guest: Guest, boot: Instance)
      ensures this.guest == guest && inst == boot
    {
      this.guest, this.inst := guest, boot;
    }

    method Read(at: nat, count: nat) returns (bytes: Option<seq<byte>>)
      ensures bytes == if inst.mem.Some? && at + count <= |inst.mem.value| then Some(inst.mem.value[at..at + count])
                       else None
    {
      if inst.mem.None? || at + count > |inst.mem.value| {
        return None;
      }
      return Some(inst.mem.value[at..at + count]);
    }

    method Write(at: nat, bytes: seq<byte>) returns (ok: bool)
      modifies this`inst
      ensures ok == (old(inst).mem.Some? && at + |bytes| <= |old(inst).mem.value|)
      ensures inst == if ok then old(inst).(mem := Some(Poke(old(inst).mem.value, at, bytes))) else old(inst)
    {
      ok := inst.mem.Some? && at + |bytes| <= |inst.mem.value|;
      if ok {
        inst := inst.(mem := Some(Poke(inst.mem.value, at, bytes)));
      }
    }
  }

  datatype WasmAdapter = WasmAdapter(mod: Module) {
    method Send(codec: Codec, req: Request) returns (reply: Reply)
      modifies mod`inst
      ensures (reply, mod.inst) == WasmGuest.Send(mod.guest, codec, old(mod.inst), req)
    {
      var bytes := codec.marshal(req);
      if bytes.None? {
        return Failed(MarshalFailed);
      }
      if mod.guest.alloc.None? {
        return Failed(NoAlloc);
      }
      var alloc := mod.guest.alloc.value(mod.inst, |bytes.value|);
      mod.inst := alloc.after;
      if alloc.Trapped? {
        return Failed(AllocTrapped);
      }
      if mod.inst.mem.None? {
        return Failed(NoMemory);
      }
      var written := mod.Write(alloc.value % WORD, bytes.value);
      if !written {
        return Failed(WriteOutOfBounds);
      }
      if mod.guest.evaluate.None? {
        return Failed(NoEvaluate);
      }
      var eval := mod.guest.evaluate.value(mod.inst, alloc.value, |bytes.value|);
      mod.inst := eval.after;
      if eval.Trapped? {
        return Failed(EvaluateTrapped);
      }
      var resPtr := eval.value % WORD;
      var prefix := mod.Read(resPtr, 4);
      if prefix.None? {
        return Failed(LengthOutOfBounds);
      }
      var body := mod.Read((resPtr + 4) % WORD, Uint32(prefix.value));
      if body.None? {
        return Failed(BodyOutOfBounds);
      }
      var result := codec.unmarshal(body.value);
      return if result.None? then Failed(UnmarshalFailed) else Response(result.value);
    }
  }

  class WasmSupervisor {
    const guest: Guest
    var mod: Module?
    var adapter: Option<WasmAdapter>
    var snapshot: Option<seq<byte>>

    constructor (guest: Guest)
      ensures this.guest == guest && Valid() && mod == null
    {
      this.guest, this.mod, this.adapter, this.snapshot := guest, null, None, None;
    }

    ghost predicate Valid()
      reads this
    {
      mod != null ==> adapter == Some(WasmAdapter(mod)) && mod.guest == guest
    }

    /** `boot` is what instantiating the module gives: an instance whose start function has run, or an error. */
    method Start(boot: Option<Instance>) returns (ok: bool)
      requires Valid()
      modifies this
      ensures Valid()
      ensures ok == (old(mod) != null || boot.Some?)
      ensures old(mod) != null || !ok ==> mod == old(mod) && adapter == old(adapter) && snapshot == old(snapshot)
      ensures old(mod) == null && ok ==>
                mod != null && fresh(mod) && mod.inst == boot.value && snapshot == TakeSnapshot(boot.value)
    {
      if mod != null {
        return true;
      }
      if boot.None? {
        return false;
      }
      mod := new Module(guest, boot.value);
      adapter := Some(WasmAdapter(mod));
      // takeSnapshot
      snapshot := None;
      if mod.inst.mem.Some? {
        var size := |mod.inst.mem.value| % WORD;
        if size != 0 {
          snapshot := mod.Read(0, size);
        }
      }
      return true;
    }

    method Send(codec: Codec, req: Request) returns (reply: Reply)
      requires Valid()
      modifies mod
      ensures mod == null ==> reply == Failed(NotStarted)
      ensures mod != null ==> (reply, mod.inst) == Serve(guest, codec, snapshot, old(mod.inst), req)
    {
      if mod == null || adapter.None? {
        return Failed(NotStarted);
      }
      reply := adapter.value.Send(codec, req);
      // restoreSnapshot
      if snapshot.Some? && mod.inst.mem.Some? {
        var _ := mod.Write(0, snapshot.value);
      }
    }

    /** `closed` is whether closing the module succeeds. */
    method Shutdown(closed: bool) returns (ok: bool)
      requires Valid()
      modifies this
      ensures Valid()
      ensures ok == (old(mod) == null || closed)
      ensures mod == if closed then null else old(mod)
    {
      if mod == null {
        return true;
      }
      if !closed {
        return false;
      }
      mod, adapter, snapshot := null, None, None;
      return true;
    }
  }

  datatype StartError = NoModulePath | FileUnreadable | WasiFailed | CompileFailed | InstanceFailed(index: nat)

  datatype Answer = Answer(reply: Reply) | AcquireCancelled

  /** The field d.rt: a failed Start closes the runtime but keeps the reference to it. */
  datatype Runtime = NoRuntime | Open | Closed

  class Dispatcher {
    const guest: Guest
    const codec: Codec
    var rt: Runtime
    var capacity: nat
    var pool: seq<WasmSupervisor>
    /** Every supervisor drainPool has shut down, in order. */
    ghost var drained: seq<WasmSupervisor>

    constructor (guest: Guest, codec: Codec)
      ensures this.guest == guest && this.codec == codec && pool == [] && rt == NoRuntime && drained == []
    {
      this.guest, this.codec, rt, capacity, pool, drained := guest, codec, NoRuntime, 0, [], [];
    }

    /** The channel holds different supervisors with different modules, all started. */
    ghost predicate Ready()
      reads this, pool
    {
      && |pool| <= capacity
      && (forall i :: 0 <= i < |pool| ==> pool[i].Valid() && pool[i].mod != null && pool[i].guest == guest)
      && (forall i, j :: 0 <= i < j < |pool| ==> pool[i] != pool[j] && pool[i].mod != pool[j].mod)
    }

    /** drainPool: every supervisor in the channel is taken out and shut down once; none stays.
        `closes(k)` is whether closing the k-th module succeeds; a failure is only logged. */
    method DrainPool(closes: nat -> bool)
      requires forall i :: 0 <= i < |pool| ==> pool[i].Valid()
      requires forall i, j :: 0 <= i < j < |pool| ==> pool[i] != pool[j]
      modifies this`pool, this`drained, pool
      ensures pool == [] && drained == old(drained) + old(pool)
      ensures forall i :: 0 <= i < |old(pool)| ==> old(pool)[i].mod == if closes(i) then null else old(pool[i].mod)
    {
      ghost var all := pool;
      var k := 0;
      while pool != []
        invariant 0 <= k <= |all| && pool == all[k..] && drained == old(drained) + all[..k]
        invariant forall i :: 0 <= i < |all| ==> all[i].Valid()
        invariant forall i :: 0 <= i < |all| ==>
          all[i].mod == if i < k && closes(i) then null else old(all[i].mod)
        decreases |pool|
      {
        var sv := pool[0];
        pool := pool[1..];
        var _ := sv.Shutdown(closes(k));
        drained := drained + [sv];
        k := k + 1;
      }
    }

    /** Start fills a new channel with instances, or takes out and shuts down exactly those already started. A
        second Start drops the runtime and the channel of the first as they are.
        The flags and `boots` are the outcomes of reading the file, of WASI, of compiling and of
        instantiating the i-th instance. */
    method Start(modulePath: bool, maxInstances: int, numCpu: nat, fileRead: bool, wasi: bool, compiled: bool,
                 boots: nat -> Option<Instance>, closes: nat -> bool)
      returns (err: Option<StartError>)
      modifies this
      ensures var n := if maxInstances <= 0 then numCpu else maxInstances;
              && (err == None <==>
                    modulePath && fileRead && wasi && compiled && forall i: nat :: i < n ==> boots(i).Some?)
              && (err == None ==> |pool| == n && capacity == n)
              && (err.Some? && err.value.InstanceFailed? ==> err.value.index < n)
      ensures !modulePath ==> err == Some(NoModulePath)
      ensures modulePath && !fileRead ==> err == Some(FileUnreadable)
      ensures modulePath && fileRead && !wasi ==> err == Some(WasiFailed)
      ensures modulePath && fileRead && wasi && !compiled ==> err == Some(CompileFailed)
      ensures err == None ==> Ready() && drained == old(drained)
      ensures rt == if err == None then Open
                    else if err.value.NoModulePath? || err.value.FileUnreadable? then old(rt)
                    else Closed
      ensures err == None ==> forall i :: 0 <= i < |pool| ==> fresh(pool[i]) && Booted(pool[i], boots(i))
      ensures err.Some? ==> pool == if err.value.InstanceFailed? then [] else old(pool)
      ensures err.Some? && !err.value.InstanceFailed? ==> drained == old(drained)
      ensures err.Some? && err.value.InstanceFailed? ==>
                && boots(err.value.index) == None && (forall i: nat :: i < err.value.index ==> boots(i).Some?)
                && |drained| == |old(drained)| + err.value.index && old(drained) <= drained
                && forall k {:trigger closes(k)} :: 0 <= k < err.value.index ==>
                     fresh(drained[|old(drained)| + k]) && (closes(k) ==> drained[|old(drained)| + k].mod == null)
    {
      if !modulePath {
        return Some(NoModulePath);
      }
      var n := if maxInstances <= 0 then numCpu else maxInstances;
      if !fileRead {
        return Some(FileUnreadable);
      }
      rt := Open;
      if !wasi {
        rt := Closed;
        return Some(WasiFailed);
      }
      if !compiled {
        rt := Closed;
        return Some(CompileFailed);
      }
      pool, capacity := [], n;
      var failed := FillPool(n, boots);
      if failed.Some? {
        ghost var started := pool;
        DrainPool(closes);
        rt := Closed;
        assert forall k :: 0 <= k < failed.value ==> drained[|old(drained)| + k] == started[k];
        return Some(InstanceFailed(failed.value));
      }
      return None;
    }

    /** The loop of Start: the index of the first instance that fails, with those before it in the channel. */
    method FillPool(n: nat, boots: nat -> Option<Instance>) returns (failed: Option<nat>)
      requires pool == [] && capacity == n
      modifies this`pool
      ensures Ready() && |pool| == if failed.Some? then failed.value else n
      ensures failed.Some? ==> failed.value < n && boots(failed.value) == None
      ensures forall j :: 0 <= j < |pool| ==> fresh(pool[j]) && fresh(pool[j].mod) && Booted(pool[j], boots(j))
    {
      var i := 0;
      while i < n
        invariant 0 <= i <= n && |pool| == i && Ready()
        invariant forall j :: 0 <= j < i ==> fresh(pool[j]) && fresh(pool[j].mod) && Booted(pool[j], boots(j))
      {
        var sv := new WasmSupervisor(guest);
        var ok := sv.Start(boots(i));
        if !ok {
          return Some(i);
        }
        pool := pool + [sv];
        i := i + 1;
      }
      return None;
    }

    /** Takes the head of the channel, sends through it, and puts it back at the end. When the caller's
        context is done a waiting Send may give up instead, and with an empty channel it must. */
    method Send(req: Request, ctxDone: bool) returns (answer: Answer)
      requires Ready()
      requires pool == [] ==> ctxDone
      modifies this`pool, set sv | sv in pool :: sv.mod
      ensures answer.AcquireCancelled? ==> ctxDone && pool == old(pool)
      ensures answer.Answer? ==> old(pool) != [] && pool == old(pool)[1..] + [old(pool)[0]]
      ensures answer.Answer? ==>
                var sv := old(pool)[0];
                (answer.reply, sv.mod.inst) == Serve(guest, codec, sv.snapshot, old(pool[0].mod.inst), req)
      ensures Ready()
      ensures forall i :: (if answer.Answer? then 0 else -1) < i < |old(pool)| ==>
                old(pool)[i].mod != null && old(pool)[i].mod.inst == old(pool[i].mod.inst)
    {
      var giveUp: bool := *;
      if pool == [] || (ctxDone && giveUp) {
        return AcquireCancelled;
      }
      var sv := pool[0];
      pool := pool[1..];
      var reply := sv.Send(codec, req);
      pool := pool + [sv];
      return Answer(reply);
    }

    method Shutdown(closes: nat -> bool, runtimeCloses: bool) returns (ok: bool)
      requires Ready()
      modifies this`pool, this`drained, this`rt, pool
      ensures pool == [] && drained == old(drained) + old(pool)
      ensures forall i :: 0 <= i < |old(pool)| ==> old(pool)[i].mod == if closes(i) then null else old(pool[i].mod)
      ensures ok == (old(rt).NoRuntime? || runtimeCloses)
      ensures rt == if runtimeCloses then NoRuntime else old(rt)
    {
      DrainPool(closes);
      if !rt.NoRuntime? {
        if !runtimeCloses {
          return false;
        }
        rt := NoRuntime;
      }
      return true;
    }
  }

  /** A supervisor just started from `boot`: its memory is the booted one and the snapshot is of it. */
  ghost predicate Booted(sv: WasmSupervisor, boot: Option<Instance>)
    reads sv, sv.mod
  {
    sv.mod != null && boot.Some? && sv.mod.inst == boot.value && sv.snapshot == TakeSnapshot(boot.value)
  }
}
