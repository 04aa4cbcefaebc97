/** Snapshot and restore around every request, and what that buys: an instance that has served any number of
    requests answers like a fresh one, provided the guest keeps no state the snapshot does not cover. */
module WasmSnapshot {
  import opened Prelude
  import opened WasmGuest

  /** takeSnapshot. Memory.Size is a uint32, so it reads 0 for a memory of the full 2^32 bytes. */
  function TakeSnapshot(inst: Instance): Option<seq<byte>> {
    if inst.mem.None? then None
    else
      var size := |inst.mem.value| % WORD;
      if size == 0 then None else Some(inst.mem.value[..size])
  }

  /** restoreSnapshot; the flag is false when the write is out of bounds, which Send only logs. */
  function Restore(inst: Instance, snapshot: Option<seq<byte>>): (bool, Instance) {
    if snapshot.None? || inst.mem.None? then (true, inst)
    else if |snapshot.value| > |inst.mem.value| then (false, inst)
    else (true, inst.(mem := Some(Poke(inst.mem.value, 0, snapshot.value))))
  }

  /** wasmSupervisor.Send on a started supervisor: the reply is decoded before memory is restored. */
  function Serve(g: Guest, codec: Codec, snapshot: Option<seq<byte>>, inst: Instance, req: Request): (Reply, Instance) {
    var (reply, after) := Send(g, codec, inst, req);
    (reply, Restore(after, snapshot).1)
  }

  /** Memory agrees with that of `boot` on all the bytes `boot` had. */
  ghost predicate Agrees(inst: Instance, boot: Instance) {
    match (boot.mem, inst.mem)
    case (None, None) => true
    case (Some(m), Some(m')) => m <= m'
    case _ => false
  }

  /** Restoring brings back all of the booted memory, from any state the guest may leave, exactly when that
      memory is below 2^32 bytes; at 2^32 no snapshot is taken. */
  lemma RestoreCoversMemoryIff(boot: Instance)
    requires boot.mem.Some? && |boot.mem.value| <= WORD
    ensures (forall i {:trigger Grew(boot, i)} :: Grew(boot, i) ==> Agrees(Restore(i, TakeSnapshot(boot)).1, boot))
            <==> |boot.mem.value| < WORD
  {
    var m := boot.mem.value;
    if |m| == WORD {
      var i := boot.(mem := Some(m[0 := if m[0] == 0 then 1 else 0]));
      assert Grew(boot, i) && i.mem.value[0] != m[0];
      assert !Agrees(Restore(i, TakeSnapshot(boot)).1, boot);
    } else {
      assert m[..|m|] == m;
      forall i | Grew(boot, i)
        ensures Agrees(Restore(i, TakeSnapshot(boot)).1, boot)
      {
        RestoreAgrees(i, boot);
      }
    }
  }

  predicate Below4GiB(boot: Instance) {
    boot.mem.None? || |boot.mem.value| < WORD
  }

  lemma RestoreAgrees(inst: Instance, boot: Instance)
    requires Grew(boot, inst) && Below4GiB(boot)
    ensures var (ok, after) := Restore(inst, TakeSnapshot(boot));
            ok && Agrees(after, boot) && after.hidden == inst.hidden && Grew(inst, after) && Grew(after, inst)
  {
    if boot.mem.Some? {
      assert boot.mem.value[..|boot.mem.value|] == boot.mem.value;
    }
  }

  /** Restoring touches no byte beyond the booted memory: what the guest grew stays as it left it. */
  lemma RestoreKeepsGrownMemory(inst: Instance, boot: Instance)
    requires Grew(boot, inst) && boot.mem.Some? && Below4GiB(boot)
    ensures var after := Restore(inst, TakeSnapshot(boot)).1;
            after.mem.Some? && after.mem.value == boot.mem.value + inst.mem.value[|boot.mem.value|..]
  {
    RestoreAgrees(inst, boot);
    var (m, size) := (Restore(inst, TakeSnapshot(boot)).1.mem.value, |boot.mem.value|);
    assert m[size..] == inst.mem.value[size..];
    assert m == m[..size] + m[size..];
  }

  /** The snapshot invariant. After any Send, successful or not, memory agrees with the snapshot on all its
      bytes, the restoring write did not fail, and the reply is that of the guest's own call. */
  lemma ServeRestoresMemory(g: Guest, codec: Codec, boot: Instance, inst: Instance, req: Request)
    requires ObeysWasm(g) && Grew(boot, inst) && Below4GiB(boot)
    ensures var (reply, after) := Serve(g, codec, TakeSnapshot(boot), inst, req);
            && Agrees(after, boot) && Grew(boot, after)
            && Restore(Send(g, codec, inst, req).1, TakeSnapshot(boot)).0
            && reply == Send(g, codec, inst, req).0
  {
    SendGrows(g, codec, inst, req);
    RestoreAgrees(Send(g, codec, inst, req).1, boot);
  }

  // ----- one instance serving request after request -----

  /** The instance after it was booted and then served `history`. */
  function After(g: Guest, codec: Codec, boot: Instance, history: seq<Request>): Instance {
    if history == [] then boot
    else
      var last := |history| - 1;
      Serve(g, codec, TakeSnapshot(boot), After(g, codec, boot, history[..last]), history[last]).1
  }

  lemma {:induction false} AfterAgrees(g: Guest, codec: Codec, boot: Instance, history: seq<Request>)
    requires ObeysWasm(g) && Below4GiB(boot)
    ensures Agrees(After(g, codec, boot, history), boot)
  {
    if history != [] {
      var last := |history| - 1;
      AfterAgrees(g, codec, boot, history[..last]);
      ServeRestoresMemory(g, codec, boot, After(g, codec, boot, history[..last]), history[last]);
    }
  }

  function FreshReply(g: Guest, codec: Codec, boot: Instance, req: Request): Reply {
    Send(g, codec, boot, req).0
  }

  /** Whatever was served before, a request is answered as a freshly booted instance answers it. */
  ghost predicate WarmIsFresh(g: Guest, codec: Codec, boot: Instance) {
    forall history, req {:trigger Send(g, codec, After(g, codec, boot, history), req)} ::
      Send(g, codec, After(g, codec, boot, history), req).0 == FreshReply(g, codec, boot, req)
  }

  // ----- which guests -----

  /** One step of a history. */
  lemma AfterOneMore(g: Guest, codec: Codec, boot: Instance, history: seq<Request>, req: Request)
    ensures After(g, codec, boot, history + [req]) ==
            Serve(g, codec, TakeSnapshot(boot), After(g, codec, boot, history), req).1
  {
    assert (history + [req])[..|history|] == history;
  }

  predicate SameSize(m: Option<seq<byte>>, m': Option<seq<byte>>) {
    m.Some? == m'.Some? && (m.Some? ==> |m.value| == |m'.value|)
  }

  /** First condition on the guest, about single requests to a fresh instance: whatever the request does to its
      globals and below the end of its memory, it leaves the globals as it found them and grows no memory. */
  ghost predicate ResidueFree(g: Guest, codec: Codec, boot: Instance) {
    forall req :: LeavesNoResidue(g, codec, boot, req)
  }

  predicate LeavesNoResidue(g: Guest, codec: Codec, boot: Instance, req: Request) {
    var after := Send(g, codec, boot, req).1;
    after.hidden == boot.hidden && SameSize(boot.mem, after.mem)
  }

  lemma RestoreIsBootIff(inst: Instance, boot: Instance)
    requires Below4GiB(boot)
    ensures Restore(inst, TakeSnapshot(boot)).1 == boot <==> inst.hidden == boot.hidden && SameSize(boot.mem, inst.mem)
  {
    if boot.mem.Some? {
      assert boot.mem.value[..|boot.mem.value|] == boot.mem.value;
    }
    if inst.hidden == boot.hidden && SameSize(boot.mem, inst.mem) && boot.mem.Some? {
      assert Restore(inst, TakeSnapshot(boot)).1.mem.value == boot.mem.value;
    }
  }

  predicate BootedAfter(g: Guest, codec: Codec, boot: Instance, history: seq<Request>) {
    After(g, codec, boot, history) == boot
  }

  /** Exactly those guests leave every instance as it was booted, after any history. */
  lemma AfterIsBootIff(g: Guest, codec: Codec, boot: Instance)
    requires Below4GiB(boot)
    ensures (forall history :: BootedAfter(g, codec, boot, history)) <==> ResidueFree(g, codec, boot)
  {
    if ResidueFree(g, codec, boot) {
      forall history
        ensures BootedAfter(g, codec, boot, history)
      {
        ResidueFreeStaysBoot(g, codec, boot, history);
      }
    }
    if forall history :: BootedAfter(g, codec, boot, history) {
      forall req
        ensures LeavesNoResidue(g, codec, boot, req)
      {
        assert BootedAfter(g, codec, boot, []) && BootedAfter(g, codec, boot, [] + [req]);
        AfterOneMore(g, codec, boot, [], req);
        RestoreIsBootIff(Send(g, codec, boot, req).1, boot);
      }
    }
  }

  lemma {:induction false} ResidueFreeStaysBoot(g: Guest, codec: Codec, boot: Instance, history: seq<Request>)
    requires Below4GiB(boot) && ResidueFree(g, codec, boot)
    ensures After(g, codec, boot, history) == boot
  {
    if history != [] {
      var last := |history| - 1;
      ResidueFreeStaysBoot(g, codec, boot, history[..last]);
      assert LeavesNoResidue(g, codec, boot, history[last]);
      RestoreIsBootIff(Send(g, codec, boot, history[last]).1, boot);
    }
  }

  lemma ResidueFreeGuestsAreWarmIsFresh(g: Guest, codec: Codec, boot: Instance)
    requires Below4GiB(boot) && ResidueFree(g, codec, boot)
    ensures WarmIsFresh(g, codec, boot)
  {
    forall history, req
      ensures Send(g, codec, After(g, codec, boot, history), req).0 == FreshReply(g, codec, boot, req)
    {
      ResidueFreeStaysBoot(g, codec, boot, history);
    }
  }

  /** Two guests that single requests to a booted instance cannot tell apart: not by their replies, and not by
      what they leave behind. */
  ghost predicate SameWhenFresh(g: Guest, g': Guest, codec: Codec, boot: Instance) {
    forall req :: Send(g', codec, boot, req) == Send(g, codec, boot, req)
  }

  /** Every guest that looks like g as long as it is fresh answers like a fresh one after any history. */
  ghost predicate FreshnessAssures(g: Guest, codec: Codec, boot: Instance) {
    forall g' :: ObeysWasm(g') && SameWhenFresh(g, g', codec, boot) ==> WarmIsFresh(g', codec, boot)
  }

  /** A guest that does what g does on the booted instance and anything but `shunned` on every other. */
  function Elsewhere(g: Guest, boot: Instance, shunned: Reply): Guest
    requires g.alloc.Some?
  {
    g.(alloc := Some((i: Instance, n: nat) =>
      if i == boot then g.alloc.value(i, n)
      else if shunned == Failed(AllocTrapped) then Returned(0, i)
      else Trapped(i)))
  }

  lemma ElsewhereDiffers(g: Guest, codec: Codec, boot: Instance, req: Request, inst: Instance)
    requires ObeysWasm(g) && g.alloc.Some? && codec.marshal(req).Some? && inst != boot
    ensures var g' := Elsewhere(g, boot, FreshReply(g, codec, boot, req));
            && ObeysWasm(g') && SameWhenFresh(g, g', codec, boot)
            && Send(g', codec, inst, req).0 != FreshReply(g', codec, boot, req)
  {
    var g' := Elsewhere(g, boot, FreshReply(g, codec, boot, req));
    assert Send(g', codec, boot, req) == Send(g, codec, boot, req);
  }

  /** A guest with residue has a double that looks the same when fresh and not after one request. */
  lemma ResidueHasADouble(g: Guest, codec: Codec, boot: Instance, req: Request)
    requires ObeysWasm(g) && Below4GiB(boot) && !LeavesNoResidue(g, codec, boot, req)
    ensures !FreshnessAssures(g, codec, boot)
  {
    var g' := Elsewhere(g, boot, FreshReply(g, codec, boot, req));
    RestoreIsBootIff(Send(g, codec, boot, req).1, boot);
    var inst := Serve(g, codec, TakeSnapshot(boot), boot, req).1;
    ElsewhereDiffers(g, codec, boot, req, inst);
    AfterOneMore(g', codec, boot, [], req);
    assert Send(g', codec, boot, req) == Send(g, codec, boot, req);
    assert After(g', codec, boot, [] + [req]) == inst;
    assert !WarmIsFresh(g', codec, boot);
  }

  /** What single requests to a booted instance show of a guest, replies and residue, assures fresh replies after
      any history exactly if none of them leaves residue. */
  lemma FreshnessAssuresIff(g: Guest, codec: Codec, boot: Instance)
    requires ObeysWasm(g) && Below4GiB(boot)
    ensures FreshnessAssures(g, codec, boot) <==> ResidueFree(g, codec, boot)
  {
    if ResidueFree(g, codec, boot) {
      forall g' | ObeysWasm(g') && SameWhenFresh(g, g', codec, boot)
        ensures WarmIsFresh(g', codec, boot)
      {
        forall req
          ensures LeavesNoResidue(g', codec, boot, req)
        {
          assert LeavesNoResidue(g, codec, boot, req) && Send(g', codec, boot, req) == Send(g, codec, boot, req);
        }
        ResidueFreeGuestsAreWarmIsFresh(g', codec, boot);
      }
    } else {
      var req :| !LeavesNoResidue(g, codec, boot, req);
      ResidueHasADouble(g, codec, boot, req);
    }
  }

  /** Second condition: the reply depends only on the request and on memory below the length
      of the snapshot. */
  ghost predicate DependsOnlyOnSnapshot(g: Guest, codec: Codec, boot: Instance) {
    forall i, req {:trigger Send(g, codec, i, req)} ::
      Agrees(i, boot) ==> Send(g, codec, i, req).0 == FreshReply(g, codec, boot, req)
  }

  lemma SnapshotGuestsAreWarmIsFresh(g: Guest, codec: Codec, boot: Instance)
    requires ObeysWasm(g) && Below4GiB(boot) && DependsOnlyOnSnapshot(g, codec, boot)
    ensures WarmIsFresh(g, codec, boot)
  {
    forall history, req
      ensures Send(g, codec, After(g, codec, boot, history), req).0 == FreshReply(g, codec, boot, req)
    {
      AfterAgrees(g, codec, boot, history);
    }
  }

  /** Third condition, on each export by itself: it neither grows memory nor lets its result or its effect
      on memory depend on hidden state. It may still read all of memory and write hidden state. */
  ghost predicate Confined(g: Guest) {
    && (g.alloc.Some? ==> forall m, h, h', n
          {:trigger g.alloc.value(Instance(m, h), n), g.alloc.value(Instance(m, h'), n)} ::
          SameEffect(m, g.alloc.value(Instance(m, h), n), g.alloc.value(Instance(m, h'), n)))
    && (g.evaluate.Some? ==> forall m, h, h', p, n
          {:trigger g.evaluate.value(Instance(m, h), p, n), g.evaluate.value(Instance(m, h'), p, n)} ::
          SameEffect(m, g.evaluate.value(Instance(m, h), p, n), g.evaluate.value(Instance(m, h'), p, n)))
  }

  ghost predicate SameEffect(m: Option<seq<byte>>, c: Call, c': Call) {
    && c.after.mem == c'.after.mem && SameSize(m, c.after.mem)
    && c.Returned? == c'.Returned? && (c.Returned? ==> c.value == c'.value)
  }

  lemma SendIgnoresHidden(g: Guest, codec: Codec, i: Instance, i': Instance, req: Request)
    requires Confined(g) && i.mem == i'.mem
    ensures Send(g, codec, i, req).0 == Send(g, codec, i', req).0
    ensures SameSize(i.mem, Send(g, codec, i, req).1.mem)
  {
    assert i == Instance(i.mem, i.hidden) && i' == Instance(i.mem, i'.hidden);
    if codec.marshal(req).Some? && g.alloc.Some? {
      var bytes := codec.marshal(req).value;
      assert SameEffect(i.mem, g.alloc.value(Instance(i.mem, i.hidden), |bytes|),
                        g.alloc.value(Instance(i.mem, i'.hidden), |bytes|));
      var (p, p') := (Prepare(g, i, bytes), Prepare(g, i', bytes));
      if p.Ready? && g.evaluate.Some? {
        var (r, r') := (p.inst, p'.inst);
        assert r == Instance(r.mem, r.hidden) && r' == Instance(r.mem, r'.hidden);
        assert SameEffect(r.mem, g.evaluate.value(Instance(r.mem, r.hidden), p.reqPtr, |bytes|),
                          g.evaluate.value(Instance(r.mem, r'.hidden), p.reqPtr, |bytes|));
      }
    }
  }

  lemma {:induction false} ConfinedMemoryIsBoot(g: Guest, codec: Codec, boot: Instance, history: seq<Request>)
    requires Confined(g) && Below4GiB(boot)
    ensures After(g, codec, boot, history).mem == boot.mem
  {
    if history != [] {
      var last := |history| - 1;
      var before := After(g, codec, boot, history[..last]);
      ConfinedMemoryIsBoot(g, codec, boot, history[..last]);
      SendIgnoresHidden(g, codec, before, before, history[last]);
      var sent := Send(g, codec, before, history[last]).1;
      assert Grew(boot, sent);
      RestoreAgrees(sent, boot);
      assert boot.mem.Some? ==> After(g, codec, boot, history).mem.value == boot.mem.value;
    }
  }

  lemma ConfinedGuestsAreWarmIsFresh(g: Guest, codec: Codec, boot: Instance)
    requires Confined(g) && Below4GiB(boot)
    ensures WarmIsFresh(g, codec, boot)
  {
    forall history, req
      ensures Send(g, codec, After(g, codec, boot, history), req).0 == FreshReply(g, codec, boot, req)
    {
      ConfinedMemoryIsBoot(g, codec, boot, history);
      SendIgnoresHidden(g, codec, After(g, codec, boot, history), boot, req);
    }
  }

  // ----- why a condition is needed -----

  /** A page of WebAssembly memory, all zero. */
  const PAGE: seq<byte> := seq(65536, _ => 0)

  /** A codec under which every request is empty and every response reads as an empty object. */
  const EMPTY_CODEC := Codec((r: Request) => Some([]), (b: seq<byte>) => Some(map[]))

  lemma EmptyResponse(mem: seq<byte>)
    requires PAGE <= mem
    ensures Decode(EMPTY_CODEC, ReadResponse(mem, 0)) == Response(map[])
    ensures Poke(mem, 0, []) == mem
  {
    assert mem[0..4] == [0, 0, 0, 0];
  }

  /** A guest that counts its calls in a global answers its second request differently. */
  lemma GlobalsLeak() returns (g: Guest, codec: Codec, boot: Instance, req: Request)
    ensures ObeysWasm(g) && Below4GiB(boot) && !WarmIsFresh(g, codec, boot)
  {
    g := Guest(Some((i: Instance, n: nat) => Returned(0, i)),
               Some((i: Instance, p: nat, n: nat) =>
                 if i.hidden == 0 then Returned(0, i.(hidden := 1)) else Trapped(i)));
    codec := EMPTY_CODEC;
    boot := Instance(Some(PAGE), 0);
    req := Request("eval", map[]);
    EmptyResponse(PAGE);
    AfterOneMore(g, codec, boot, [], req);
    assert After(g, codec, boot, [] + [req]).hidden == 1;
    assert Send(g, codec, After(g, codec, boot, [] + [req]), req).0 == Failed(EvaluateTrapped);
    assert FreshReply(g, codec, boot, req) == Response(map[]);
  }

  /** So does one that grows its memory: the new page is not taken back. */
  lemma GrownMemoryLeaks() returns (g: Guest, codec: Codec, boot: Instance, req: Request)
    ensures ObeysWasm(g) && Below4GiB(boot) && !WarmIsFresh(g, codec, boot)
  {
    g := Guest(Some((i: Instance, n: nat) => Returned(0, i)),
               Some((i: Instance, p: nat, n: nat) =>
                 if i.mem.Some? && |i.mem.value| == 65536 then Returned(0, i.(mem := Some(i.mem.value + PAGE)))
                 else Trapped(i)));
    codec := EMPTY_CODEC;
    boot := Instance(Some(PAGE), 0);
    req := Request("eval", map[]);
    EmptyResponse(PAGE);
    EmptyResponse(PAGE + PAGE);
    AfterOneMore(g, codec, boot, [], req);
    var served := After(g, codec, boot, [] + [req]);
    assert |served.mem.value| == 131072;
    assert Send(g, codec, served, req).0 == Failed(EvaluateTrapped);
    assert FreshReply(g, codec, boot, req) == Response(map[]);
  }

  /** A guest that traps unless a global has its first value, which no call changes. */
  const STACK_GUEST := Guest(
    Some((i: Instance, n: nat) => Returned(0, i)),
    Some((i: Instance, p: nat, n: nat) => if i.hidden == 1 then Returned(0, i) else Trapped(i)))

  lemma StackGuestSend(mem: seq<byte>, hidden: int, req: Request)
    requires PAGE <= mem
    ensures Send(STACK_GUEST, EMPTY_CODEC, Instance(Some(mem), hidden), req) ==
            (if hidden == 1 then Response(map[]) else Failed(EvaluateTrapped), Instance(Some(mem), hidden))
  {
    EmptyResponse(mem);
  }

  /** A guest that depends on a global but leaves it as it found it, as a stack pointer, is residue-free, though
      neither of the other conditions holds of it. */
  lemma StackPointerIsFine() returns (g: Guest, codec: Codec, boot: Instance)
    ensures ObeysWasm(g) && Below4GiB(boot) && ResidueFree(g, codec, boot)
    ensures !DependsOnlyOnSnapshot(g, codec, boot) && !Confined(g)
  {
    g, codec, boot := STACK_GUEST, EMPTY_CODEC, Instance(Some(PAGE), 1);
    forall req
      ensures LeavesNoResidue(g, codec, boot, req)
    {
      StackGuestSend(PAGE, 1, req);
    }
    var req := Request("eval", map[]);
    var other := Instance(Some(PAGE), 0);
    StackGuestSend(PAGE, 0, req);
    StackGuestSend(PAGE, 1, req);
    assert Agrees(other, boot) && Send(g, codec, other, req).0 != FreshReply(g, codec, boot, req);
    assert !SameEffect(Some(PAGE), g.evaluate.value(boot, 0, 0), g.evaluate.value(other, 0, 0));
  }
}
