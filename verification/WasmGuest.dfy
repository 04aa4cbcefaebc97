/** One WebAssembly instance, the host's view of its memory, and the guest ABI of wasmAdapter.send. */
module WasmGuest {
  import opened Prelude
  import opened Json

  /** 2^32: guest pointers and lengths are uint32, and a memory has at most this many bytes. */
  const WORD: nat := 0x1_0000_0000

  /** State of an instance: its linear memory, if the module has one, and everything else it can remember
      between calls (globals, tables). */
  datatype Instance = Instance(mem: Option<seq<byte>>, hidden: int)

  datatype Call = Returned(value: nat, after: Instance) | Trapped(after: Instance)

  /** The exports of a module: arbitrary deterministic functions of the instance and the arguments. */
  datatype Guest = Guest(alloc: Option<(Instance, nat) -> Call>, evaluate: Option<(Instance, nat, nat) -> Call>)

  /** json.Marshal of the request envelope and json.Unmarshal of the response. */
  datatype Codec = Codec(marshal: Request -> Option<seq<byte>>, unmarshal: seq<byte> -> Option<Object>)

  datatype Request = Request(name: string, params: Object)

  datatype SendError =
    | NotStarted | MarshalFailed | NoAlloc | AllocTrapped | NoMemory | WriteOutOfBounds
    | NoEvaluate | EvaluateTrapped | LengthOutOfBounds | BodyOutOfBounds | UnmarshalFailed

  datatype Reply = Response(body: Object) | Failed(error: SendError)

  // ----- memory -----

  /** Memory.Write at an in-bounds offset. */
  function Poke(mem: seq<byte>, at: nat, bytes: seq<byte>): (r: seq<byte>)
    requires at + |bytes| <= |mem|
    ensures |r| == |mem|
    ensures r[at..at + |bytes|] == bytes
    ensures forall i :: 0 <= i < |mem| && !(at <= i < at + |bytes|) ==> r[i] == mem[i]
  {
    mem[..at] + bytes + mem[at + |bytes|..]
  }

  /** binary.LittleEndian.Uint32 */
  function Uint32(b: seq<byte>): nat
    requires |b| == 4
  {
    b[0] as nat + 256 * (b[1] as nat + 256 * (b[2] as nat + 256 * b[3] as nat))
  }

  // ----- the adapter -----

  datatype Prepared = Ready(inst: Instance, reqPtr: nat) | Refused(error: SendError, inst: Instance)

  /** Steps 2 and 3 of send: alloc, then the request bytes are written at the pointer cut to 32 bits. */
  function Prepare(g: Guest, inst: Instance, bytes: seq<byte>): Prepared {
    if g.alloc.None? then Refused(NoAlloc, inst)
    else match g.alloc.value(inst, |bytes|)
      case Trapped(after) => Refused(AllocTrapped, after)
      case Returned(reqPtr, after) =>
        if after.mem.None? then Refused(NoMemory, after)
        else if reqPtr % WORD + |bytes| > |after.mem.value| then Refused(WriteOutOfBounds, after)
        else Ready(after.(mem := Some(Poke(after.mem.value, reqPtr % WORD, bytes))), reqPtr)
  }

  datatype Body = Body(bytes: seq<byte>) | Unreadable(error: SendError)

  /** Steps 5 and 6: the length prefix, then the body behind it. The address of the body wraps in uint32. */
  function ReadResponse(mem: seq<byte>, resPtr: nat): Body {
    if resPtr + 4 > |mem| then Unreadable(LengthOutOfBounds)
    else
      var length := Uint32(mem[resPtr..resPtr + 4]);
      var at := (resPtr + 4) % WORD;
      if at + length > |mem| then Unreadable(BodyOutOfBounds) else Body(mem[at..at + length])
  }

  function Decode(codec: Codec, body: Body): Reply {
    match body
    case Unreadable(e) => Failed(e)
    case Body(bytes) =>
      match codec.unmarshal(bytes)
      case None => Failed(UnmarshalFailed)
      case Some(o) => Response(o)
  }

  /** Steps 4 to 7 of send. */
  function Finish(g: Guest, codec: Codec, inst: Instance, reqPtr: nat, reqLen: nat): (Reply, Instance) {
    if g.evaluate.None? then (Failed(NoEvaluate), inst)
    else match g.evaluate.value(inst, reqPtr, reqLen)
      case Trapped(after) => (Failed(EvaluateTrapped), after)
      case Returned(value, after) =>
        var mem := if after.mem.Some? then after.mem.value else [];
        (Decode(codec, ReadResponse(mem, value % WORD)), after)
  }

  /** wasmAdapter.send: the reply, and the instance the guest leaves behind. */
  function Send(g: Guest, codec: Codec, inst: Instance, req: Request): (Reply, Instance) {
    match codec.marshal(req)
    case None => (Failed(MarshalFailed), inst)
    case Some(bytes) =>
      match Prepare(g, inst, bytes)
      case Refused(e, after) => (Failed(e), after)
      case Ready(ready, reqPtr) => Finish(g, codec, ready, reqPtr, |bytes|)
  }

  // ----- the ABI -----

  /** What the host does before evaluate, told from what alloc returned: when the request fits at that pointer, cut
      to 32 bits, it is written there, nothing else of memory changes and evaluate gets that pointer; otherwise
      the request is refused and memory is as alloc left it. */
  lemma RequestGoesWhereAllocSaid(g: Guest, inst: Instance, bytes: seq<byte>)
    requires g.alloc.Some?
    ensures match g.alloc.value(inst, |bytes|)
            case Trapped(after) => Prepare(g, inst, bytes) == Refused(AllocTrapped, after)
            case Returned(p, after) =>
              if after.mem.None? then Prepare(g, inst, bytes) == Refused(NoMemory, after)
              else if p % WORD + |bytes| > |after.mem.value| then
                Prepare(g, inst, bytes) == Refused(WriteOutOfBounds, after)
              else
                var at := p % WORD;
                && Prepare(g, inst, bytes).Ready?
                && var Ready(ready, reqPtr) := Prepare(g, inst, bytes);
                   && reqPtr == p && ready.hidden == after.hidden && ready.mem.Some?
                   && |ready.mem.value| == |after.mem.value|
                   && ready.mem.value[at..at + |bytes|] == bytes
                   && forall i :: 0 <= i < |ready.mem.value| && !(at <= i < at + |bytes|) ==>
                        ready.mem.value[i] == after.mem.value[i]
  {
  }

  /** Every outcome of send, told from the calls of alloc and evaluate: the failures, each with the instance it
      leaves, and the response that is read. */
  lemma SendByCalls(g: Guest, codec: Codec, inst: Instance, req: Request)
    ensures match codec.marshal(req)
            case None => Send(g, codec, inst, req) == (Failed(MarshalFailed), inst)
            case Some(bytes) =>
              if g.alloc.None? then Send(g, codec, inst, req) == (Failed(NoAlloc), inst)
              else match g.alloc.value(inst, |bytes|)
                case Trapped(after) => Send(g, codec, inst, req) == (Failed(AllocTrapped), after)
                case Returned(p, after) =>
                  if after.mem.None? then Send(g, codec, inst, req) == (Failed(NoMemory), after)
                  else
                    var (mem, at) := (after.mem.value, p % 0x1_0000_0000);
                    if at + |bytes| > |mem| then Send(g, codec, inst, req) == (Failed(WriteOutOfBounds), after)
                    else
                      var ready := Instance(Some(mem[..at] + bytes + mem[at + |bytes|..]), after.hidden);
                      if g.evaluate.None? then Send(g, codec, inst, req) == (Failed(NoEvaluate), ready)
                      else match g.evaluate.value(ready, p, |bytes|)
                        case Trapped(end) => Send(g, codec, inst, req) == (Failed(EvaluateTrapped), end)
                        case Returned(q, end) =>
                          Send(g, codec, inst, req) == (ReplyAt(codec, end, q % 0x1_0000_0000), end)
  {
  }

  /** The reply that is read at p. */
  function ReplyAt(codec: Codec, inst: Instance, p: nat): Reply {
    Decode(codec, ReadResponse(if inst.mem.Some? then inst.mem.value else [], p))
  }

  /** Below 2^32 bytes: where no length fits, where no body of that length fits, and where it is no JSON object. */
  lemma ReplyFailures(codec: Codec, inst: Instance, p: nat)
    requires inst.mem.Some? && |inst.mem.value| < 0x1_0000_0000
    ensures var mem := inst.mem.value;
            && (p + 4 > |mem| ==> ReplyAt(codec, inst, p) == Failed(LengthOutOfBounds))
            && (p + 4 <= |mem| ==>
                  var length := mem[p] as nat + 0x100 * mem[p + 1] as nat
                                + 0x1_0000 * mem[p + 2] as nat + 0x100_0000 * mem[p + 3] as nat;
                  if p + 4 + length > |mem| then ReplyAt(codec, inst, p) == Failed(BodyOutOfBounds)
                  else match codec.unmarshal(mem[p + 4..p + 4 + length])
                    case None => ReplyAt(codec, inst, p) == Failed(UnmarshalFailed)
                    case Some(o) => ReplyAt(codec, inst, p) == Response(o))
  {
    var mem := inst.mem.value;
    if p + 4 <= |mem| {
      var prefix := mem[p..p + 4];
      assert prefix[0] == mem[p] && prefix[1] == mem[p + 1] && prefix[2] == mem[p + 2] && prefix[3] == mem[p + 3];
    }
  }

  /** `body` at p as the ABI lays a response out: its length in four bytes, little endian, then the body. */
  predicate LaidOut(mem: seq<byte>, p: nat, body: seq<byte>) {
    && p + 4 + |body| <= |mem|
    && |body| == mem[p] as nat + 0x100 * mem[p + 1] as nat
                 + 0x1_0000 * mem[p + 2] as nat + 0x100_0000 * mem[p + 3] as nat
    && mem[p + 4..p + 4 + |body|] == body
  }

  /** In any memory below 2^32 bytes, what is read at a pointer is exactly the body laid out there; nothing is
      read if there is none. */
  lemma ResponseReadBack(mem: seq<byte>, p: nat, body: seq<byte>)
    requires |mem| < WORD
    ensures ReadResponse(mem, p) == Body(body) <==> LaidOut(mem, p, body)
  {
    if p + 4 <= |mem| {
      var prefix := mem[p..p + 4];
      assert prefix[0] == mem[p] && prefix[1] == mem[p + 1] && prefix[2] == mem[p + 2] && prefix[3] == mem[p + 3];
    }
  }

  /** When the length prefix is in bounds, the address of the body wraps in exactly one case: a memory of
      the full 2^32 bytes whose prefix sits in its last four bytes. */
  lemma BodyAddressWrapsIff(mem: seq<byte>, resPtr: nat)
    requires |mem| <= 0x1_0000_0000 && resPtr + 4 <= |mem|
    ensures (resPtr + 4) % WORD != resPtr + 4 <==> |mem| == 0x1_0000_0000 && resPtr == 0xFFFF_FFFC
  {
  }

  /** The guest kept the ABI on this request, told from its two calls: alloc returned a pointer with room for the
      request behind it; evaluate, called with the request at that pointer, left `body` where it says. */
  ghost predicate KeepsAbi(g: Guest, inst: Instance, bytes: seq<byte>, body: seq<byte>) {
    && g.alloc.Some? && g.evaluate.Some?
    && var alloc := g.alloc.value(inst, |bytes|);
       && alloc.Returned? && alloc.after.mem.Some?
       && var (mem, at) := (alloc.after.mem.value, alloc.value % WORD);
          && at + |bytes| <= |mem|
          && var ready := Instance(Some(mem[..at] + bytes + mem[at + |bytes|..]), alloc.after.hidden);
             var eval := g.evaluate.value(ready, alloc.value, |bytes|);
             && eval.Returned? && eval.after.mem.Some? && |eval.after.mem.value| < WORD
             && LaidOut(eval.after.mem.value, eval.value % WORD, body)
  }

  /** Then send decodes exactly that body. */
  lemma SendDecodesTheBody(g: Guest, codec: Codec, inst: Instance, req: Request, body: seq<byte>)
    requires codec.marshal(req).Some? && KeepsAbi(g, inst, codec.marshal(req).value, body)
    ensures Send(g, codec, inst, req).0 ==
            match codec.unmarshal(body) { case None => Failed(UnmarshalFailed) case Some(o) => Response(o) }
  {
    var bytes := codec.marshal(req).value;
    var Ready(ready, reqPtr) := Prepare(g, inst, bytes);
    var call := g.evaluate.value(ready, reqPtr, |bytes|);
    ResponseReadBack(call.after.mem.value, call.value % WORD, body);
  }

  /** And in a guest whose memory stays below 2^32 bytes it answers only then: every response is the decoding of a
      body laid out as the ABI asks. */
  lemma OnlyTheAbiAnswers(g: Guest, codec: Codec, inst: Instance, req: Request)
    requires Send(g, codec, inst, req).0.Response?
    requires var mem := Send(g, codec, inst, req).1.mem; mem.Some? ==> |mem.value| < WORD
    ensures codec.marshal(req).Some?
    ensures exists body :: KeepsAbi(g, inst, codec.marshal(req).value, body)
              && codec.unmarshal(body) == Some(Send(g, codec, inst, req).0.body)
  {
    var bytes := codec.marshal(req).value;
    var Ready(ready, reqPtr) := Prepare(g, inst, bytes);
    var call := g.evaluate.value(ready, reqPtr, |bytes|);
    var mem := if call.after.mem.Some? then call.after.mem.value else [];
    var body := ReadResponse(mem, call.value % WORD).bytes;
    ResponseReadBack(mem, call.value % WORD, body);
    assert KeepsAbi(g, inst, bytes, body);
  }

  // ----- what WebAssembly itself guarantees -----

  /** A memory neither appears nor disappears nor shrinks. */
  ghost predicate Grew(before: Instance, after: Instance) {
    match (before.mem, after.mem)
    case (None, None) => true
    case (Some(m), Some(m')) => |m| <= |m'|
    case _ => false
  }

  ghost predicate ObeysWasm(g: Guest) {
    && (g.alloc.Some? ==> forall i, n {:trigger g.alloc.value(i, n)} :: Grew(i, g.alloc.value(i, n).after))
    && (g.evaluate.Some? ==>
          forall i, p, n {:trigger g.evaluate.value(i, p, n)} :: Grew(i, g.evaluate.value(i, p, n).after))
  }

  lemma SendGrows(g: Guest, codec: Codec, inst: Instance, req: Request)
    requires ObeysWasm(g)
    ensures Grew(inst, Send(g, codec, inst, req).1)
  {
    if codec.marshal(req).Some? {
      var bytes := codec.marshal(req).value;
      var prepared := Prepare(g, inst, bytes);
      assert Grew(inst, prepared.inst);
      if prepared.Ready? {
        assert Grew(prepared.inst, Finish(g, codec, prepared.inst, prepared.reqPtr, |bytes|).1);
      }
    }
  }
}
