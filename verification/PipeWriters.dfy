/** Concurrent callers of headerPrefixPipe.Write.

    Under the write lock each caller puts its header and then its payload on the stream in two separate
    steps. Stdio writes are complete. A schedule is any sequence of steps; a step that is not enabled
    leaves the state alone. */
module PipeWriters {
  import opened Prelude
  import opened Text
  import opened PipeFraming

  type Message = seq<byte>

  /** wmu: free, or held by the writer of the message, whose header may already be out. */
  datatype Lock = Free | Held(writer: nat, message: Message, headerOut: bool)

  /** `todo[w]` are the messages writer w has yet to write; `log` records the completed writes in order. */
  datatype Writers = Writers(todo: seq<seq<Message>>, wmu: Lock, stream: seq<byte>, log: seq<(nat, Message)>)

  datatype Step = Acquire(w: nat) | WriteHeader | WritePayload

  function Init(program: seq<seq<Message>>): Writers {
    Writers(program, Free, [], [])
  }

  function Next(s: Writers, step: Step): Writers {
    match step
    case Acquire(w) =>
      if s.wmu.Free? && w < |s.todo| && s.todo[w] != [] then
        s.(wmu := Held(w, s.todo[w][0], false), todo := s.todo[w := s.todo[w][1..]])
      else s
    case WriteHeader =>
      if s.wmu.Held? && !s.wmu.headerOut then
        s.(stream := s.stream + Header(|s.wmu.message|), wmu := s.wmu.(headerOut := true))
      else s
    case WritePayload =>
      if s.wmu.Held? && s.wmu.headerOut then
        s.(stream := s.stream + s.wmu.message, wmu := Free, log := s.log + [(s.wmu.writer, s.wmu.message)])
      else s
  }

  function Run(s: Writers, schedule: seq<Step>): Writers
    decreases |schedule|
  {
    if schedule == [] then s else Run(Next(s, schedule[0]), schedule[1..])
  }

  /** The frames of a list of writes: no stray lines, no extra headers. */
  function Frames(log: seq<(nat, Message)>): seq<Frame> {
    seq(|log|, i requires 0 <= i < |log| => Frame([], [], log[i].1))
  }

  /** The messages of one writer among the completed writes. */
  function WrittenBy(log: seq<(nat, Message)>, w: nat): seq<Message> {
    if log == [] then []
    else WrittenBy(log[..|log| - 1], w) + (if log[|log| - 1].0 == w then [log[|log| - 1].1] else [])
  }

  function InProgress(wmu: Lock, w: nat): seq<Message> {
    if wmu.Held? && wmu.writer == w then [wmu.message] else []
  }

  ghost predicate Inv(program: seq<seq<Message>>, s: Writers) {
    && s.stream == EncodeAll(Frames(s.log)) + (if s.wmu.Held? && s.wmu.headerOut then Header(|s.wmu.message|) else [])
    && |s.todo| == |program|
    && (forall w {:trigger s.todo[w]} :: 0 <= w < |program| ==>
          WrittenBy(s.log, w) + InProgress(s.wmu, w) + s.todo[w] == program[w])
  }

  lemma {:induction false} EncodeAllAppend(fs: seq<Frame>, f: Frame)
    ensures EncodeAll(fs + [f]) == EncodeAll(fs) + Encode(f)
  {
    if fs == [] {
      assert EncodeAll([f]) == Encode(f) + EncodeAll([f][1..]);
    } else {
      assert (fs + [f])[1..] == fs[1..] + [f];
      EncodeAllAppend(fs[1..], f);
    }
  }

  lemma PayloadCompletesFrame(log: seq<(nat, Message)>, writer: nat, m: Message)
    ensures EncodeAll(Frames(log + [(writer, m)])) == EncodeAll(Frames(log)) + Header(|m|) + m
  {
    assert Frames(log + [(writer, m)]) == Frames(log) + [Frame([], [], m)];
    EncodeAllAppend(Frames(log), Frame([], [], m));
    FramedIsBareFrame(m);
    assert EncodeAll(Frames(log)) + (Header(|m|) + m) == EncodeAll(Frames(log)) + Header(|m|) + m;
  }

  lemma NextKeepsOrder(program: seq<seq<Message>>, s: Writers, step: Step, w: nat)
    requires Inv(program, s) && w < |program|
    ensures var t := Next(s, step);
            |t.todo| == |program| && WrittenBy(t.log, w) + InProgress(t.wmu, w) + t.todo[w] == program[w]
  {
    var t := Next(s, step);
    assert WrittenBy(s.log, w) + InProgress(s.wmu, w) + s.todo[w] == program[w];
    if step.WritePayload? && t.log != s.log {
      assert t.log[..|t.log| - 1] == s.log;
    }
  }

  lemma NextKeepsInv(program: seq<seq<Message>>, s: Writers, step: Step)
    requires Inv(program, s)
    ensures Inv(program, Next(s, step))
  {
    if step.WritePayload? && s.wmu.Held? {
      PayloadCompletesFrame(s.log, s.wmu.writer, s.wmu.message);
    }
    forall w | 0 <= w < |program|
      ensures var t := Next(s, step);
              |t.todo| == |program| && WrittenBy(t.log, w) + InProgress(t.wmu, w) + t.todo[w] == program[w]
    {
      NextKeepsOrder(program, s, step, w);
    }
  }

  lemma {:induction false} RunKeepsInv(program: seq<seq<Message>>, s: Writers, schedule: seq<Step>)
    requires Inv(program, s)
    ensures Inv(program, Run(s, schedule))
    decreases |schedule|
  {
    if schedule != [] {
      NextKeepsInv(program, s, schedule[0]);
      RunKeepsInv(program, Next(s, schedule[0]), schedule[1..]);
    }
  }

  /** Write atomicity. Whenever the lock is free, the stream is the concatenation of whole frames in lock
      order, and each writer's messages appear in its own order with none lost or repeated. */
  lemma WritesAreAtomic(program: seq<seq<Message>>, schedule: seq<Step>)
    ensures var s := Run(Init(program), schedule);
            s.wmu.Free? ==>
              && s.stream == EncodeAll(Frames(s.log))
              && |s.todo| == |program|
              && forall w {:trigger s.todo[w]} :: 0 <= w < |program| ==> WrittenBy(s.log, w) + s.todo[w] == program[w]
  {
    assert Inv(program, Init(program));
    RunKeepsInv(program, Init(program), schedule);
    var s := Run(Init(program), schedule);
    if s.wmu.Free? {
      forall w | 0 <= w < |program|
        ensures WrittenBy(s.log, w) + s.todo[w] == program[w]
      {
        assert InProgress(s.wmu, w) == [];
      }
    }
  }

  /** A write that is not disturbed puts its frame on the stream and frees the lock. */
  lemma WriterGetsThrough(s: Writers, w: nat)
    requires s.wmu.Free? && w < |s.todo| && s.todo[w] != []
    ensures var m := s.todo[w][0];
            Next(Next(Next(s, Acquire(w)), WriteHeader), WritePayload) ==
            Writers(s.todo[w := s.todo[w][1..]], Free, s.stream + Framed(m), s.log + [(w, m)])
  {
    var m := s.todo[w][0];
    assert s.stream + Header(|m|) + m == s.stream + Framed(m);
  }

  /** End to end: what concurrent writers put on the pipe is read back as their messages in lock order, for
      any buffer sizes, once enough non-empty reads were made. */
  lemma ConcurrentWritesReadBack(program: seq<seq<Message>>, schedule: seq<Step>, sizes: seq<nat>)
    requires var s := Run(Init(program), schedule);
             && s.wmu.Free?
             && (forall i :: 0 <= i < |s.log| ==> |s.log[i].1| <= MAX_INT)
             && (forall i :: 0 <= i < |sizes| ==> sizes[i] > 0)
             && |sizes| >= Owed([], Frames(s.log))
    ensures var s := Run(Init(program), schedule);
            Delivered(Reads(Pipe([], s.stream), sizes).0) == Payloads(Frames(s.log))
  {
    WritesAreAtomic(program, schedule);
    ReadsDeliverEverything([], Frames(Run(Init(program), schedule).log), sizes);
  }
}
