/** Concurrent senders on the pool of wasm.Dispatcher, after one Start.

    Each of the N instances is at any moment in the channel, with one caller, or drained. A schedule is any
    sequence of steps of any callers and of drainPool; a step that is not enabled leaves the state alone. */
module WasmPool {
  import opened WasmGuest
  import opened WasmSnapshot

  /** An instance and, as history, the requests it has served. */
  datatype Node = Node(inst: Instance, served: seq<Request>)

  /** A call of Dispatcher.Send: holding an instance, or holding its reply and still the instance. */
  datatype Job = Serving(id: nat, req: Request) | Answered(id: nat, req: Request, reply: Reply)

  /** A call of Dispatcher.Send that has returned. */
  datatype Given = Given(caller: nat, req: Request, reply: Reply)

  datatype Pool = Pool(
    nodes: seq<Node>, free: seq<nat>, jobs: map<nat, Job>, drained: seq<nat>, replies: seq<Given>)

  datatype Step = Take(caller: nat, req: Request) | Answer(caller: nat) | GiveBack(caller: nat) | Drain

  function Init(boot: Instance, n: nat): Pool {
    Pool(seq(n, _ => Node(boot, [])), seq(n, i => i), map[], [], [])
  }

  predicate Enabled(s: Pool, step: Step) {
    match step
    case Take(c, _) => c !in s.jobs && s.free != []
    case Answer(c) => c in s.jobs && s.jobs[c].Serving? && s.jobs[c].id < |s.nodes|
    case GiveBack(c) => c in s.jobs && s.jobs[c].Answered?
    case Drain => s.free != []
  }

  function Next(g: Guest, codec: Codec, boot: Instance, s: Pool, step: Step): Pool {
    if !Enabled(s, step) then s
    else match step
      case Take(c, req) => s.(free := s.free[1..], jobs := s.jobs[c := Serving(s.free[0], req)])
      case Answer(c) =>
        var Serving(id, req) := s.jobs[c];
        var (reply, after) := Serve(g, codec, TakeSnapshot(boot), s.nodes[id].inst, req);
        s.(nodes := s.nodes[id := Node(after, s.nodes[id].served + [req])],
           jobs := s.jobs[c := Answered(id, req, reply)])
      case GiveBack(c) =>
        var Answered(id, req, reply) := s.jobs[c];
        s.(free := s.free + [id], jobs := s.jobs - {c}, replies := s.replies + [Given(c, req, reply)])
      case Drain => s.(free := s.free[1..], drained := s.drained + [s.free[0]])
  }

  function Run(g: Guest, codec: Codec, boot: Instance, s: Pool, schedule: seq<Step>): Pool
    decreases |schedule|
  {
    if schedule == [] then s else Run(g, codec, boot, Next(g, codec, boot, s, schedule[0]), schedule[1..])
  }

  // ----- conservation -----

  ghost predicate Distinct(s: seq<nat>) {
    forall i, j :: 0 <= i < j < |s| ==> s[i] != s[j]
  }

  /** The channel and the drained instances are different instances. */
  ghost predicate Apart(s: Pool, n: nat) {
    && Distinct(s.free) && Distinct(s.drained)
    && (forall i :: i in s.free ==> i < n && i !in s.drained)
    && (forall i :: i in s.drained ==> i < n)
  }

  /** Each caller has an instance of its own. */
  ghost predicate Exclusive(s: Pool, n: nat) {
    && (forall c :: c in s.jobs ==> s.jobs[c].id < n && s.jobs[c].id !in s.free && s.jobs[c].id !in s.drained)
    && (forall c, c' :: c in s.jobs && c' in s.jobs && c != c' ==> s.jobs[c].id != s.jobs[c'].id)
  }

  /** Channel, callers and drained instances partition the n instances. */
  ghost predicate Partition(s: Pool, n: nat) {
    && |s.nodes| == n
    && |s.free| + |s.jobs| + |s.drained| == n
    && Apart(s, n) && Exclusive(s, n)
  }

  /** The head of the channel leaves it; it was there once, and it is not drained. */
  lemma HeadLeaves(s: Pool, n: nat)
    requires Apart(s, n) && Exclusive(s, n) && s.free != []
    ensures var (head, rest) := (s.free[0], s.free[1..]);
            && head < n && head !in rest && head !in s.drained && Distinct(rest)
            && (forall i :: i in rest ==> i in s.free)
            && (forall c :: c in s.jobs ==> s.jobs[c].id != head)
  {
    var (head, rest) := (s.free[0], s.free[1..]);
    assert head in s.free;
    forall k | 0 <= k < |rest|
      ensures rest[k] != head && rest[k] in s.free
    {
      assert rest[k] == s.free[k + 1];
    }
  }

  lemma TakeKeepsApart(s: Pool, t: Pool, n: nat)
    requires Apart(s, n) && Exclusive(s, n) && s.free != []
    requires t.free == s.free[1..] && t.drained == s.drained
    ensures Apart(t, n)
  {
    hide Exclusive;
    HeadLeaves(s, n);
  }

  lemma TakeKeepsExclusive(s: Pool, t: Pool, c: nat, req: Request, n: nat)
    requires Apart(s, n) && Exclusive(s, n) && s.free != [] && c !in s.jobs
    requires t.free == s.free[1..] && t.drained == s.drained && t.jobs == s.jobs[c := Serving(s.free[0], req)]
    ensures Exclusive(t, n)
  {
    hide Apart;
    HeadLeaves(s, n);
  }

  lemma TakeKeepsPartition(s: Pool, c: nat, req: Request, n: nat)
    requires Partition(s, n) && s.free != [] && c !in s.jobs
    ensures Partition(s.(free := s.free[1..], jobs := s.jobs[c := Serving(s.free[0], req)]), n)
  {
    hide Apart, Exclusive;
    var t := s.(free := s.free[1..], jobs := s.jobs[c := Serving(s.free[0], req)]);
    TakeKeepsApart(s, t, n);
    TakeKeepsExclusive(s, t, c, req, n);
    assert t.jobs.Keys == s.jobs.Keys + {c};
  }

  lemma GiveBackKeepsApart(s: Pool, t: Pool, c: nat, n: nat)
    requires Apart(s, n) && Exclusive(s, n) && c in s.jobs
    requires t.free == s.free + [s.jobs[c].id] && t.drained == s.drained
    ensures Apart(t, n)
  {
  }

  lemma GiveBackKeepsExclusive(s: Pool, t: Pool, c: nat, n: nat)
    requires Exclusive(s, n) && c in s.jobs
    requires t.free == s.free + [s.jobs[c].id] && t.drained == s.drained && t.jobs == s.jobs - {c}
    ensures Exclusive(t, n)
  {
  }

  lemma GiveBackKeepsPartition(s: Pool, c: nat, replies: seq<Given>, n: nat)
    requires Partition(s, n) && c in s.jobs
    ensures Partition(s.(free := s.free + [s.jobs[c].id], jobs := s.jobs - {c}, replies := replies), n)
  {
    hide Apart, Exclusive;
    var t := s.(free := s.free + [s.jobs[c].id], jobs := s.jobs - {c}, replies := replies);
    GiveBackKeepsApart(s, t, c, n);
    GiveBackKeepsExclusive(s, t, c, n);
    assert t.jobs.Keys == s.jobs.Keys - {c};
  }

  lemma DrainKeepsPartition(s: Pool, n: nat)
    requires Partition(s, n) && s.free != []
    ensures Partition(s.(free := s.free[1..], drained := s.drained + [s.free[0]]), n)
  {
    HeadLeaves(s, n);
  }

  lemma AnswerKeepsPartition(s: Pool, c: nat, nodes: seq<Node>, reply: Reply, n: nat)
    requires Partition(s, n) && c in s.jobs && |nodes| == n
    ensures Partition(s.(nodes := nodes, jobs := s.jobs[c := Answered(s.jobs[c].id, s.jobs[c].req, reply)]), n)
  {
    assert s.jobs[c := Answered(s.jobs[c].id, s.jobs[c].req, reply)].Keys == s.jobs.Keys;
  }

  lemma NextKeepsPartition(g: Guest, codec: Codec, boot: Instance, s: Pool, step: Step, n: nat)
    requires Partition(s, n)
    ensures Partition(Next(g, codec, boot, s, step), n)
  {
    var t := Next(g, codec, boot, s, step);
    if Enabled(s, step) {
      match step
      case Take(c, req) => TakeKeepsPartition(s, c, req, n);
      case Answer(c) => AnswerKeepsPartition(s, c, t.nodes, t.jobs[c].reply, n);
      case GiveBack(c) => GiveBackKeepsPartition(s, c, t.replies, n);
      case Drain => DrainKeepsPartition(s, n);
    }
  }

  lemma {:induction false} RunKeepsPartition(g: Guest, codec: Codec, boot: Instance, s: Pool, schedule: seq<Step>,
                                             n: nat)
    requires Partition(s, n)
    ensures Partition(Run(g, codec, boot, s, schedule), n)
    decreases |schedule|
  {
    if schedule != [] {
      NextKeepsPartition(g, codec, boot, s, schedule[0], n);
      RunKeepsPartition(g, codec, boot, Next(g, codec, boot, s, schedule[0]), schedule[1..], n);
    }
  }

  /** Pool conservation. In every run no instance is with two callers or in two places, none is lost, and a
      caller giving its instance back finds room in the channel of capacity n, so it never blocks. */
  lemma PoolConservesInstances(g: Guest, codec: Codec, boot: Instance, n: nat, schedule: seq<Step>)
    ensures var s := Run(g, codec, boot, Init(boot, n), schedule);
            Partition(s, n) && (s.jobs != map[] ==> |s.free| < n)
  {
    assert Partition(Init(boot, n), n);
    RunKeepsPartition(g, codec, boot, Init(boot, n), schedule, n);
    var s := Run(g, codec, boot, Init(boot, n), schedule);
    if s.jobs != map[] {
      var c :| c in s.jobs;
      assert |s.jobs.Keys| > 0;
    }
  }

  function DrainsIn(g: Guest, codec: Codec, boot: Instance, s: Pool, schedule: seq<Step>): nat
    decreases |schedule|
  {
    if schedule == [] then 0
    else
      (if schedule[0].Drain? && Enabled(s, schedule[0]) then 1 else 0)
      + DrainsIn(g, codec, boot, Next(g, codec, boot, s, schedule[0]), schedule[1..])
  }

  /** drainPool ends: however callers take and give back instances meanwhile, its loop takes at most the
      instances in the channel or in flight when it starts. */
  lemma {:induction false} DrainPoolTerminates(g: Guest, codec: Codec, boot: Instance, s: Pool,
                                               schedule: seq<Step>, n: nat)
    requires Partition(s, n)
    ensures DrainsIn(g, codec, boot, s, schedule) <= |s.free| + |s.jobs|
    decreases |schedule|
  {
    if schedule != [] {
      NextKeepsPartition(g, codec, boot, s, schedule[0], n);
      assert |Next(g, codec, boot, s, schedule[0]).drained| ==
             |s.drained| + if schedule[0].Drain? && Enabled(s, schedule[0]) then 1 else 0;
      DrainPoolTerminates(g, codec, boot, Next(g, codec, boot, s, schedule[0]), schedule[1..], n);
    }
  }

  // ----- refinement -----

  /** Every instance is what its own history makes of a booted one, and every reply given so far is the
      reply of some instance with such a history. */
  ghost predicate Explained(g: Guest, codec: Codec, boot: Instance, s: Pool) {
    && (forall i :: 0 <= i < |s.nodes| ==> s.nodes[i].inst == After(g, codec, boot, s.nodes[i].served))
    && (forall c :: c in s.jobs && s.jobs[c].Answered? ==> WarmReply(g, codec, boot, s.jobs[c].req, s.jobs[c].reply))
    && (forall k :: 0 <= k < |s.replies| ==> WarmReply(g, codec, boot, s.replies[k].req, s.replies[k].reply))
  }

  ghost predicate WarmReply(g: Guest, codec: Codec, boot: Instance, req: Request, reply: Reply) {
    exists history :: reply == Send(g, codec, After(g, codec, boot, history), req).0
  }

  lemma NextKeepsExplained(g: Guest, codec: Codec, boot: Instance, s: Pool, step: Step)
    requires Explained(g, codec, boot, s)
    ensures Explained(g, codec, boot, Next(g, codec, boot, s, step))
  {
    if step.Answer? && Enabled(s, step) {
      var Serving(id, req) := s.jobs[step.caller];
      var served := s.nodes[id].served;
      assert (served + [req])[..|served|] == served;
      var reply := Next(g, codec, boot, s, step).jobs[step.caller].reply;
      assert Send(g, codec, After(g, codec, boot, served), req).0 == reply;
    }
  }

  lemma {:induction false} RunKeepsExplained(g: Guest, codec: Codec, boot: Instance, s: Pool, schedule: seq<Step>)
    requires Explained(g, codec, boot, s)
    ensures Explained(g, codec, boot, Run(g, codec, boot, s, schedule))
    decreases |schedule|
  {
    if schedule != [] {
      NextKeepsExplained(g, codec, boot, s, schedule[0]);
      RunKeepsExplained(g, codec, boot, Next(g, codec, boot, s, schedule[0]), schedule[1..]);
    }
  }

  // ----- each caller and its own requests -----

  /** The requests of the calls a caller makes along the schedule: of its Takes that are enabled, in order. */
  function Asked(g: Guest, codec: Codec, boot: Instance, s: Pool, schedule: seq<Step>, c: nat): seq<Request>
    decreases |schedule|
  {
    if schedule == [] then []
    else
      var step := schedule[0];
      (if step.Take? && step.caller == c && Enabled(s, step) then [step.req] else [])
      + Asked(g, codec, boot, Next(g, codec, boot, s, step), schedule[1..], c)
  }

  /** The calls of one caller that have returned, in order. */
  function GivenTo(replies: seq<Given>, c: nat): (r: seq<Given>)
    ensures forall k :: 0 <= k < |r| ==> r[k] in replies
  {
    if replies == [] then []
    else
      var last := |replies| - 1;
      GivenTo(replies[..last], c) + (if replies[last].caller == c then [replies[last]] else [])
  }

  function RequestsOf(given: seq<Given>): (r: seq<Request>)
    ensures |r| == |given|
  {
    seq(|given|, k requires 0 <= k < |given| => given[k].req)
  }

  function Pending(s: Pool, c: nat): seq<Request> {
    if c in s.jobs then [s.jobs[c].req] else []
  }

  /** The requests of a caller's calls: those that have returned, then the one in progress. */
  function Handled(s: Pool, c: nat): seq<Request> {
    RequestsOf(GivenTo(s.replies, c)) + Pending(s, c)
  }

  lemma NextKeepsHandled(g: Guest, codec: Codec, boot: Instance, s: Pool, step: Step, c: nat)
    ensures Handled(Next(g, codec, boot, s, step), c) ==
            Handled(s, c) + if step.Take? && step.caller == c && Enabled(s, step) then [step.req] else []
  {
    var t := Next(g, codec, boot, s, step);
    if step.GiveBack? && Enabled(s, step) {
      assert t.replies[..|s.replies|] == s.replies;
      var given := Given(step.caller, s.jobs[step.caller].req, s.jobs[step.caller].reply);
      assert RequestsOf(GivenTo(s.replies, c) + [given]) == RequestsOf(GivenTo(s.replies, c)) + [given.req];
    }
  }

  lemma {:induction false} RunKeepsHandled(g: Guest, codec: Codec, boot: Instance, s: Pool, schedule: seq<Step>, c: nat)
    ensures Handled(Run(g, codec, boot, s, schedule), c) == Handled(s, c) + Asked(g, codec, boot, s, schedule, c)
    decreases |schedule|
  {
    if schedule != [] {
      var next := Next(g, codec, boot, s, schedule[0]);
      NextKeepsHandled(g, codec, boot, s, schedule[0], c);
      RunKeepsHandled(g, codec, boot, next, schedule[1..], c);
      assert Run(g, codec, boot, s, schedule) == Run(g, codec, boot, next, schedule[1..]);
    }
  }

  /** The calls of a caller, told from the schedule: its k-th reply is for its k-th request, and while a call is
      in progress it is for the last request. */
  lemma CallersGetTheirOwn(g: Guest, codec: Codec, boot: Instance, n: nat, schedule: seq<Step>, c: nat)
    ensures var s := Run(g, codec, boot, Init(boot, n), schedule);
            var (asked, given) := (Asked(g, codec, boot, Init(boot, n), schedule, c), GivenTo(s.replies, c));
            && |asked| == |given| + (if c in s.jobs then 1 else 0)
            && (forall k :: 0 <= k < |given| ==> given[k].req == asked[k])
            && (c in s.jobs ==> s.jobs[c].req == asked[|given|])
  {
    RunKeepsHandled(g, codec, boot, Init(boot, n), schedule, c);
    var s := Run(g, codec, boot, Init(boot, n), schedule);
    var (asked, given) := (Asked(g, codec, boot, Init(boot, n), schedule, c), GivenTo(s.replies, c));
    assert Handled(Init(boot, n), c) == [];
    assert asked == Handled(s, c);
    forall k | 0 <= k < |given|
      ensures given[k].req == asked[k]
    {
      assert RequestsOf(given)[k] == asked[k];
    }
  }

  /** A call from start to end, undisturbed: the head of the channel serves it and goes to the end, and the
      caller gets the reply to its request. */
  lemma SendIsServed(g: Guest, codec: Codec, boot: Instance, s: Pool, c: nat, req: Request, n: nat)
    requires Partition(s, n) && c !in s.jobs && s.free != []
    ensures var t := Run(g, codec, boot, s, [Take(c, req), Answer(c), GiveBack(c)]);
            var head := s.free[0];
            && head < |s.nodes| && t.free == s.free[1..] + [head] && t.jobs == s.jobs && t.drained == s.drained
            && var (reply, after) := Serve(g, codec, TakeSnapshot(boot), s.nodes[head].inst, req);
               && GivenTo(t.replies, c) == GivenTo(s.replies, c) + [Given(c, req, reply)]
               && t.nodes == s.nodes[head := Node(after, s.nodes[head].served + [req])]
  {
    hide Serve, Exclusive;
    assert s.free[0] in s.free;
    RunOfThree(g, codec, boot, s, Take(c, req), Answer(c), GiveBack(c));
    var t := Run(g, codec, boot, s, [Take(c, req), Answer(c), GiveBack(c)]);
    assert t.replies[..|s.replies|] == s.replies;
  }

  /** The replies a caller got are, in order, the ones fresh instances give to its requests. */
  ghost predicate OwnRepliesAreFresh(g: Guest, codec: Codec, boot: Instance, n: nat, schedule: seq<Step>, c: nat) {
    var s := Run(g, codec, boot, Init(boot, n), schedule);
    var (asked, given) := (Asked(g, codec, boot, Init(boot, n), schedule, c), GivenTo(s.replies, c));
    && |given| <= |asked|
    && forall k :: 0 <= k < |given| ==> given[k].reply == FreshReply(g, codec, boot, asked[k])
  }

  ghost predicate RepliesAreFresh(g: Guest, codec: Codec, boot: Instance, n: nat, schedule: seq<Step>) {
    forall c :: OwnRepliesAreFresh(g, codec, boot, n, schedule, c)
  }

  /** The warm pool refines a fresh instance per request: in every interleaving of concurrent senders and of
      draining, the replies of each caller are, in order, those that a freshly started instance gives to the
      requests it sent, also the one it has not received yet. */
  lemma PoolRefinesFreshInstances(g: Guest, codec: Codec, boot: Instance, n: nat, schedule: seq<Step>)
    requires WarmIsFresh(g, codec, boot)
    ensures RepliesAreFresh(g, codec, boot, n, schedule)
    ensures var s := Run(g, codec, boot, Init(boot, n), schedule);
            forall c :: c in s.jobs && s.jobs[c].Answered? ==>
              var asked := Asked(g, codec, boot, Init(boot, n), schedule, c);
              asked != [] && s.jobs[c].reply == FreshReply(g, codec, boot, asked[|asked| - 1])
  {
    assert Explained(g, codec, boot, Init(boot, n));
    RunKeepsExplained(g, codec, boot, Init(boot, n), schedule);
    var s := Run(g, codec, boot, Init(boot, n), schedule);
    forall c
      ensures OwnRepliesAreFresh(g, codec, boot, n, schedule, c)
    {
      OwnRepliesAreWarm(g, codec, boot, n, schedule, c);
    }
    forall c | c in s.jobs && s.jobs[c].Answered?
      ensures var asked := Asked(g, codec, boot, Init(boot, n), schedule, c);
              asked != [] && s.jobs[c].reply == FreshReply(g, codec, boot, asked[|asked| - 1])
    {
      CallersGetTheirOwn(g, codec, boot, n, schedule, c);
    }
  }

  lemma OwnRepliesAreWarm(g: Guest, codec: Codec, boot: Instance, n: nat, schedule: seq<Step>, c: nat)
    requires WarmIsFresh(g, codec, boot)
    requires Explained(g, codec, boot, Run(g, codec, boot, Init(boot, n), schedule))
    ensures OwnRepliesAreFresh(g, codec, boot, n, schedule, c)
  {
    hide Send, After;
    CallersGetTheirOwn(g, codec, boot, n, schedule, c);
    var given := GivenTo(Run(g, codec, boot, Init(boot, n), schedule).replies, c);
    forall k | 0 <= k < |given|
      ensures given[k].reply == FreshReply(g, codec, boot, given[k].req)
    {
      assert WarmReply(g, codec, boot, given[k].req, given[k].reply);
    }
  }

  // ----- the hypothesis is exact -----

  /** One caller using the only instance for one request after another. */
  function Sequential(history: seq<Request>): seq<Step> {
    if history == [] then []
    else Sequential(history[..|history| - 1]) + [Take(0, history[|history| - 1]), Answer(0), GiveBack(0)]
  }

  lemma {:induction false} RunAppend(g: Guest, codec: Codec, boot: Instance, s: Pool, a: seq<Step>, b: seq<Step>)
    ensures Run(g, codec, boot, s, a + b) == Run(g, codec, boot, Run(g, codec, boot, s, a), b)
    decreases |a|
  {
    if a == [] {
      assert a + b == b;
    } else {
      assert (a + b)[1..] == a[1..] + b;
      RunAppend(g, codec, boot, Next(g, codec, boot, s, a[0]), a[1..], b);
    }
  }

  lemma RunOfThree(g: Guest, codec: Codec, boot: Instance, s: Pool, x: Step, y: Step, z: Step)
    ensures Run(g, codec, boot, s, [x, y, z]) ==
            Next(g, codec, boot, Next(g, codec, boot, Next(g, codec, boot, s, x), y), z)
  {
    assert [x, y, z][1..] == [y, z] && [y, z][1..] == [z];
    var t := Next(g, codec, boot, Next(g, codec, boot, s, x), y);
    assert Run(g, codec, boot, t, [z]) == Run(g, codec, boot, Next(g, codec, boot, t, z), []);
  }

  lemma {:induction false} SequentialRun(g: Guest, codec: Codec, boot: Instance, history: seq<Request>)
    ensures var s := Run(g, codec, boot, Init(boot, 1), Sequential(history));
            && s.nodes == [Node(After(g, codec, boot, history), history)] && s.free == [0] && s.jobs == map[]
            && (history != [] ==>
                  var last := |history| - 1;
                  s.replies != [] && s.replies[|s.replies| - 1] ==
                    Given(0, history[last], Send(g, codec, After(g, codec, boot, history[..last]), history[last]).0))
  {
    hide Send;
    var init := Init(boot, 1);
    if history == [] {
      assert init.nodes == [Node(boot, [])] && init.free == [0];
    } else {
      var last := |history| - 1;
      var req := history[last];
      SequentialRun(g, codec, boot, history[..last]);
      var s := Run(g, codec, boot, init, Sequential(history[..last]));
      RunAppend(g, codec, boot, init, Sequential(history[..last]), [Take(0, req), Answer(0), GiveBack(0)]);
      RunOfThree(g, codec, boot, s, Take(0, req), Answer(0), GiveBack(0));
      assert history == history[..last] + [req];
    }
  }

  /** A guest whose warm instances answer differently shows it in a pool: the condition of the refinement is
      not only sufficient but necessary, already for one instance and one caller. */
  lemma PoolRefinementNeedsWarmIsFresh(g: Guest, codec: Codec, boot: Instance)
    requires !WarmIsFresh(g, codec, boot)
    ensures exists schedule :: !OwnRepliesAreFresh(g, codec, boot, 1, schedule, 0)
  {
    var history, req :| Send(g, codec, After(g, codec, boot, history), req).0 != FreshReply(g, codec, boot, req);
    SequentialReply(g, codec, boot, history, req);
  }

  /** Every instance is as it was booted. */
  ghost predicate InstancesAreBoot(g: Guest, codec: Codec, boot: Instance, n: nat, schedule: seq<Step>) {
    var s := Run(g, codec, boot, Init(boot, n), schedule);
    forall i :: 0 <= i < |s.nodes| ==> s.nodes[i].inst == boot
  }

  /** Exactly the residue-free guests keep every instance of the pool as it was booted, in every state of every
      run; then all replies are fresh too. */
  lemma PoolStaysBootedIff(g: Guest, codec: Codec, boot: Instance)
    requires Below4GiB(boot)
    ensures (forall n, schedule :: InstancesAreBoot(g, codec, boot, n, schedule)) <==> ResidueFree(g, codec, boot)
    ensures ResidueFree(g, codec, boot) ==> forall n, schedule :: RepliesAreFresh(g, codec, boot, n, schedule)
  {
    AfterIsBootIff(g, codec, boot);
    if ResidueFree(g, codec, boot) {
      ResidueFreeGuestsAreWarmIsFresh(g, codec, boot);
      forall n, schedule
        ensures InstancesAreBoot(g, codec, boot, n, schedule) && RepliesAreFresh(g, codec, boot, n, schedule)
      {
        assert Explained(g, codec, boot, Init(boot, n));
        RunKeepsExplained(g, codec, boot, Init(boot, n), schedule);
        var s := Run(g, codec, boot, Init(boot, n), schedule);
        forall i | 0 <= i < |s.nodes|
          ensures s.nodes[i].inst == boot
        {
          ResidueFreeStaysBoot(g, codec, boot, s.nodes[i].served);
        }
        PoolRefinesFreshInstances(g, codec, boot, n, schedule);
      }
    } else {
      var history :| !BootedAfter(g, codec, boot, history);
      SequentialRun(g, codec, boot, history);
      assert Run(g, codec, boot, Init(boot, 1), Sequential(history)).nodes[0].inst == After(g, codec, boot, history);
      assert !InstancesAreBoot(g, codec, boot, 1, Sequential(history));
    }
  }

  lemma PoolRefinesWarmIsFreshIff(g: Guest, codec: Codec, boot: Instance)
    ensures (forall n, schedule :: RepliesAreFresh(g, codec, boot, n, schedule)) <==> WarmIsFresh(g, codec, boot)
  {
    if WarmIsFresh(g, codec, boot) {
      forall n, schedule
        ensures RepliesAreFresh(g, codec, boot, n, schedule)
      {
        PoolRefinesFreshInstances(g, codec, boot, n, schedule);
      }
    } else {
      PoolRefinementNeedsWarmIsFresh(g, codec, boot);
      var schedule :| !OwnRepliesAreFresh(g, codec, boot, 1, schedule, 0);
      assert !RepliesAreFresh(g, codec, boot, 1, schedule);
    }
  }

  /** In every pool of guests that look like g as long as they are fresh, in every run, all replies are fresh. */
  ghost predicate FreshnessAssuresPools(g: Guest, codec: Codec, boot: Instance) {
    forall g' :: ObeysWasm(g') && SameWhenFresh(g, g', codec, boot) ==>
      forall n, schedule :: RepliesAreFresh(g', codec, boot, n, schedule)
  }

  /** The exact range of the refinement. What single requests to a booted instance show of a guest assures that a
      pool of any size answers like fresh instances, in every interleaving, exactly if none of them changes its
      globals or grows its memory. */
  lemma PoolRefinesIffResidueFree(g: Guest, codec: Codec, boot: Instance)
    requires ObeysWasm(g) && Below4GiB(boot)
    ensures FreshnessAssuresPools(g, codec, boot) <==> ResidueFree(g, codec, boot)
  {
    FreshnessAssuresIff(g, codec, boot);
    forall g'
      ensures (forall n, schedule :: RepliesAreFresh(g', codec, boot, n, schedule)) <==> WarmIsFresh(g', codec, boot)
    {
      PoolRefinesWarmIsFreshIff(g', codec, boot);
    }
  }

  lemma SequentialReply(g: Guest, codec: Codec, boot: Instance, history: seq<Request>, req: Request)
    requires Send(g, codec, After(g, codec, boot, history), req).0 != FreshReply(g, codec, boot, req)
    ensures !OwnRepliesAreFresh(g, codec, boot, 1, Sequential(history + [req]), 0)
  {
    hide Send, After, Asked, Run;
    var longer := history + [req];
    assert longer[..|longer| - 1] == history;
    SequentialRun(g, codec, boot, longer);
    CallersGetTheirOwn(g, codec, boot, 1, Sequential(longer), 0);
    var given := GivenTo(Run(g, codec, boot, Init(boot, 1), Sequential(longer)).replies, 0);
    assert given[|given| - 1].req == req;
  }
}
