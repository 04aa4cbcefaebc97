# Shimmy execution core: a verified model

Shimmy puts an HTTP front end before evaluation functions that run as worker processes or as WebAssembly
instances. This project models the parts of it that carry state, protocol or arithmetic, and proves what they are
relied on for. `dafny verify dfyconfig.toml` checks all of it.

Code that updates objects step by step is modelled by classes and methods. Each method is proved against a function of
its inputs and the old state, and the theorems are about those functions. Concurrent code is modelled by step systems:
a *schedule* is any sequence of steps of any participants, a step that is not enabled changes nothing, and the theorems
hold for every schedule.

| part | modules |
|---|---|
| Framed stdio pipe of the RPC adapter | `Text`, `PipeFraming` (wire format and its theorems), `PipeIo` (the objects), `PipeWriters` (concurrent writers) |
| WebAssembly pool with snapshot and restore | `WasmGuest` (guest ABI), `WasmSnapshot`, `WasmPool` (concurrent senders), `WasmRuntime` (the objects) |
| Worker life cycle | `ProcessWorker` (exit-event hand-off), `Supervisor` (the object), `SupervisorRuns`, `StopWindow` (release and cancel), `DispatcherPool` |
| Case matching of the eval command | `CaseSearch` (the search, for any evaluation), `CaseRules` (schemas, requests, results), `CaseHandler` (the handler) |
| RPC dial backoff | `Backoff` |

## Main results

- **Framing.** Parsing undoes framing for every payload, stray line and extra header (`ReadFrameOfEncode`). Over any
  sequence of reads, bytes delivered + overflow buffer + payloads still framed = the messages (`FramingRoundTrip`), no
  read mixes two messages (`ReadOfFrames`), non-empty reads deliver everything (`ReadsDeliverEverything`), and a frame
  that breaks off is not delivered in part (`TruncatedFrameIsNotDelivered`).
  `HeaderPrefixPipe.Read` equals its specification on the whole unread stream, so chunking does not matter. Writes of
  concurrent callers come out as whole frames and are read back (`WritesAreAtomic`, `ConcurrentWritesReadBack`).
- **WASM.** The warm pool refines a fresh instance per request, for every pool size and interleaving, if no single
  request to a booted instance changes the guest's globals or grows its memory; and exactly then do single requests to
  booted instances assure it, since a guest with residue has a double that looks the same when fresh and answers
  differently in a pool (`PoolRefinesIffResidueFree`). The same guests are exactly those that keep every instance as
  booted (`PoolStaysBootedIff`). The instances are always partitioned between channel, callers and drain
  (`PoolConservesInstances`), and each caller gets the replies to its own requests (`CallersGetTheirOwn`).
- **Workers.** Starts minus stops is 1 or 0 in every run and no adapter is stopped twice (`WorkersAreConserved`); over a
  whole pool they never exceed its size (`WorkersNeverExceedPoolSize`). A worker is cancelled before its process ended
  in exactly three cases (`CancelBeforeEndIff`). Each acquired resource ends exactly once (`EveryAcquisitionEndsOnce`)
  and goes back to idle exactly under `ReleasedIff`; an idle transient supervisor holds a worker exactly after a panic
  (`IdleSupervisorHoldsWorkerIff`). An exit event is handed over at most once (`ExitEventIsHandedOverOnce`), and
  `WaitIsToldTheOutcomeIff` gives the exact condition under which it is the process's own; `WaitReportsTheProcess` says
  what it then holds.
- **Cases.** The search finds the least correct case and sends exactly the requests of the cases it visits; what the
  client sees is decided by that case (`FirstMatchDecides`); a case's request is independent of earlier cases exactly
  under `RequestIsIndependentIff`.
- **Backoff.** `DelayIsCappedIff` gives the exact set of retries at which the cap works; retry 37 already waits a
  negative time.

## Model

| member | source | states |
|---|---|---|
| `Text.TrimEol` | internal/execution/supervisor/adapter_rpc_pipe.go:58 | the longest prefix that does not end in CR or LF |
| `Text.Print` | internal/execution/supervisor/adapter_rpc_pipe.go:27 | a length prints as a non-empty run of decimal digits without leading zeros |
| `Text.AtoiOfPrint` | internal/execution/supervisor/adapter_rpc_pipe.go:66 | parsing a printed number, with either sign, gives it back exactly if it fits a 64-bit int |
| `Text.TrimSpaceOf` | internal/execution/supervisor/adapter_rpc_pipe.go:66 | blanks, tabs and line breaks around the length are trimmed, and nothing else |
| `PipeFraming.NextLine` | internal/execution/supervisor/adapter_rpc_pipe.go:54 | a line is the bytes up to and including the first line feed, and there is none exactly when the stream has no line feed |
| `PipeFraming.FramedText` | internal/execution/supervisor/adapter_rpc_pipe.go:26-33 | what Write sends, spelled out: Content-Length, colon, space, the decimal length, two CRLF, the payload |
| `PipeFraming.StrayIsSkippedIff` | internal/execution/supervisor/adapter_rpc_pipe.go:53-61 | a line can be printed before a header without changing what is found, on every stream, exactly if it does not start with the prefix |
| `PipeFraming.UnterminatedStrayIsHarmlessIff` | internal/execution/supervisor/adapter_rpc_pipe.go:53-70 | stray output without a final newline leaves the header behind it readable exactly if there is none of it: any other hides the header or spoils its length |
| `PipeFraming.ScanFindsLength` | internal/execution/supervisor/adapter_rpc_pipe.go:51-72 | the scan reads back the length from the header line Write prints |
| `PipeFraming.DrainSkipsExtras` | internal/execution/supervisor/adapter_rpc_pipe.go:74-83 | any further header lines are dropped, up to and including the blank one |
| `PipeFraming.ReadFrameOfEncode` | internal/execution/supervisor/adapter_rpc_pipe.go:51-93 | a frame at the head of any stream yields exactly its payload and leaves exactly what follows |
| `PipeFraming.TruncatedFrameIsNotDelivered` | internal/execution/supervisor/adapter_rpc_pipe.go:51-93 | a frame that breaks off anywhere is not delivered, not even in part: unexpected end of file if some of the payload has come, end of file otherwise |
| `PipeFraming.JunkLengthIsInvalid` | internal/execution/supervisor/adapter_rpc_pipe.go:66-69 | a length line with a byte that belongs to no number is consumed and reported as invalid |
| `PipeFraming.HugeLengthIsInvalid` | internal/execution/supervisor/adapter_rpc_pipe.go:66-69 | so is a length that does not fit a 64-bit int |
| `PipeFraming.NegativeLengthPanics` | internal/execution/supervisor/adapter_rpc_pipe.go:66-86 | a header with a negative length is accepted, and the Read panics behind it |
| `PipeFraming.ReadOfFrames` | internal/execution/supervisor/adapter_rpc_pipe.go:36-101 | one Read returns a prefix of a single message, the rest of which goes to the overflow buffer; it fails only when nothing is left |
| `PipeFraming.FramingRoundTrip` | internal/execution/supervisor/adapter_rpc_pipe.go:22-101 | after any reads of any sizes, delivered bytes + overflow + payloads still framed = all messages in order |
| `PipeFraming.ReadMakesProgress` | internal/execution/supervisor/adapter_rpc_pipe.go:36-101 | a Read with room for a byte leaves strictly less to deliver and loses nothing |
| `PipeFraming.ReadsDeliverEverything` | internal/execution/supervisor/adapter_rpc_pipe.go:36-101 | enough non-empty reads deliver every message |
| `PipeFraming.ReadFrameExtends` | internal/execution/supervisor/adapter_rpc_pipe.go:51-93 | a frame that can be read is read the same way when more bytes arrive behind it |
| `PipeIo.BufReader.ReadString` | internal/execution/supervisor/adapter_rpc_pipe.go:54 | the next line of the whole unread stream, however it is chunked; at the end of the stream a partial line is consumed |
| `PipeIo.BufReader.ReadFull` | internal/execution/supervisor/adapter_rpc_pipe.go:86-93 | exactly n bytes of the unread stream, or end of file, or unexpected end of file |
| `PipeIo.ScanHeader` | internal/execution/supervisor/adapter_rpc_pipe.go:51-72 | the first loop computes `ScanLength` of the unread stream and consumes exactly what it read |
| `PipeIo.DrainHeaders` | internal/execution/supervisor/adapter_rpc_pipe.go:74-83 | the second loop computes `DrainHeader` of the unread stream |
| `PipeIo.CopyInto` | internal/execution/supervisor/adapter_rpc_pipe.go:96 | copy fills the buffer from the start and leaves the rest of it alone |
| `PipeIo.HeaderPrefixPipe.Write` | internal/execution/supervisor/adapter_rpc_pipe.go:22-34 | header then payload reach stdio as far as it accepts them; count and error as the code returns them |
| `PipeIo.HeaderPrefixPipe.ReadBody` | internal/execution/supervisor/adapter_rpc_pipe.go:74-100 | rest of Read once the length is known |
| `PipeIo.HeaderPrefixPipe.Read` | internal/execution/supervisor/adapter_rpc_pipe.go:36-101 | result, overflow and unread stream are those of `ReadFrom` on the unchunked stream; bytes of the buffer past the count keep their value |
| `PipeWriters.WritesAreAtomic` | internal/execution/supervisor/adapter_rpc_pipe.go:22-34 | whenever the lock is free the stream is whole frames in lock order, with each writer's messages in its own order, none lost or repeated |
| `PipeWriters.WriterGetsThrough` | internal/execution/supervisor/adapter_rpc_pipe.go:22-34 | a write that is not disturbed appends its frame and frees the lock |
| `PipeWriters.ConcurrentWritesReadBack` | internal/execution/supervisor/adapter_rpc_pipe.go:22-101 | what concurrent writers wrote is read back as their messages in lock order |
| `WasmGuest.RequestGoesWhereAllocSaid` | internal/execution/wasm/adapter.go:83-123 | told from what alloc returned: a request that fits at that pointer, cut to 32 bits, is written there, nothing else changes and evaluate gets the pointer; otherwise it is refused |
| `WasmGuest.SendByCalls` | internal/execution/wasm/adapter.go:75-128 | every outcome of send told from the calls of alloc and evaluate: each failure with the instance it leaves, and the response that is read |
| `WasmGuest.ReplyFailures` | internal/execution/wasm/adapter.go:130-158 | below 2^32 bytes: where no length fits, where no body fits, and where it is no JSON object |
| `WasmGuest.ResponseReadBack` | internal/execution/wasm/adapter.go:130-145 | in any memory below 2^32 bytes, what is read at a pointer is exactly the body laid out there behind its little-endian length, and nothing if there is none |
| `WasmGuest.BodyAddressWrapsIff` | internal/execution/wasm/adapter.go:139 | resPtr+4 wraps only in a memory of the full 2^32 bytes with the prefix in its last four |
| `WasmGuest.SendDecodesTheBody` | internal/execution/wasm/adapter.go:63-159 | if alloc made room and evaluate, called on the request there, left a body as the ABI asks, send returns its decoding |
| `WasmGuest.OnlyTheAbiAnswers` | internal/execution/wasm/adapter.go:63-159 | and below 2^32 bytes every response comes about in that way |
| `WasmGuest.SendGrows` | internal/execution/wasm/adapter.go:63-159 | a call never shrinks or removes the memory, error paths included |
| `WasmSnapshot.RestoreCoversMemoryIff` | internal/execution/wasm/supervisor.go:130-174 | restoring brings back all booted memory from whatever the guest left, exactly when that memory is below 2^32 bytes |
| `WasmSnapshot.RestoreKeepsGrownMemory` | internal/execution/wasm/supervisor.go:159-174 | restoring touches no byte beyond the booted memory |
| `WasmSnapshot.ServeRestoresMemory` | internal/execution/wasm/supervisor.go:83-104 | after every Send, memory agrees with the snapshot, the restoring write succeeded and the reply is the guest's |
| `WasmSnapshot.AfterAgrees` | internal/execution/wasm/supervisor.go:83-104 | the same after any history of requests |
| `WasmSnapshot.FreshnessAssuresIff` | internal/execution/wasm/supervisor.go:81-104 | what single requests to a booted instance show of a guest, replies and residue, assures fresh replies after any history exactly if none of them changes its globals or grows its memory |
| `WasmSnapshot.AfterIsBootIff` | internal/execution/wasm/supervisor.go:81-104 | every history leaves the instance exactly as it was booted if and only if each single request to a fresh instance leaves its globals and memory size as they were |
| `WasmSnapshot.ResidueFreeGuestsAreWarmIsFresh` | internal/execution/wasm/supervisor.go:81-104 | such a guest answers like a fresh instance after any history, also if it reads globals |
| `WasmSnapshot.StackPointerIsFine` | internal/execution/wasm/dispatcher.go:66-68 | a guest that reads a global but leaves it as it found it is one of those, though it meets neither condition below |
| `WasmSnapshot.SnapshotGuestsAreWarmIsFresh` | internal/execution/wasm/supervisor.go:81-104 | another sufficient condition: the reply depends only on the request and the snapshotted bytes, whatever the globals have become |
| `WasmSnapshot.ConfinedGuestsAreWarmIsFresh` | internal/execution/wasm/supervisor.go:81-104 | a third, on each export by itself: it neither grows memory nor lets hidden state reach results or memory |
| `WasmSnapshot.GlobalsLeak` | internal/execution/wasm/supervisor.go:157-174 | a guest with a global answers its second request differently |
| `WasmSnapshot.GrownMemoryLeaks` | internal/execution/wasm/supervisor.go:157-174 | so does a guest that grows its memory by a page |
| `WasmPool.PoolConservesInstances` | internal/execution/wasm/dispatcher.go:82-95 | channel, callers and drained instances partition the N instances in every run; returning one never blocks |
| `WasmPool.DrainPoolTerminates` | internal/execution/wasm/dispatcher.go:147-162 | against any takes and returns, draining takes at most the instances free or in flight |
| `WasmPool.CallersGetTheirOwn` | internal/execution/wasm/dispatcher.go:104-128 | told from the schedule: a caller's k-th reply is for the request of its k-th call, and a call in progress is for its last |
| `WasmPool.SendIsServed` | internal/execution/wasm/dispatcher.go:104-128 | an undisturbed call is served by the head of the channel, which goes to the end, and its caller gets that reply |
| `WasmPool.PoolRefinesFreshInstances` | internal/execution/wasm/dispatcher.go:104-128 | in every interleaving the replies of each caller are, in order, those of fresh instances to the requests it sent |
| `WasmPool.PoolRefinementNeedsWarmIsFresh` | internal/execution/wasm/dispatcher.go:104-128 | the condition is necessary: otherwise some run has a reply that differs |
| `WasmPool.PoolRefinesIffResidueFree` | internal/execution/wasm/dispatcher.go:104-128 | it assures that a pool of any size answers like fresh instances, in every interleaving, exactly under the same condition |
| `WasmPool.PoolStaysBootedIff` | internal/execution/wasm/dispatcher.go:104-128 | every instance is as booted in every state of every run exactly for residue-free guests, whose replies are all fresh |
| `WasmRuntime.WasmAdapter.Send` | internal/execution/wasm/adapter.go:63-159 | the imperative send computes `WasmGuest.Send` and leaves the instance it says |
| `WasmRuntime.WasmSupervisor.Start` | internal/execution/wasm/supervisor.go:51-79 | starts at most one instance, with the snapshot of its booted memory |
| `WasmRuntime.WasmSupervisor.Send` | internal/execution/wasm/supervisor.go:83-104 | reply and instance are those of `Serve`; an error when not started |
| `WasmRuntime.WasmSupervisor.Shutdown` | internal/execution/wasm/supervisor.go:107-126 | the module goes exactly if closing it succeeds |
| `WasmRuntime.Dispatcher.FillPool` | internal/execution/wasm/dispatcher.go:84-95 | the channel gets N different booted instances, or those before the first that fails |
| `WasmRuntime.Dispatcher.Start` | internal/execution/wasm/dispatcher.go:41-100 | succeeds exactly if every part does, replacing any earlier runtime and channel; if instance i fails, exactly the i started ones are taken out and shut down and the channel is empty |
| `WasmRuntime.Dispatcher.Send` | internal/execution/wasm/dispatcher.go:104-128 | the head of the channel serves the request and goes to the end, whatever the reply; the other instances are untouched |
| `WasmRuntime.Dispatcher.DrainPool` | internal/execution/wasm/dispatcher.go:147-162 | every supervisor in the channel is shut down once, in order, and none stays |
| `WasmRuntime.Dispatcher.Shutdown` | internal/execution/wasm/dispatcher.go:131-144 | drains, then closes the runtime; a failing close is reported and keeps the runtime |
| `ProcessWorker.GetExitEvent` | internal/execution/worker/worker.go:318-353 | exactly one of code and signal is set; success is code 0; a signal only for a process that did not exit; never the zero event |
| `ProcessWorker.ExitEventIsHandedOverOnce` | internal/execution/worker/worker.go:164-270 | in every run at most one call gets an event, it is the one the waiter produced and never the closed channel's zero; nothing is closed twice or sent on after closing |
| `ProcessWorker.WaitIsToldTheOutcomeIff` | internal/execution/worker/worker.go:124-246 | the first Wait is sure to be told how the process ended, with all its stderr, exactly if Start had registered the stderr reader when it was called |
| `ProcessWorker.WaitAfterStartIsTold` | internal/execution/worker/worker.go:217-246 | so a first Wait made after Start has returned is told how the process ended, whatever happens |
| `ProcessWorker.WaitReportsTheProcess` | internal/execution/worker/worker.go:164-270 | and told from the schedule alone: code or signal of the process's exit, code 1 if unknown or never started, and all it wrote to stderr, in order |
| `ProcessWorker.WaitIsTurnedAwayIff` | internal/execution/worker/worker.go:231-238 | a Wait is turned away exactly if there was one before |
| `ProcessWorker.WaitGivesUpIff` | internal/execution/worker/worker.go:240-245 | a waiting call gives up exactly when its context ends |
| `ProcessWorker.RefusedStartLaunchesNothing` | internal/execution/worker/worker.go:141-150 | with an ended context or no stderr pipe Start launches nothing |
| `ProcessWorker.HastyWaitIsMisinformed` | internal/execution/worker/worker.go:162-197 | a Wait called before that can be told of a failure of a process that has not been started yet |
| `ProcessWorker.WaitingCallCanReceive` | internal/execution/worker/worker.go:164-246 | a waiting call can receive within three waiter steps once the process has ended |
| `ProcessWorker.WaitCompletes` | internal/execution/worker/worker.go:164-246 | a Wait from start to end: the call gets the event of the exit with all of stderr, and both channels are closed |
| `ProcessWorker.AbandonedWaitBlocksTheWaiter` | internal/execution/worker/worker.go:186-245 | once the effective Wait has given up, the waiter never closes its channels |
| `Supervisor.ConservedCounts` | internal/execution/supervisor/supervisor.go:203-299 | what conservation means for counts: starts minus stops is 1 or 0, nothing is stopped twice, the held worker was not stopped |
| `Supervisor.AcquireConserves` | internal/execution/supervisor/supervisor.go:203-221 | acquiring keeps conservation and returns the worker then held |
| `Supervisor.TerminateConserves` | internal/execution/supervisor/supervisor.go:235-286 | terminating keeps conservation and holds no worker after |
| `Supervisor.WorkerSupervisor.AcquireWorker` | internal/execution/supervisor/supervisor.go:203-221 | reuses the held worker or boots one; a failed boot leaves none |
| `Supervisor.WorkerSupervisor.TerminateWorker` | internal/execution/supervisor/supervisor.go:235-286 | stops the held worker once and forgets it even if Stop fails, in which case it is cancelled at once |
| `Supervisor.WorkerSupervisor.Start` | internal/execution/supervisor/supervisor.go:133-145 | boots a persistent worker, does nothing for a transient one |
| `Supervisor.WorkerSupervisor.Send` | internal/execution/supervisor/supervisor.go:147-179 | acquires, sends, releases; a transient supervisor is left with a worker exactly if the adapter panicked, a persistent one keeps its own |
| `Supervisor.WorkerSupervisor.Suspend` | internal/execution/supervisor/supervisor.go:181-190 | releases, which a persistent supervisor ignores |
| `Supervisor.WorkerSupervisor.Shutdown` | internal/execution/supervisor/supervisor.go:192-201 | terminates in both modes |
| `SupervisorRuns.WorkersAreConserved` | internal/execution/supervisor/supervisor.go:133-299 | under every interleaving, panics included, starts minus stops is 1 if a worker is held and 0 otherwise; no adapter is stopped twice; between Sends a transient supervisor holds a worker exactly if a panicking Send left it and nothing released it since |
| `SupervisorRuns.TransientHoldsNoWorkerBetweenSends` | internal/execution/supervisor/supervisor.go:147-179 | without panics it holds none between Sends |
| `SupervisorRuns.PersistentHoldsWorkerIff` | internal/execution/supervisor/supervisor.go:133-221 | a persistent supervisor holds a worker exactly if Start or a Send booted one and nothing was shut down since |
| `SupervisorRuns.BootedIsStarted` | internal/execution/worker/worker.go:125-223 | the process of a booted worker is one whose Start has gone through its three steps |
| `StopWindow.GracefulStopWindow` | internal/execution/supervisor/supervisor.go:235-286 | a supervisor cancels a worker only after stopping it: at once if Stop failed, else through a release call whose timeout elapsed or whose wait is over; that wait gave the event of the ended process, or failed |
| `StopWindow.CancelBeforeEndIff` | internal/execution/supervisor/adapter.go:66-87 | a release call can cancel a worker whose process has not ended exactly if its timeout elapsed, its context ended or Wait had been called before |
| `StopWindow.SingleReleaseIsGraceful` | internal/execution/supervisor/supervisor.go:261-285 | with one call of the release function, a cancelled worker's process has ended, or the timeout or the caller's context has |
| `StopWindow.SecondReleaseCancelsEarly` | internal/execution/worker/worker.go:231-238 | in any reachable state a second call of a release function fails at once and cancels the worker the first still waits for |
| `StopWindow.EndedWorkerIsReleased` | internal/execution/supervisor/supervisor.go:261-285 | once the process has ended, a waiting release gets its event in three waiter steps, returns and cancels |
| `StopWindow.TimeoutEnablesCancel` | internal/execution/supervisor/supervisor.go:276-278 | once its stop timeout has elapsed a release call can cancel |
| `StopWindow.ShutdownLeadsToCancel` | internal/execution/supervisor/supervisor.go:235-286 | Shutdown stops the held worker and hands out a release function whose call cancels it after the timeout, whatever the process does; if Stop fails it is cancelled at once |
| `SupervisorRuns.PersistentReusesItsWorker` | internal/execution/supervisor/supervisor.go:207-228 | without Shutdown a persistent supervisor starts at most one worker |
| `DispatcherPool.PoolSize` | internal/execution/dispatcher/dispatcher_pooled.go:192-203 | the configured size, or the CPU count when it is not positive |
| `DispatcherPool.Dispose` | internal/execution/dispatcher/dispatcher_pooled.go:96-118 | ends the acquisition once: back to idle exactly if neither Send nor the release failed |
| `DispatcherPool.SendToSupervisor` | internal/execution/dispatcher/dispatcher_pooled.go:87-142 | a whole request with its disposal: ended once; back to idle exactly after data with a successful release or after a panic; a worker left in a transient supervisor exactly after a panic |
| `DispatcherPool.WorkersNeverExceedPoolSize` | internal/execution/dispatcher/dispatcher_pooled.go:68-204 | over a whole run, removed supervisors included, workers started minus workers stopped is the number of supervisors holding one, and at most the effective pool size, in both modes and with panics |
| `DispatcherPool.IdleSupervisorHoldsWorkerIff` | internal/execution/dispatcher/dispatcher_pooled.go:87-142 | in transient mode and every run, an idle supervisor holds a worker exactly if a panic of its Send has not since been followed by a reply of its own or its destructor |
| `DispatcherPool.IdleSupervisorsHoldNoWorker` | internal/execution/dispatcher/dispatcher_pooled.go:87-142 | so without panics no idle supervisor holds one, and a worker is held exactly while a Send is in progress |
| `DispatcherPool.PanicLeavesAWorkerIdleIff` | internal/execution/dispatcher/dispatcher_pooled.go:93-127 | however a Send in progress ends in whatever run, its disposal leaves an idle supervisor with a worker exactly if it panicked |
| `DispatcherPool.DestroyedSupervisorsLeakNoWorker` | internal/execution/dispatcher/dispatcher_pooled.go:176-190 | after the destructor every worker ever started by the supervisor has been stopped exactly once |
| `DispatcherPool.EveryAcquisitionEndsOnce` | internal/execution/dispatcher/dispatcher_pooled.go:87-127 | each acquisition is still held by one resource or was ended once, never both |
| `DispatcherPool.ReleasedIff` | internal/execution/dispatcher/dispatcher_pooled.go:93-118 | in every run an acquisition ends in idle exactly if its Send panicked, or answered and, in transient mode, the worker was stopped and waited for without error |
| `DispatcherPool.DisposalFollowsTheSend` | internal/execution/dispatcher/dispatcher_pooled.go:87-142 | told from the schedule: disposal puts a resource back exactly after a panic, or after a reply without error whose worker, if transient, was stopped and waited for; else it destroys it |
| `DispatcherPool.RequestIsServed` | internal/execution/dispatcher/dispatcher_pooled.go:68-142 | an undisturbed request on a new or an idle resource is answered and leaves it idle, with a worker exactly in persistent mode |
| `DispatcherPool.ClosedResourceIsRemoved` | internal/execution/dispatcher/dispatcher_pooled.go:176-190 | closing an idle resource stops the worker it may hold and takes it out of the pool |
| `DispatcherPool.ReleasedOnlyOnSuccess` | internal/execution/dispatcher/dispatcher_pooled.go:93-118 | so without panics exactly if Send and any release both succeeded |
| `CaseSearch.FirstMatchIsUnique` | runtime/handler.go:270-292 | the search has exactly one possible outcome |
| `CaseSearch.WarningsAreOrdered` | runtime/handler.go:280-282 | warnings are those of the visited cases, one per case, in increasing index order |
| `CaseSearch.CasesAreIndependent` | runtime/handler.go:294-360 | if no earlier evaluation panicked, a case is evaluated as if it were alone |
| `CaseSearch.CasesUntouchedIff` | runtime/handler.go:326-334 | the cases are as the client sent them exactly if every earlier panic hit a case already carrying its warning |
| `CaseRules.CaseRequestMerges` | runtime/handler.go:314-348 | every entry of the case's params object has its own value in the request, every other top-level one is kept; without such an object the params are the top-level ones; the answer is the case's and the rest of the body is unchanged |
| `CaseRules.SentForCase` | runtime/handler.go:294-360 | the same of the request the search sends for a case, whose params hold the cases as they are then |
| `CaseRules.WarningTexts` | runtime/handler.go:297-381 | the text of a case's warning, told from the case and the runtime's answer |
| `CaseRules.PanicIsMarked` | runtime/handler.go:326-334 | what a recovered panic writes into its case |
| `CaseRules.Evaluate` | runtime/handler.go:294-390 | a warning names its own case and means not correct; a recovered panic yields the empty result |
| `CaseRules.RequestValidIff` | runtime/schema/request-eval.json:4-18 | exactly the requests with a response and an answer that are not null, and params, if any, that are an object |
| `CaseRules.ResponsesThatPass` | runtime/schema/response-eval.json:4-63 | a result passes exactly with the eval command and a verdict, an error exactly with a message |
| `CaseRules.CaseRequestValidIff` | runtime/schema/request-eval.json:4-18 | a case's request passes the schema exactly if the case's answer is not null |
| `CaseRules.CorrectIffRuntimeSaysSo` | runtime/handler.go:360-389 | a case is correct exactly if a valid response to its own valid request said so, and then carries that response's feedback |
| `CaseRules.WarnsIff` | runtime/handler.go:294-381 | a case yields a warning exactly if the runtime gave no result for it and nothing panicked; only its own request is ever sent |
| `CaseRules.CorrectHasFeedback` | runtime/handler.go:296-312 | a correct case has an answer and a feedback, and the search left it unchanged |
| `CaseRules.RequestIsIndependentIff` | runtime/handler.go:314-348 | exactly when the request of a case is unaffected by earlier cases |
| `CaseRules.AddMatchMeans` | runtime/handler.go:174-191 | what each field of the result holds after a match, told from the case, and that no other changes |
| `CaseRules.CasesAreSearchedIff` | runtime/handler.go:166-172 | cases are searched exactly if the verdict is incorrect and params.cases is a non-empty list; otherwise the result stays and nothing is sent |
| `CaseRules.UnmatchedKeepsVerdict` | runtime/handler.go:163-194 | with no matching case only the warnings are added, of all cases in order, and each case was sent |
| `CaseRules.FirstMatchDecides` | runtime/handler.go:163-292 | end to end: the first correct case gives matched_case; its feedback, with the evaluation's appended exactly if its params hold override_eval_feedback true; correct exactly if its mark has integer part 1; the warnings and requests are those of the cases up to it; nothing else changes |
| `CaseHandler.RuntimeHandler.SendCommand` | runtime/handler.go:196-233 | validation before and after the runtime, which sees a request only if it passes; null passes both |
| `CaseHandler.RuntimeHandler.EvaluateCase` | runtime/handler.go:294-390 | result, requests sent and effect on the shared case maps |
| `CaseHandler.RuntimeHandler.FindFirstMatchingCase` | runtime/handler.go:270-292 | the least correct case is the only match; exactly the visited cases warn, are sent and may be marked; crashes exactly at a non-object case |
| `CaseHandler.RuntimeHandler.EnterMatch` | runtime/handler.go:245-254 | the matched case gets its index as id and, on request, the evaluation's feedback appended |
| `CaseHandler.RuntimeHandler.GetCaseFeedback` | runtime/handler.go:235-268 | the unique outcome of the search, with the matched case rewritten |
| `CaseHandler.RuntimeHandler.AddToResult` | runtime/handler.go:172-191 | the result map after warnings and match are written into it |
| `CaseHandler.RuntimeHandler.ProcessEval` | runtime/handler.go:163-194 | the result map and the requests sent are those `Processed` allows, of which there is one |
| `CaseHandler.RuntimeHandler.HandleEval` | runtime/handler.go:128-160 | rejected exactly if sending is; otherwise the runtime's response with only its result rewritten by ProcessEval |
| `Backoff.Wrap` | internal/execution/supervisor/adapter_rpc.go:200 | int64 wrap-around: in range, and congruent modulo 2^64 |
| `Backoff.DelayIsCappedExponential` | internal/execution/supervisor/adapter_rpc.go:199-203 | for any base and cap, the delay is min(base * 2^i, cap) as long as the product fits an int64 |
| `Backoff.DelayUpTo36` | internal/execution/supervisor/adapter_rpc.go:193-203 | for retries 0 to 36: min(base * 2^i, max), positive, nondecreasing |
| `Backoff.WaitedClosedForm` | internal/execution/supervisor/adapter_rpc.go:193-214 | total waiting is a geometric prefix plus a linear tail |
| `Backoff.DelayIsCappedIff` | internal/execution/supervisor/adapter_rpc.go:199-203 | the cap works exactly for retries up to 36 and 38, 44, 46 and 51 to 54; at every other up to 62 there is no wait at all |
| `Backoff.DelayBreaksAfter36` | internal/execution/supervisor/adapter_rpc.go:199-203 | at retry 37 the wait is negative |
| `Backoff.RpcAdapter.DialRpcWithRetry` | internal/execution/supervisor/adapter_rpc.go:187-220 | the client is that of the first attempt that connects before the context ends, and the waits are those of `Delay` |

## Where the code differs from its documentation

- The repository's README.md says `mark` 1 marks a case as correct; the code tests `int(mark) == 1`, so any mark in
  [1, 2) does (`MarksCorrect`).
- With `override_eval_feedback`, what is appended is the feedback of the matched case's own evaluation, not that of the
  original evaluation (`MatchEntry`).
- A valid response without a result is not turned into an error: runtime/handler.go:143-147 returns a nil error
  (`EmptyReply`).
- A panic recovered in EvaluateCase adds no warning to the result, but it marks the case inside `params["cases"]`, which
  later cases send (`RequestIsIndependentIff`).
- Wait "blocks until the process exits"; called before Start has registered the stderr reader, it may return a failure
  at once (`HastyWaitIsMisinformed`).
- The warning about several matches cannot occur, as the search stops at the first (`FirstMatch`).

## Left out

- Framed pipe: the stream is finite and its end is an EOF (`ReadFrameExtends` says why that loses nothing); lengths too
  large to allocate, non-ASCII white space around the length, bufio giving up after 100 empty reads, and Close.
- A negative Content-Length panics in `make`; the model reports it as an outcome of its own, with the stream as it is then.
- `PipeWriters.WritesAreAtomic`: stdio accepts every write completely, because a failed write may leave half a frame.
- WasmPool: one Start only. The wiring calls it twice (internal/execution/dispatcher.go:46 and runtime/runtime.go:89), and
  the second replaces the runtime and the channel (`Dispatcher.Start`); what then becomes of the first ones' instances
  and of requests on them is left out.
- WASM: request timeouts, closing the runtime under a running call, and logging; a call that is interrupted is a trap.
- WASM: globals and grown pages are not restored by the code, hence the conditions on the guest. JSON encoding of the
  envelope is an arbitrary pair of functions.
- `ProcessWorker.ExitEventIsHandedOverOnce`: the check and the close at the top of Wait are one step; two Waits that
  race there can close the channel twice.
- ProcessWorker: it is modelled on values, as a step system, because its state is channels shared by goroutines; which
  error Start returns, signals, stdin and stdout pipes, Pid and halt are left out, and so is a torn read of the stderr
  buffer when Wait is called during Start.
- Supervisor: an adapter whose Start failed is never cancelled by the code, and the model keeps it so; adapters
  themselves (file, RPC transports, temporary files, environment) are outcomes of steps.
- DispatcherPool: puddle is the set of resources with their states; it may also construct a resource while one is idle,
  which puddle does not. The dedicated dispatcher is left out.
- SupervisorRuns, DispatcherPool: of panics, those of an adapter's Send; a panic while booting or stopping is left out.
- StopWindow: the supervisor's own cancel only; the end of the context the supervisor was made with
  (internal/execution/supervisor/supervisor.go:98) cancels its workers as well. A transient supervisor has file adapters,
  whose Send waits for the process itself and whose release returns at once; that process is left out.
- `Backoff.DelayIsCappedIff`: retries above 62, where converting 2^i to int64 is up to the platform; what Go yields there
  is a parameter.
- `Backoff.RpcAdapter.DialRpcWithRetry`: some attempt must connect or the context must end, since the loop has no other
  exit; the error it logs is left out.
- Case matching: only the eval command, from the parsed body on; HTTP, the command header, preview and health checks
  are left out. JSON text encoding is inverse to decoding, and the schemas are predicates.
- HTTP, Lambda, CLI, configuration and logging, and runtime/mued.go: glue or single-branch facts.
