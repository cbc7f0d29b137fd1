# TensorDE models

Dafny models of the algorithmic and protocol cores of the TensorDE desktop environment, with proofs of
what they are for. Each core is a module or a small group of modules; no module depends on a library.

| core | modules |
|---|---|
| connected components of a particle mask | `PixelGrid`, `RowRuns`, `DisjointSets`, `ComponentSweep` |
| LZ4 block decoder | `Lz4Block` |
| greetd client stack of the greeter | `GreetdFrames`, `GreetdClient`, `GreetdProgress`, `GreeterModel`, `GreeterPhases`, `GreeterTransaction`, `GreeterLogin`, `GreeterStack` |
| idle notifications | `IdleEvents`, `IdleWorld`, `IdleRuntime` |
| launcher search, catalog, session and Exec decoding | `LauncherScore`, `LauncherQuery`, `LauncherCatalog`, `LauncherSession`, `DesktopExec`, `ExecGrammar` |
| shell configuration store | `ConfigReload` |
| Tensor Files event loop | `DndTransfers`, `ImeQueue`, `ImeWindow` |
| media display of the shell | `MediaOsd`, `MediaOsdHistory`, `MediaOsdScene` |
| shared | `Sorting`, `Utf8`, `Basics` |

Code that changes state in place is a class or a loop, proved against a function on values; the
whole-run results are about those functions. The network, the compositor, clocks, the file system and
JSON, KDL or desktop-file values that cannot be seen here are parameters: an arbitrary parser, an
arbitrary server, an arbitrary success or failure.

Where the code does not do what one might expect, the model follows the code:

- A start-session request may be repeated after an Error answer, and a cancel that the server refuses
  leaves the attempt standing; `GreeterTransaction.LastAnswerIsTheSuccess` and
  `GreeterTransaction.CancelsBetweenWereRefused` say exactly when these happen.
- A batch of idle events is emitted with all resumes before all idles; see
  `IdleEvents.EmittedOrderIsEventOrder` for exactly when that is still the order of the events.
- An argument with the text `%F`, `%U` or `%i` cannot be written in an Exec key, even with doubled percent
  signs.
- From 92 characters on, a fuzzy match can outscore a substring match.
- A drop that finds no record is discarded at the next Leave; `DndTransfers.KnownExactly` and
  `DndTransfers.DiscardedExactly` say when, in terms of the events.
- Overwriting a pending input-method state loses it even when the new state is refused at execution.
- A media scene updated in place keeps the layout of its old extent after a resize; only a change of
  anything but the position rebuilds it.

`dafny verify dfyconfig.toml` checks the project.

## Model

| member | source | states |
|---|---|---|
| `ComponentSweep.ConnectedComponentAreas` | scripts/tensor-wallpaper/analyze_particle_frame_sequence.py:110-136 | for every grid the returned list holds the size of each 8-connected component exactly once; connectivity is defined by paths of set pixels, independently of runs and labels |
| `PixelGrid.ComponentAreasSumToPixels` | scripts/tensor-wallpaper/analyze_particle_frame_sequence.py:110-136 | such a list always sums to the number of set pixels |
| `PixelGrid.ComponentAreasAreUnique` | scripts/tensor-wallpaper/analyze_particle_frame_sequence.py:110-136 | two such lists for one grid are permutations of each other, so the specification determines the answer as a multiset |
| `RowRuns.RunsOfRow` | scripts/tensor-wallpaper/analyze_particle_frame_sequence.py:116-122 | the rising and falling edges of the padded row, zipped, are exactly its maximal runs: covering the set columns, separated by at least one clear column |
| `ComponentSweep.SkippedRunsDoNotTouch` | scripts/tensor-wallpaper/analyze_particle_frame_sequence.py:128-133 | the monotone previous_index skip and the overlap bound never pass by a run of the row above that touches the current one |
| `ComponentSweep.SkipRuns` | scripts/tensor-wallpaper/analyze_particle_frame_sequence.py:128-129 | the skip loop stops at the first run that does not end too far left, having skipped only runs that do |
| `ComponentSweep.MergeStep` | scripts/tensor-wallpaper/analyze_particle_frame_sequence.py:131-133 | one union with a touching run keeps: equal labels mean connected, stored areas are class sizes, earlier sharing is kept, and one more run above shares the current class |
| `ComponentSweep.MergeOverlaps` | scripts/tensor-wallpaper/analyze_particle_frame_sequence.py:130-133 | after the overlap loop every run above that starts no further than end + 1 shares the class of the current run |
| `ComponentSweep.RunClosed` | scripts/tensor-wallpaper/analyze_particle_frame_sequence.py:122-134 | after a run is merged, any two adjacent swept pixels carry the same class again |
| `ComponentSweep.AttachRun` | scripts/tensor-wallpaper/analyze_particle_frame_sequence.py:123-134 | one run step keeps all sweep invariants and adds exactly the pixels of the run |
| `ComponentSweep.SweepRow` | scripts/tensor-wallpaper/analyze_particle_frame_sequence.py:115-135 | one row step keeps all sweep invariants and leaves the runs of that row as the next previous list |
| `ComponentSweep.ClassesAreComponents` | scripts/tensor-wallpaper/analyze_particle_frame_sequence.py:136 | the areas at self-parented labels of a finished sweep are exactly the component areas |
| `DisjointSets.HalvingKeepsRoots` | scripts/tensor-wallpaper/analyze_particle_frame_sequence.py:140-142 | one path-halving write changes no root of any element and moves strictly towards larger areas |
| `DisjointSets.LinkingMergesClasses` | scripts/tensor-wallpaper/analyze_particle_frame_sequence.py:151-154 | linking the lighter root below the heavier one merges exactly these two classes and adds their areas |
| `DisjointSets.Forest.Find` | scripts/tensor-wallpaper/analyze_particle_frame_sequence.py:139-143 | find terminates, returns the root of the element and changes no root |
| `DisjointSets.Forest.Union` | scripts/tensor-wallpaper/analyze_particle_frame_sequence.py:146-155 | union merges exactly the two classes, returns the surviving root, adds the areas there, and touches nothing else |
| `DisjointSets.Forest.Add` | scripts/tensor-wallpaper/analyze_particle_frame_sequence.py:125-127 | a new label is a singleton class with its own area |
| `DisjointSets.Forest.RootAreas` | scripts/tensor-wallpaper/analyze_particle_frame_sequence.py:136 | the result lists the area of every self-parented label, in label order |
| `Lz4Block.DecodeInvertsSerialize` | scripts/tensor-wallpaper/we_mdl_clipping_records.py:202-238 | decoding the serialization of any valid list of sequences with trailing literals yields its expansion, for all length extensions and overlapping matches |
| `Lz4Block.DecodesExactlySerializedBlocks` | scripts/tensor-wallpaper/we_mdl_clipping_records.py:202-238 | the decoder accepts a payload with a result if and only if the payload is the serialization of a valid block expanding to that result, of the declared size |
| `Lz4Block.LengthReadsBack` | scripts/tensor-wallpaper/we_mdl_clipping_records.py:208-215 | a nibble with its 255-extended length bytes reads back as the length that was written |
| `Lz4Block.LengthIsCanonical` | scripts/tensor-wallpaper/we_mdl_clipping_records.py:223-229 | conversely, whatever length is read is the one those bytes serialize |
| `Lz4Block.CopyMatch` | scripts/tensor-wallpaper/we_mdl_clipping_records.py:231-235 | copying byte by byte, reading bytes just written, continues the last offset bytes periodically |
| `Lz4Block.ReadLengthAt` | scripts/tensor-wallpaper/we_mdl_clipping_records.py:209-215 | the extension loop reads the length and position that the specification reads, or fails at the end of the payload |
| `Lz4Block.ReadSequenceAt` | scripts/tensor-wallpaper/we_mdl_clipping_records.py:206-219 | one token step agrees with the specification, including literals cut short by the end of the payload |
| `Lz4Block.ReadMatchAt` | scripts/tensor-wallpaper/we_mdl_clipping_records.py:220-235 | one match step agrees with the specification, including offsets that are zero or too large |
| `Lz4Block.DecodeBlock` | scripts/tensor-wallpaper/we_mdl_clipping_records.py:202-238 | the decoding loop computes the specification for every payload and declared size, malformed ones included |
| `GreetdFrames.FragmentationInvariance` | apps/tensor-greeter/src/protocol.rs:101-132 | for every decodable byte stream and every chunking, pushing the chunks gives the messages and leftover of draining the stream at once exactly when every push meets the buffer bound, and otherwise the bound error |
| `GreetdFrames.FramesSurviveFragmentation` | apps/tensor-greeter/src/protocol.rs:76-132 | for any payload list within the limit and any chunking within the buffer bound, decoding the framed stream gives back exactly the payloads in order |
| `GreetdFrames.DrainFrames` | apps/tensor-greeter/src/protocol.rs:76-89 | draining concatenated frames followed by an incomplete one yields the payloads and leaves the incomplete one |
| `GreetdFrames.DrainSplits` | apps/tensor-greeter/src/protocol.rs:109-131 | draining a stream is draining a prefix and then the leftover with the rest |
| `GreetdFrames.DrainLeavesNoFrame` | apps/tensor-greeter/src/protocol.rs:111-131 | what stays in the buffer never holds a complete frame |
| `GreetdFrames.ProperPrefixIncomplete` | apps/tensor-greeter/src/protocol.rs:123-126 | a proper prefix of a frame decodes to nothing and is kept whole |
| `GreetdFrames.ShortStreamsFit` | apps/tensor-greeter/src/protocol.rs:105-108 | streams of at most one maximal frame meet the buffer bound under every chunking |
| `GreetdFrames.EncodesExactly` | apps/tensor-greeter/src/protocol.rs:76-89 | a request of at most 65536 bytes is encoded as its length in four bytes, the lowest first, followed by the payload; a longer one is refused with its length |
| `GreetdFrames.HeardFrames` | apps/tensor-greeter/src/protocol.rs:76-132 | frames written one after the other are decoded at the other end to exactly their payloads |
| `GreetdFrames.EveryStreamStops` | apps/tensor-greeter/src/protocol.rs:109-131 | every stream is frames that parse followed by the start of a frame, a length over the limit, or a frame that does not parse |
| `GreetdFrames.DrainExactly` | apps/tensor-greeter/src/protocol.rs:109-131 | what draining returns and keeps in each of these three cases |
| `GreetdFrames.FrameDecoder.PushBytes` | apps/tensor-greeter/src/protocol.rs:101-132 | the push loop computes the specification, with its three error paths and what each leaves in the buffer |
| `GreetdClient.ExchangesReturnTheirOwnAnswers` | apps/tensor-greeter/src/client.rs:92-157 | over every run against a server that answers each frame with one well-formed frame of at most 64 KiB, its content any function of the payloads heard so far, under every split into reads, cancellation and I/O error: a successful exchange returns the answer to its own frame and neither limit is ever hit |
| `GreetdClient.NothingSucceedsAfterInterruption` | apps/tensor-greeter/src/client.rs:92-102 | once an exchange is dropped at any await, or fails after encoding, every later call is refused and nothing is written again, against any server |
| `GreetdClient.BrokenForever` | apps/tensor-greeter/src/client.rs:159-168 | from a broken state nothing is answered, written or suspended again |
| `GreetdClient.InterruptionBreaks` | apps/tensor-greeter/src/client.rs:95-100 | dropping the future or failing leaves the client broken |
| `GreetdClient.StepKeepsHonest` | apps/tensor-greeter/src/client.rs:104-157 | every step keeps the invariant that ties buffered and inbound bytes to the one outstanding answer |
| `GreetdClient.ReceiveDecodes` | apps/tensor-greeter/src/client.rs:144-155 | under that invariant a read decodes to the outstanding answer or to nothing |
| `GreetdClient.ConnectedIsHonest` | apps/tensor-greeter/src/client.rs:47-58 | a fresh connection satisfies the invariant |
| `GreetdClient.Connection.EnsureUsable` | apps/tensor-greeter/src/client.rs:159-168 | an interrupted exchange is reported once as such and marks the connection failed; a failed connection is refused |
| `GreetdClient.Connection.Exchange` | apps/tensor-greeter/src/client.rs:92-118 | the code up to the first await is the Call step of the state machine, the frame it writes included |
| `GreetdClient.Connection.WriteFinished` | apps/tensor-greeter/src/client.rs:119-126 | resuming after a write is the WriteDone step |
| `GreetdClient.Connection.NextResponse` | apps/tensor-greeter/src/client.rs:128-142 | the head of the loop answers from the pending queue or starts a read |
| `GreetdClient.Connection.ReadFinished` | apps/tensor-greeter/src/client.rs:141-155 | resuming after a read is the ReadDone step, with end of file, decode errors and the pending limit |
| `GreetdClient.Connection.ReadBroke` | apps/tensor-greeter/src/client.rs:141-143 | a read error fails the exchange |
| `GreetdClient.Connection.Dropped` | apps/tensor-greeter/src/client.rs:92-102 | dropping the future leaves every field as it was at the await |
| `GreetdProgress.FramesCarryTheirCalls` | apps/tensor-greeter/src/client.rs:92-118 | in every run, against any server: exactly the accepted calls write a frame, in order, the server hears exactly their payloads, and the k-th frame decodes to the payload of the call that wrote it |
| `GreetdProgress.AnswersBelongToTheirCalls` | apps/tensor-greeter/src/client.rs:92-157 | an answer returned for the k-th accepted call is the reply of the server to the payloads of the first k + 1 accepted calls |
| `GreetdProgress.ExchangeCompletes` | apps/tensor-greeter/src/client.rs:92-157 | from every state ready for a call: a payload within the limit, a finished write and the reply in reads of any sizes complete the exchange with its answer, and the client is ready again |
| `GreetdProgress.FailuresExactly` | apps/tensor-greeter/src/client.rs:119-157 | a broken write or read, the end of the stream and a decoder error are each reported as such |
| `GreetdProgress.BatchIsReceived` | apps/tensor-greeter/src/client.rs:144-155 | a read of several responses: up to eight are kept, the first returned and the others waiting in order, and more than eight fail the connection |
| `GreetdProgress.PendingAnswersNextCall` | apps/tensor-greeter/src/client.rs:128-131 | a waiting response answers the next call without a read |
| `GreeterTransaction.StartsOnlyAuthorizedSessions` | apps/tensor-greeter/src/transaction.rs:39-132 | over every run of steps and selections against any server, a start-session request for an attempt is sent only if the attempt was issued, its last authentication answer was Success, no failure and no cancel answered Success came between, no session was started yet, and user and session are those selected when it began |
| `GreeterTransaction.TakeSafe` | apps/tensor-greeter/src/transaction.rs:39-92 | every single step keeps that property together with the invariant behind it |
| `GreeterTransaction.LastAnswerIsTheSuccess` | apps/tensor-greeter/src/transaction.rs:55-76 | that Success is the last answer about the attempt if and only if no earlier start of it was answered since |
| `GreeterTransaction.CancelsBetweenWereRefused` | apps/tensor-greeter/src/transaction.rs:78-92 | a cancel requested between the begin and the start was answered, and not with Success; there was none at all exactly when no cancel was answered |
| `GreeterTransaction.RefusedRequestsDoNotEndAnAttempt` | apps/tensor-greeter/src/transaction.rs:55-92 | two runs in which a start follows a refused cancel, and a start that was answered with an error |
| `GreeterTransaction.SuccessAnswersLastRequest` | apps/tensor-greeter/src/transaction.rs:39-76 | the Success that authorizes a start answers the last authentication request of the attempt |
| `GreeterTransaction.RunPaired` | apps/tensor-greeter/src/transaction.rs:39-92 | in every run an answer stands right behind its request, and a request without one is the last ever written |
| `GreeterStack.SessionsAreAuthorizedByTheirOwnAnswer` | apps/tensor-greeter/src/transaction.rs:39-132 | over every run of transaction and client together, at the level of bytes, reads and dropped futures: when a session is started the server has heard the user of that attempt, has replied Success to its own last authentication request, and then hears the command and environment of the session selected when it began |
| `GreeterStack.RunJoined` | apps/tensor-greeter/src/client.rs:92-168 | in every joint run both layers agree on whether the connection is usable, on every answer, and on what every written frame asks for |
| `GreeterStack.CallRuns` | apps/tensor-greeter/src/client.rs:92-157 | one call ends refused without a frame, dropped, failed, or answered with the number of the frame it wrote, which carries its payload |
| `GreeterStack.OperationCompletes` | apps/tensor-greeter/src/transaction.rs:39-92 | on a usable connection an operation the model lets through writes exactly its request, and the reply in reads of any sizes takes the transaction where that answer leads |
| `GreeterStack.AsksExactly` | apps/tensor-greeter/src/transaction.rs:39-92 | the request is for the selected user, with the response given, for the selected session, or to cancel |
| `GreeterTransaction.AttemptIdsAreDistinct` | apps/tensor-greeter/src/model.rs:169-180 | attempt ids are never zero, and two attempts share an id exactly when a whole number of turns of the 64-bit counter lies between them |
| `GreeterTransaction.RunNumbered` | apps/tensor-greeter/src/model.rs:169-180 | in every run the attempts carry the counter values in the order they began |
| `GreeterTransaction.IdIsRemainder` | apps/tensor-greeter/src/model.rs:175-178 | the n-th attempt has id n mod (2^64 - 1), plus one: wrap-around skips zero |
| `GreeterTransaction.Transaction.BeginAttempt` | apps/tensor-greeter/src/transaction.rs:39-43 | begin_authentication is the Begin step, whatever the exchange does |
| `GreeterTransaction.Transaction.Reply` | apps/tensor-greeter/src/transaction.rs:45-53 | respond is the Respond step |
| `GreeterTransaction.Transaction.Launch` | apps/tensor-greeter/src/transaction.rs:55-76 | start_session is the Start step |
| `GreeterTransaction.Transaction.Abandon` | apps/tensor-greeter/src/transaction.rs:78-92 | cancel is the Cancel step: the model is reset only on Success |
| `GreeterTransaction.Transaction.Apply` | apps/tensor-greeter/src/transaction.rs:94-132 | apply_response moves the model by the kind of answer and keeps it valid |
| `GreeterTransaction.Drive` | apps/tensor-greeter/src/transaction.rs:39-132 | every run of the object satisfies both whole-run properties |
| `GreeterLogin.QuestionsTakeTheirResponse` | apps/tensor-greeter/src/transaction.rs:45-53 | in every run that holds a prompt, it is the last question of the server about its attempt, and on a usable connection a response is written if and only if it names that attempt and has text exactly when the question is visible or secret; any other response changes nothing |
| `GreeterLogin.NoResponseUnasked` | apps/tensor-greeter/src/model.rs:202-222 | outside a prompt no response is written |
| `GreeterLogin.LoginRuns` | apps/tensor-greeter/src/transaction.rs:39-132 | from every state in which selections may change, for every user, session and sequence of questions that fit: choosing, beginning, answering each question and starting brings up the session, with exactly these requests and answers on the wire |
| `GreeterLogin.LoginRunsAfterCancel` | apps/tensor-greeter/src/transaction.rs:39-132 | the same from every state at all, after a cancel that was answered Success |
| `GreeterLogin.PasswordLogin` | apps/tensor-greeter/src/transaction.rs:39-132 | the run begin, secret prompt, response, Success, start, with its whole log |
| `GreeterLogin.AttemptRuns` | apps/tensor-greeter/src/transaction.rs:94-132 | whatever the last answer is, the phase shows it: authenticated, the prompt with its kind and text, or the failure with its text, prefixed for errors that are not of authentication |
| `GreeterLogin.RejectionRuns` | apps/tensor-greeter/src/transaction.rs:119-131 | a rejected attempt shows the words of the server and starts nothing |
| `GreeterModel.GreeterState.Create` | apps/tensor-greeter/src/model.rs:100-125 | the exact error outside the bounds on users, sessions and message size, in the order checked; otherwise a model of exactly these users and sessions, idle, with attempt one |
| `GreeterModel.GreeterState.SetUser` | apps/tensor-greeter/src/model.rs:151-158 | select_user, with its two refusals |
| `GreeterModel.GreeterState.SetSession` | apps/tensor-greeter/src/model.rs:160-167 | select_session, with its two refusals |
| `GreeterModel.GreeterState.Begin` | apps/tensor-greeter/src/model.rs:169-180 | begin_authentication issues the next id and waits for it |
| `GreeterModel.GreeterState.AcceptPrompt` | apps/tensor-greeter/src/model.rs:182-200 | receive_prompt: stale attempts and oversized messages change nothing |
| `GreeterModel.GreeterState.SentResponse` | apps/tensor-greeter/src/model.rs:202-222 | response_sent: only for the prompt of this attempt, and only with the response the prompt kind needs |
| `GreeterModel.GreeterState.Succeeded` | apps/tensor-greeter/src/model.rs:224-231 | authentication_succeeded for the waiting attempt only |
| `GreeterModel.GreeterState.Rejected` | apps/tensor-greeter/src/model.rs:233-243 | authentication_failed for the waiting attempt only |
| `GreeterModel.GreeterState.SessionToStart` | apps/tensor-greeter/src/model.rs:245-258 | start_session yields the selected session exactly in the authenticated phase of that attempt |
| `GreeterModel.GreeterState.Started` | apps/tensor-greeter/src/model.rs:260-269 | session_started leaves the authenticated phase |
| `GreeterModel.GreeterState.Cancel` | apps/tensor-greeter/src/model.rs:271-273 | cancel returns to idle |
| `GreeterPhases.OriginOfAttempt` | apps/tensor-greeter/src/model.rs:169-273 | over every sequence of operations: an attempt under way was issued by a Begin with the present selections and nothing since cancelled or failed it; it is authenticated only by its own success and started only by its own launch after that |
| `GreeterPhases.OperationsExactly` | apps/tensor-greeter/src/model.rs:151-273 | a transition table independent of the operations: which phase takes which operation, where it leads, and that nothing else changes |
| `GreeterPhases.RefusalsExactly` | apps/tensor-greeter/src/model.rs:151-297 | which refusal is given when |
| `GreeterModel.Utf8LengthOfRun` | apps/tensor-greeter/src/model.rs:188-193 | the length of a message counts UTF-8 bytes, one to four a character |
| `GreeterPhases.SelectionsAreFrozen` | apps/tensor-greeter/src/model.rs:151-167 | through any operations without a cancel and without a failure of the attempt, it stays under way with user and session frozen |
| `GreeterPhases.StartedUntilCancelled` | apps/tensor-greeter/src/model.rs:260-273 | a started session is left only by a cancel |
| `GreeterPhases.PromptsAreBounded` | apps/tensor-greeter/src/model.rs:182-200 | no retained prompt ever exceeds the byte limit |
| `GreeterPhases.StaleOperationChangesNothing` | apps/tensor-greeter/src/model.rs:282-297 | an operation naming another attempt changes nothing and errs |
| `IdleWorld.RunSound` | apps/tensor-idle/src/runtime.rs:71-106 | over every run of reconfigurations, rebases and event batches with a monotone clock, creation, power registration and flush failing in any pattern: every handle ever created is live or was destroyed exactly once, the live ones are the disjoint union of both binding sets, main handles carry the timeout of their stage, and post-lock handles fire at the deadline fixed when the lock completed |
| `IdleWorld.NoHandleOutlivesTheSession` | apps/tensor-idle/src/runtime.rs:30-153 | from connecting to dropping, whatever fails in between, in the end every handle ever created has been destroyed, exactly once |
| `IdleWorld.DeadlineDoesNotDrift` | apps/tensor-idle/src/runtime.rs:71-95 | through any chain of reconfigurations with the same delay and any batches after a lock: until a Lock resume exactly one handle stands, with lock time + delay <= registration time + timeout < lock time + delay + 1 ms, or timeout zero if the deadline had passed when it was set |
| `IdleWorld.LockSetsDeadline` | apps/tensor-idle/src/runtime.rs:99-106 | a completed lock registers that one handle |
| `IdleWorld.ReconfiguredSound` | apps/tensor-idle/src/runtime.rs:71-95 | a failure before the final flush leaves bindings, lock time and live handles as they were; otherwise every old handle is gone and exactly the stages of the plan are registered |
| `IdleWorld.RebasedSound` | apps/tensor-idle/src/runtime.rs:99-106 | a failed registration leaves the lock intact; otherwise it starts now with its handle registered, and the main bindings stay |
| `IdleWorld.EmittedSound` | apps/tensor-idle/src/runtime.rs:329-350 | a batch moves bindings only; a Lock resume ends the lock and destroys its handles |
| `IdleWorld.ConnectedSound` | apps/tensor-idle/src/runtime.rs:30-53 | a connection registers the stages of the plan, or fails and leaves no handle |
| `IdleWorld.ConnectedExactly` | apps/tensor-idle/src/runtime.rs:30-53 | connecting creates exactly one handle for every stage, now, with its timeout, and with inhibitors if and only if the plan respects them; it fails with a missing protocol exactly if the plan asks for a notification whose kind the compositor lacks, and for its other reasons exactly when they arise |
| `IdleWorld.ReconfiguredExactly` | apps/tensor-idle/src/runtime.rs:71-95 | so does a reconfiguration, the post-lock handle included; unless it succeeds or only the last flush fails, both sets stay |
| `IdleWorld.RebasedExactly` | apps/tensor-idle/src/runtime.rs:99-106 | so does a completed lock for its one handle |
| `IdleWorld.RegisterExactly` | apps/tensor-idle/src/runtime.rs:182-207 | registration fails with a missing protocol exactly when something is asked for and the global for the kind asked for is absent |
| `IdleWorld.RegisterAllExactly` | apps/tensor-idle/src/runtime.rs:209-226 | it succeeds exactly if every creation does, and otherwise names the first stage that failed |
| `IdleWorld.RegisterAllGrows` | apps/tensor-idle/src/runtime.rs:209-226 | registration creates fresh handles only, or leaves none |
| `IdleWorld.RegisterAllFollows` | apps/tensor-idle/src/runtime.rs:209-226 | a successful registration has one handle for every stage, in order, with its timeout |
| `IdleWorld.RegisteredPostLock` | apps/tensor-idle/src/runtime.rs:285-314 | a post-lock registration has exactly one handle if the plan asks for it, and that one is on time |
| `IdleEvents.RemainingIsWithinDeadline` | apps/tensor-idle/src/runtime.rs:299-311 | the truncated, capped remaining time meets the deadline within a millisecond |
| `IdleRuntime.Drive` | apps/tensor-idle/src/runtime.rs:71-106 | the object follows the run on values, command by command, including the emitted transitions |
| `IdleRuntime.Session` | apps/tensor-idle/src/runtime.rs:30-153 | connecting, driving and dropping leaves the compositor in the state of the session on values |
| `IdleRuntime.Runtime.Connect` | apps/tensor-idle/src/runtime.rs:30-53 | connect, with its three failures and their rollback |
| `IdleRuntime.Runtime.Reconfigure` | apps/tensor-idle/src/runtime.rs:71-95 | reconfigure, with its failures and their rollback |
| `IdleRuntime.Runtime.Rebase` | apps/tensor-idle/src/runtime.rs:99-106 | rebase_post_lock_monitor, with its failures |
| `IdleRuntime.Runtime.ApplyEvents` | apps/tensor-idle/src/runtime.rs:329-350 | apply_idle_event_batch: bindings, transitions, and the end of the lock on a Lock resume |
| `IdleRuntime.Runtime.Drop` | apps/tensor-idle/src/runtime.rs:146-153 | dropping destroys the handles of both sets |
| `IdleRuntime.RegisterStages` | apps/tensor-idle/src/runtime.rs:182-227 | the registration loop computes registration on values, rollback included; which kind and timeout every handle has is said by IdleWorld.ConnectedExactly and the two rows behind it |
| `IdleRuntime.Unregister` | apps/tensor-idle/src/runtime.rs:254-258 | exactly the handles of the set are destroyed |
| `IdleRuntime.ApplyBatch` | apps/tensor-idle/src/runtime.rs:229-252 | the loop updates the bindings and appends the edges of the batch as the specification does |
| `IdleRuntime.EmitBatch` | apps/tensor-idle/src/runtime.rs:329-350 | what is appended is a sorted permutation of the edges of both monitors, or of the main one alone after a Lock resume |
| `IdleEvents.EdgesAreTheFlips` | apps/tensor-idle/src/runtime.rs:235-248 | the emitted edges are, in order and without omission, the events of known notifications that differ from the last flag reported for them |
| `IdleEvents.BindingsEndAtLastEvent` | apps/tensor-idle/src/runtime.rs:229-252 | after a batch every binding is in the state of its last event, or unchanged without one |
| `IdleEvents.EdgesAlternate` | apps/tensor-idle/src/runtime.rs:229-252 | per notification the edges alternate, starting from the opposite of its state |
| `IdleEvents.BatchesCompose` | apps/tensor-idle/src/runtime.rs:229-252 | edges and states of consecutive batches are those of one long batch, so alternation holds across batches |
| `IdleEvents.ResumesComeFirst` | apps/tensor-idle/src/runtime.rs:249-251 | the batch order permutes the transitions of each stage and puts every resume before every idle |
| `IdleEvents.SortingIsPolicyOrder` | apps/tensor-idle/src/runtime.rs:249-251 | emitted transitions are ordered by resumes first, then shorter deadline, then monitor off before lock before suspend, and are a permutation of the edges |
| `IdleEvents.EmittedOrderIsEventOrder` | apps/tensor-idle/src/runtime.rs:229-252 | for a notification whose stage no other one has, both monitor sets being sorted together, the emitted order is the event order if and only if it flipped at most once in the batch, or twice starting from idle |
| `IdleEvents.LastEmittedFlag` | apps/tensor-idle/src/runtime.rs:229-252 | the last transition emitted for it shows where it ended if and only if it flipped once or ended idle |
| `IdleEvents.DoubleFlipIsReordered` | apps/tensor-idle/src/runtime.rs:249-251 | a concrete batch in which the emitted order contradicts the event order |
| `LauncherQuery.Query` | apps/tensor-launcher/src/query.rs:18-41 | for every catalog and query: the results are matches, each entry at most once, as many as fit into min(limit, 64), in order of score from high to low, then of name and id in byte order; a match is left out only when the list is full, and then none that is kept comes after it in that order; with distinct ids it is exactly sort-then-take |
| `LauncherQuery.BestAnswers` | apps/tensor-launcher/src/query.rs:18-41 | sort-then-take meets that same entry-by-entry description |
| `LauncherQuery.AnswerMeans` | apps/tensor-launcher/src/query.rs:18-41 | so does the incremental answer, ids repeated or not |
| `LauncherQuery.EmptyQueryListsCatalog` | apps/tensor-launcher/src/query.rs:18-41 | an empty query answers with a sorted catalog itself, from its first entry on |
| `LauncherQuery.NoLaterMeans` | apps/tensor-launcher/src/query.rs:108-118 | the comparison puts a result first exactly by higher score, then by earlier name, then by earlier id |
| `LauncherQuery.TextLeqMeans` | apps/tensor-launcher/src/query.rs:108-118 | text is compared by the first differing character, a proper prefix first |
| `LauncherQuery.AnswerIsTopRanked` | apps/tensor-launcher/src/query.rs:93-106 | whatever equal element the binary search finds, repeated ids included, inserting and cutting keeps the top-ranked matches |
| `LauncherQuery.AnswerIsBest` | apps/tensor-launcher/src/query.rs:93-106 | with distinct ids incremental bounded insertion is sort-then-take |
| `LauncherQuery.InsertKeepsTop` | apps/tensor-launcher/src/query.rs:101-105 | one insertion at any fitting position, cut at the limit, keeps the top-ranked matches |
| `LauncherQuery.BoundedInsert` | apps/tensor-launcher/src/query.rs:101-105 | cutting after each insertion loses nothing: it commutes with inserting into the full list |
| `LauncherQuery.RankingIsTotalOrder` | apps/tensor-launcher/src/query.rs:108-118 | the comparison, completed by the index, is a total order |
| `LauncherQuery.DistinctIdsCompare` | apps/tensor-launcher/src/query.rs:108-118 | with distinct ids the comparison alone never ties |
| `LauncherScore.ScoreExactly` | apps/tensor-launcher/src/query.rs:44-58 | 10000 for the name itself, 5000 for a prefix of it, 3000 for the beginning of one of its words, 1500 anywhere in it, 750 anywhere in the search text, else the fuzzy score, with words and occurrences given by positions |
| `LauncherScore.WordPrefixMeans` | apps/tensor-launcher/src/query.rs:60-63 | some word begins with the query exactly if the query stands behind a separator or at the start, and holds no separator itself |
| `LauncherScore.SeparatorsExactly` | apps/tensor-launcher/src/query.rs:60-63 | the separators of words, character by character |
| `LauncherScore.ContainsMeans` | apps/tensor-launcher/src/query.rs:44-58 | containment is an occurrence at some position |
| `LauncherScore.FuzzyScoreExactly` | apps/tensor-launcher/src/query.rs:65-91 | a non-zero fuzzy score is 100 plus eight per query character less the distance from first to last match, at most 80 of it and not below 100, each character being matched at its first occurrence behind the one before |
| `LauncherScore.FuzzyFindsSubsequences` | apps/tensor-launcher/src/query.rs:65-91 | for queries of three characters or more the fuzzy score is non-zero exactly when the query is a subsequence of the text |
| `LauncherScore.FuzzyBounds` | apps/tensor-launcher/src/query.rs:73-90 | a fuzzy match scores at least 100 and at most 100 plus eight per query character, less the shortest possible span up to 80 |
| `LauncherScore.StrongerClassScoresHigher` | apps/tensor-launcher/src/query.rs:44-58 | for queries of at most 91 characters every stronger match class scores above every weaker one |
| `LauncherScore.LongerQueriesInvert` | apps/tensor-launcher/src/query.rs:44-91 | at every query length from 92 on, of two entries with a one-letter name and one keyword the fuzzy match outscores the substring match |
| `LauncherScore.ScoreSubsequence` | apps/tensor-launcher/src/query.rs:65-91 | the greedy loop in 32-bit arithmetic computes the specified score for every query whose best score fits 32 bits |
| `LauncherCatalog.Discover` | apps/tensor-launcher/src/catalog.rs:71-131 | for every list of application directories the catalog holds exactly the entries of the first file of each id, so that a hidden or broken first file masks later ones; ids are distinct, the order is by name and id, and discovery is refused exactly when there are more distinct ids than allowed |
| `LauncherCatalog.FromEntries` | apps/tensor-launcher/src/catalog.rs:133-143 | the same entries sorted by name and id, equal ones in their original order |
| `LauncherSession.Drive` | apps/tensor-launcher/src/session.rs:29-203 | after any sequence of edits, catalog swaps and selection moves the session is where the run on values is, and its results are a fresh answer as LauncherQuery.Query describes it |
| `LauncherSession.StepCoherent` | apps/tensor-launcher/src/session.rs:83-203 | every action keeps well-formed text with the cursor on a UTF-8 boundary, a valid preedit and the selection in range of the fresh answer |
| `LauncherSession.Run` | apps/tensor-launcher/src/session.rs:83-203 | so does every sequence of actions |
| `LauncherSession.BackspaceSucceeds` | apps/tensor-launcher/src/session.rs:97-103 | backspace is never refused |
| `LauncherSession.SelectionMoves` | apps/tensor-launcher/src/session.rs:118-138 | any sequence of moves forward and back selects the result their difference says, cyclically, and changes nothing else |
| `LauncherSession.EditsExactly` | apps/tensor-launcher/src/session.rs:159-197 | an edit is accepted exactly if it deletes whole characters around the cursor, brings no NUL and a valid preedit and leaves at most 4000 bytes; then text, cursor, preedit and selection are as stated, and otherwise nothing changes |
| `LauncherSession.BackspaceUndoesCharacter` | apps/tensor-launcher/src/session.rs:93-103 | a backspace undoes the typing of any one character |
| `LauncherSession.Session.ApplyEdit` | apps/tensor-launcher/src/session.rs:159-197 | an edit is refused with the first failing check and no change, or replaces exactly the deleted range |
| `LauncherSession.Session.ReplaceQuery` | apps/tensor-launcher/src/session.rs:83-91 | replace_query validates, moves the cursor to the end and re-queries |
| `LauncherSession.Session.ReplaceCatalog` | apps/tensor-launcher/src/session.rs:48-51 | a new catalog keeps the text and re-queries |
| `LauncherSession.Session.InsertText` | apps/tensor-launcher/src/session.rs:93-95 | insertion at the cursor |
| `LauncherSession.Session.Backspace` | apps/tensor-launcher/src/session.rs:97-103 | removes exactly the one character before the cursor and never fails |
| `LauncherSession.Session.SelectNext` | apps/tensor-launcher/src/session.rs:118-127 | the selection moves forward cyclically |
| `LauncherSession.Session.SelectPrevious` | apps/tensor-launcher/src/session.rs:129-138 | moving back undoes moving forward |
| `LauncherSession.Session.SelectIndex` | apps/tensor-launcher/src/session.rs:140-146 | selects an index in range, reporting whether that changed anything |
| `LauncherSession.Session.RefreshResults` | apps/tensor-launcher/src/session.rs:199-203 | results are the fresh answer and the first one is selected |
| `LauncherSession.EditKeepsText` | apps/tensor-launcher/src/session.rs:192-193 | replacing text between boundaries keeps well-formed UTF-8 with the cursor on a boundary |
| `DesktopExec.ExecRoundTrip` | apps/tensor-launcher/src/launch.rs:67-155 | percent-doubling, quoting and escaping an argument list and reading it back through all three layers gives the same list, behind xdg-terminal-exec for a terminal entry, if and only if the list is non-empty, no argument is empty or has a control character that is not white space, and no percent sign is directly followed by F, U or i |
| `DesktopExec.UnescapeInvertsEscape` | apps/tensor-launcher/src/catalog.rs:402-424 | value unescaping undoes value escaping for every text |
| `DesktopExec.SplitInvertsJoin` | apps/tensor-launcher/src/launch.rs:67-102 | splitting undoes quoting for every list of non-empty arguments without such control characters |
| `DesktopExec.ExpandUndoesDoubling` | apps/tensor-launcher/src/launch.rs:133-155 | expanding a token undoes doubling its percent signs |
| `DesktopExec.ExpandArgumentOfDoubled` | apps/tensor-launcher/src/launch.rs:104-131 | an argument with doubled percent signs is rejected exactly when it textually contains a list or icon code |
| `DesktopExec.EncodedValueIsOneLine` | apps/tensor-launcher/src/catalog.rs:174-193 | the encoded value has no line break and no white space at its ends, so the line parser reads it back whole |
| `ExecGrammar.SplitReads` | apps/tensor-launcher/src/launch.rs:67-102 | text made of bare characters, escaped characters, quoted stretches and white space splits into the non-empty texts between the white space, quotes and backslashes removed |
| `ExecGrammar.SplitFindsTheWords` | apps/tensor-launcher/src/launch.rs:67-102 | words that mix bare, escaped and quoted pieces, with any white space around and between them, split into exactly these words in order |
| `ExecGrammar.SplitPlainWords` | apps/tensor-launcher/src/launch.rs:67-102 | words without white space, quotes, backslashes and refused characters, joined and surrounded by any runs of white space, split into exactly these words in order |
| `ExecGrammar.SplitExactly` | apps/tensor-launcher/src/launch.rs:67-102 | every text: a control character error exactly if it holds one that is no white space; otherwise unterminated exactly if it is not made of such pieces |
| `ExecGrammar.UnescapeReads` | apps/tensor-launcher/src/catalog.rs:402-424 | value escapes: s, n, t, r and a backslash stand for their character, a backslash before anything else stays, and so does one at the end |
| `ExecGrammar.EveryValueHasUnits` | apps/tensor-launcher/src/catalog.rs:402-424 | every value is made of such units, so the previous row covers all of them |
| `ExecGrammar.TokenReads` | apps/tensor-launcher/src/launch.rs:133-155 | %% is a percent sign, %c the name, %k the desktop file, the single-file and deprecated codes nothing, and other characters themselves |
| `ExecGrammar.TokenExactly` | apps/tensor-launcher/src/launch.rs:133-155 | a token expands exactly if it is made of such parts |
| `ExecGrammar.ArgumentReads` | apps/tensor-launcher/src/launch.rs:104-131 | %F and %U alone vanish, %i alone gives the icon option if there is an icon, other arguments their expansion unless it is empty |
| `ExecGrammar.ListCodeMustStandAlone` | apps/tensor-launcher/src/launch.rs:104-131 | one of these three codes inside a longer argument refuses the value |
| `ExecGrammar.LaunchReads` | apps/tensor-launcher/src/launch.rs:15-34 | end to end: escapes, words and field codes of a whole Exec value, with xdg-terminal-exec in front for terminal entries, and the two errors for nothing to run |
| `ExecGrammar.CharacterClasses` | apps/tensor-launcher/src/launch.rs:67-102 | which characters are white space and which are refused, over all of Unicode |
| `DesktopExec.UnescapeValue` | apps/tensor-launcher/src/catalog.rs:402-424 | the character loop computes unescaping |
| `DesktopExec.SplitExec` | apps/tensor-launcher/src/launch.rs:67-102 | the character loop computes splitting, with its errors; what splitting gives is said by ExecGrammar.SplitReads and ExecGrammar.SplitExactly |
| `DesktopExec.ExpandTokenText` | apps/tensor-launcher/src/launch.rs:133-155 | the character loop computes token expansion, with its errors |
| `DesktopExec.ExpandArgv` | apps/tensor-launcher/src/launch.rs:104-131 | the argument loop computes field-code expansion, dropping and adding arguments |
| `DesktopExec.PlanArgv` | apps/tensor-launcher/src/launch.rs:15-34 | the launch plan is splitting then expansion, with the terminal prefix and the empty-command error; what it yields is said by ExecGrammar.LaunchReads |
| `ConfigReload.EveryInterleavingIsConsistent` | apps/tensor-shell/src/config_reload.rs:116-143 | over every interleaving of one publisher with any number of polling readers: each returned pair is one that was published, newer than what the reader had and no older than what was complete; nothing complete is missed unless a revision number has come round again; the retained configuration is the parse of the latest valid document |
| `ConfigReload.NothingMissedBeforeWrapAround` | apps/tensor-shell/src/config_reload.rs:122-143 | a number comes round only 2^64 publications later, so before that no poll misses a completed publication |
| `ConfigReload.StepConsistent` | apps/tensor-shell/src/config_reload.rs:122-143 | every atomic step keeps that invariant |
| `ConfigReload.RevisionsIncrease` | apps/tensor-shell/src/config_reload.rs:136-143 | what a reader is handed gets strictly newer, and so do the revision numbers before wrap-around |
| `ConfigReload.ObserveFollows` | apps/tensor-shell/src/config_reload.rs:200-234 | the reducer keeps the parse of the latest valid document through repeated and invalid ones |
| `ConfigReload.StartedIsConsistent` | apps/tensor-shell/src/config_reload.rs:105-120 | the initialized store satisfies the invariant |
| `ConfigReload.ReloadState.ObserveDocument` | apps/tensor-shell/src/config_reload.rs:200-234 | observe computes the reducer, including the error it reports |
| `ConfigReload.ConfigStore.ReplaceSnapshot` | apps/tensor-shell/src/config_reload.rs:122-130 | the part of publish under the mutex: refuses an equal configuration, else takes the next revision |
| `ConfigReload.ConfigStore.StoreHint` | apps/tensor-shell/src/config_reload.rs:131-132 | the hint store is the next atomic step |
| `ConfigReload.ConfigStore.HintUnchanged` | apps/tensor-shell/src/config_reload.rs:136-139 | the lock-free first half of a poll |
| `ConfigReload.ConfigStore.ReadSnapshot` | apps/tensor-shell/src/config_reload.rs:140-143 | the second half of a poll, under the mutex |
| `DndTransfers.Interleave` | apps/tensor-files/src/windowing_event_loop.rs:339-494 | the dispatcher handles every sequence of events as the run on values does: same records and queue at the end, and at every event exactly the acts of the run |
| `DndTransfers.FinishedExactlyWhenComplete` | apps/tensor-files/src/windowing_event_loop.rs:410-494 | in every interleaving with fresh offers an offer is finished by the dispatch of an event exactly when, with that event, it has entered a window, not left before a drop, and for the first time been both dropped and read |
| `DndTransfers.FinishedAtMostOnce` | apps/tensor-files/src/windowing_event_loop.rs:473-494 | over a whole run an offer is finished at most once |
| `DndTransfers.DiscardedExactly` | apps/tensor-files/src/windowing_event_loop.rs:392-409 | an offer is discarded exactly at a Leave that does not find it dropped and awaiting its read, a condition on the earlier events alone |
| `DndTransfers.NotDiscardedBetweenDropAndFinish` | apps/tensor-files/src/windowing_event_loop.rs:392-494 | no discard falls between a drop and the finish of the same offer |
| `DndTransfers.KnownExactly` | apps/tensor-files/src/windowing_event_loop.rs:392-423 | a Drop or Leave finds a record exactly when the offer entered a window and has since neither left before a drop nor been completed |
| `DndTransfers.RecordsFollowEvents` | apps/tensor-files/src/windowing_event_loop.rs:339-494 | after any run the record of an offer is determined by which of Leave, Drop and a handled read happened since it entered |
| `DndTransfers.CompleteReadsOf` | apps/tensor-files/src/windowing_event_loop.rs:461-470 | handling a queue of completions affects one offer only if it is recorded and among them: finished once if dropped, marked otherwise |
| `DndTransfers.Dispatcher.Enter` | apps/tensor-files/src/windowing_event_loop.rs:341-374 | the Entering step: a record exactly for a known window |
| `DndTransfers.Dispatcher.Leave` | apps/tensor-files/src/windowing_event_loop.rs:392-409 | the Leaving step: discards exactly when the offer is not recorded as dropped |
| `DndTransfers.Dispatcher.Drop` | apps/tensor-files/src/windowing_event_loop.rs:410-423 | the Dropping step: marks the record and finishes the offer if its data was read |
| `DndTransfers.Dispatcher.ReadFinished` | apps/tensor-files/src/windowing.rs:657-677 | the ReadDone step: a reader thread queues its completion |
| `DndTransfers.Dispatcher.DispatchCompletedReads` | apps/tensor-files/src/windowing_event_loop.rs:451-471 | the Dispatching step: every queued completion is handled in order, with exactly the finishes of the run |
| `DndTransfers.Dispatcher.FinishDndIfReady` | apps/tensor-files/src/windowing_event_loop.rs:473-494 | removes the record and finishes exactly when both flags are set |
| `DndTransfers.UnknownDropIsDiscarded` | apps/tensor-files/src/windowing_event_loop.rs:392-423 | a run in which a drop without a record is followed by a discard |
| `ImeQueue.CoalescingPreservesMeaning` | apps/tensor-files/src/windowing.rs:180-196 | for every run of submissions: executing the coalesced queue equals executing every command, in final state of each surface, state just before each destruction, and all other commands, from every starting state, if and only if no surface has an accepted state superseded by a rejected one before its first Destroy |
| `ImeQueue.RejectedStateLosesItsPredecessor` | apps/tensor-files/src/windowing_event_loop.rs:114-127 | a state with a NUL byte, refused at execution, drops the accepted state it overwrote |
| `ImeQueue.CoalescedKeepsLastStates` | apps/tensor-files/src/windowing.rs:180-196 | the queue keeps the last state of every stretch between Destroys of a surface and all other commands in order |
| `ImeQueue.AtMostOnePending` | apps/tensor-files/src/windowing.rs:185-195 | a surface has at most one pending state between consecutive Destroys |
| `ImeQueue.OverwriteOnlyLast` | apps/tensor-files/src/windowing.rs:185-195 | one submission changes only the last stretch of its own surface |
| `ImeQueue.NewestStateWins` | apps/tensor-files/src/windowing.rs:180-196 | whatever is pending, after execution a surface that still exists has the newest state submitted for it, switching off included, if that can be sent |
| `ImeQueue.AcceptedExactly` | apps/tensor-files/src/windowing_event_loop.rs:114-127 | what can be sent: switching off, or at most 4000 bytes without NUL whose offsets lie on boundaries |
| `ImeQueue.ExecutionInClosedForm` | apps/tensor-files/src/windowing_event_loop.rs:85-149 | executing a list depends only on its other commands and the states set on each surface before its first Destroy |
| `ImeQueue.OverwrittenStateMayNotBeLast` | apps/tensor-files/src/windowing.rs:185-195 | uncoalesced, a new accepted state reaches the shared input method last; coalesced, it does if and only if no later pending state of another surface takes effect |
| `ImeQueue.LoopShared.PushIme` | apps/tensor-files/src/windowing.rs:169-196 | the backward scan overwrites or appends as specified |
| `ImeQueue.LoopShared.Push` | apps/tensor-files/src/windowing.rs:161-167 | other commands are appended |
| `ImeQueue.ProcessCommands` | apps/tensor-files/src/windowing_event_loop.rs:85-149 | the queue is emptied and executed in order |
| `ImeQueue.Drive` | apps/tensor-files/src/windowing_event_loop.rs:85-149 | over every run of submissions, new windows and drains whose drained batches meet the condition, the event loop does what it would do without coalescing |
| `ImeQueue.NewImeState` | apps/tensor-files/src/windowing_text_input.rs:38-56 | a freshly built state is accepted exactly when its window holds no NUL byte |
| `ImeWindow.SurroundingTextWindow` | apps/tensor-files/src/windowing_text_input.rs:155-185 | for every UTF-8 text and offsets the window is a slice of at most 4000 bytes, well formed, holding the normalized cursor at the shifted position, with cursor and anchor on boundaries; in longer texts it reaches from the first boundary at or after 2000 bytes before the cursor, moved into the text, to the last one within 4000 bytes |
| `ImeWindow.WindowIsCentred` | apps/tensor-files/src/windowing_text_input.rs:160-185 | so a cursor well inside the text has at least 1997 bytes on either side, and one near an end has everything up to it |
| `ImeWindow.NormalizedOffset` | apps/tensor-files/src/windowing_text_input.rs:187-193 | the last character boundary at or before the offset |
| `ImeWindow.SearchForward` | apps/tensor-files/src/windowing_text_input.rs:166-172 | the start moves to the first boundary, at most three bytes on and never past the cursor |
| `ImeWindow.SearchBackward` | apps/tensor-files/src/windowing_text_input.rs:173-176 | the end moves back at most three bytes, to the last boundary |
| `MediaOsd.ShownPositionIsExact` | apps/tensor-shell/src/media_osd.rs:84-143 | in every run with a monotone clock, right after an advance the display shows the latest player snapshot, a playing position of known length a thousand microseconds further for each millisecond since, but not past the end, whatever happened in between |
| `MediaOsdHistory.ShownExactly` | apps/tensor-shell/src/media_osd.rs:84-220 | in every run the display is up exactly since an event that showed another track or playback than the one before and that no later event has taken down, it is hovered exactly if the last word on hovering says so, and its deadline is the time of the last event that sets one, plus its timeout |
| `MediaOsdHistory.SinceExactly` | apps/tensor-shell/src/media_osd.rs:84-220 | up since an event means: down before, brought up by it, and not taken down by any event since |
| `MediaOsdHistory.ExpiresExactly` | apps/tensor-shell/src/media_osd.rs:109-113 | an expiry hides what is shown exactly if the pointer is elsewhere and the time is over |
| `MediaOsdHistory.ObservedIsShown` | apps/tensor-shell/src/media_osd.rs:167-210 | what a change brings up, or a later observation refreshes, is the observed content |
| `MediaOsd.AdvancingInStepsIsAdvancingOnce` | apps/tensor-shell/src/media_osd.rs:115-143 | advancing in any number of steps is advancing once, apart from the number of revisions |
| `MediaOsd.RunCoherent` | apps/tensor-shell/src/media_osd.rs:84-220 | in every run: what is shown has a deadline, a title and the trigger last observed; while nothing is shown there is neither deadline nor hover |
| `MediaOsd.RevisionCountsChanges` | apps/tensor-shell/src/media_osd.rs:84-220 | in every run the revision is the number of changes of what is shown, modulo 2^64 |
| `MediaOsd.StepCountsChange` | apps/tensor-shell/src/media_osd.rs:204-219 | every step moves the revision by one exactly when it changes what is shown |
| `MediaOsd.EqualRevisions` | apps/tensor-shell/src/media_osd.rs:72-74 | equal revisions mean a multiple of 2^64 changes; with fewer than 2^64 changes between them the content is the same |
| `MediaOsd.StepTracks` | apps/tensor-shell/src/media_osd.rs:167-202 | every step keeps what is shown equal to the latest observation carried forward to the anchor |
| `MediaOsd.MediaOsdState.ObservePlayer` | apps/tensor-shell/src/media_osd.rs:167-202 | observe_content, with its six outcomes |
| `MediaOsd.MediaOsdState.AdvanceTime` | apps/tensor-shell/src/media_osd.rs:115-143 | advance reports exactly whether what is shown changed |
| `MediaOsd.MediaOsdState.Show` | apps/tensor-shell/src/media_osd.rs:204-210 | show replaces different content and restarts the deadline |
| `MediaOsd.MediaOsdState.HideIt` | apps/tensor-shell/src/media_osd.rs:212-219 | hide clears content, deadline, anchor and hover |
| `MediaOsd.MediaOsdState.Apply` | apps/tensor-shell/src/media_osd.rs:84-165 | every public operation is the corresponding step |
| `MediaOsd.Drive` | apps/tensor-shell/src/media_osd.rs:84-220 | every run of the object is a run of the state machine |
| `MediaOsdScene.RetainedScene.UpdateProgress` | apps/tensor-shell/src/media_osd_scene.rs:159-175 | an update is accepted exactly when the contents differ at most in position; then the scene equals a full rebuild at its extent, otherwise it is unchanged |
| `MediaOsdScene.RefreshScene` | apps/tensor-shell/src/runtime/media_osd.rs:53-80 | refreshing drops, updates in place or rebuilds as the function on values says |
| `MediaOsdScene.RefreshedIsRebuiltUnlessResized` | apps/tensor-shell/src/runtime/media_osd.rs:66-80 | the refreshed scene equals a rebuild for the present extent if and only if there was none, its extent is the present one, or it could not be updated in place |
| `MediaOsdScene.StaleLayoutAfterResize` | apps/tensor-shell/src/runtime/media_osd.rs:66-80 | a resize from 400 to 120 pixels with unchanged content keeps cards 32 pixels wide where 28 fit |
| `MediaOsdScene.CardsAreLaidOut` | apps/tensor-shell/src/media_osd_scene.rs:58-92 | three equal squares in the order previous, play or pause, next, each enabled exactly as the player supports it, six pixels apart and twelve pixels in |
| `MediaOsdScene.CardsFitExactly` | apps/tensor-shell/src/media_osd_scene.rs:58-92 | they keep twelve pixels from the right and the bottom exactly from 36 pixels width and 24 pixels height on |
| `MediaOsdScene.MetadataIsLaidOut` | apps/tensor-shell/src/media_osd_scene.rs:93-136 | title, detail and progress stand behind the cards, one below the other without touching; the progress keeps its distance from the bottom exactly from 36 pixels height on |
| `MediaOsdScene.ProgressValue` | apps/tensor-shell/src/media_osd_scene.rs:226-238 | the drawn part never exceeds the track and is whole exactly when the position has reached the duration |
| `MediaOsdScene.ProgressIsProportional` | apps/tensor-shell/src/media_osd_scene.rs:226-238 | the drawn part is the played share of the track in whole pixels, rounded down |
| `MediaOsdScene.ProgressGrows` | apps/tensor-shell/src/media_osd_scene.rs:226-238 | playing on never shrinks the drawn part |

## Left out

- JSON, KDL and D-Bus: `GreeterStack` takes an arbitrary serializer of requests, `GreetdFrames` and `GreetdClient` take an arbitrary parser of payloads, `ConfigReload` an arbitrary parser of documents.
- The Wayland connection: in `IdleRuntime` handle creation may fail at any point and ids are fresh, flushes succeed or fail as given, errors on destruction are ignored as in the code, and output-power registration is an arbitrary success or failure.
- Clocks, file probing, fingerprints, thread start-up and wake-ups: times and documents are inputs.
- IdlePlan::compile: it would only add an easy sort of three stages; `IdleRuntime` accepts every list of stages instead.
- GreetdClient.Connection: the code between two awaits is a method, and the suspended future is the field `at`; the executor and the socket are the events of the state machine.
- GreeterTransaction.Transaction: the client is represented by how each exchange ends, which `GreeterStack` derives from the client itself; the returned update values are not kept.
- ConfigReload.EveryInterleavingIsConsistent: a poisoned mutex is not modelled, and the atomic hint is taken as sequentially consistent.
- LauncherQuery.Query: the binary search of the standard library is a parameter that may find any equal element; scores are unbounded, see `LauncherScore.ScoreSubsequence`.
- LauncherScore.ScoreSubsequence: promises nothing for queries of more than half a billion characters, whose score overflows 32 bits; a session accepts 4000 bytes.
- LauncherCatalog.Discover: directory walking, locale lookup, visibility rules and the diagnostics list are inputs or omitted; a file is an id with its parse result.
- DesktopExec.PlanArgv: the working directory and the submission to the compositor are not modelled.
- DndTransfers.Interleave: drag positions, type hints, application callbacks and outgoing drags are not modelled; offer ids are fresh, as the runtime issues them.
- ImeQueue.CoalescingPreservesMeaning: the input-method state is kept per surface; the order between surfaces, which coalescing can change, is stated by `ImeQueue.OverwrittenStateMayNotBeLast`. A compositor without text input, on which every such command does nothing, is not modelled.
- ImeQueue.NewImeState: cursor area, hints and purpose are omitted; they never make a state rejected.
- MediaOsdScene.RefreshScene: surfaces, mouse input and drawing are omitted; hit testing and colours would only add easy members.
- Memory zeroing of secrets, settings documents, surfaces and drawing, Vulkan presentation, wallpaper shader generation and the reverse-engineering scripts.
