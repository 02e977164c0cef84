# A model of the Doritrack host

Doritrack turns the touch screen of an Android phone into lane keys of a
computer. This Dafny project models the parts of the host (and of its launcher)
where a mistake would be felt as a lost, doubled or stuck key, or would damage
the network configuration, and proves what they promise.

| files | what they model |
|---|---|
| `Protocol.dfy`, `WireRecords.dfy`, `TouchPayload.dfy`, `PhoneFrames.dfy` | touch frames, the record and payload decoders, and the phone's encoders they are proved against |
| `Crc.dfy`, `CrcPolynomial.dfy` | CRC-32: what it detects, and that it is the remainder of a polynomial division |
| `KeyPlanner.dfy`, `PlannerLaws.dfy`, `PlannerBounds.dfy`, `PlannerPaths.dfy`, `KeyboardState.dfy` | turning a contact snapshot into ordered key edges: reference functions, their laws, and the in-place planner proved against them |
| `KeySink.dfy` | the uinput writer, which the kernel may cut between a key event and its SYN |
| `SpacerModel.dfy`, `SpacerLaws.dfy`, `SpacerSettles.dfy`, `RepressSpacer.dfy`, `SpacedRetries.dfy` | the timed re-press scheduler |
| `SpacedSlides.dfy`, `SlideRuns.dfy`, `SlideGap.dfy` | slides under spacing: when some key stays down throughout |
| `BridgeModel.dfy`, `KeyboardSink.dfy`, `SinkRuns.dfy`, `SpacedRuns.dfy` | the lane-key bridge: the pure session fold, the object that survives partial submissions, and whole histories of it |
| `OrderedFrames.dfy`, `Gameplay.dfy` | the receive ring and the commit-then-ACK session, end to end |
| `ReplayWindow.dfy` | the replay bitmap and its use by the record cipher |
| `EventQueue.dfy` | the lock-free diagnostic ring |
| `LatencySeries.dfy`, `ClockModel.dfy` | the logarithmic histogram and the clock-offset interval |
| `RouteJournal.dfy`, `RoutePolicy.dfy` | the write-ahead journal of the Windows route policy |
| `NetworkManager.dfy` | the Linux NetworkManager update as compare-and-set with rollback |

The environment is adversarial throughout. How the kernel answers a write, what
the network delivers, when a process dies, what another program edits between
two calls and how late a thread sees an index are parameters without
assumptions beyond the stated ones, and the theorems hold for all of them.
Time is an integer that never runs backwards; a spacing gap is positive.
Objects that the source updates in place are classes here, each method proved
against a function of the old state; what the source promises is then proved
about those functions.

Four findings about the code:

- With re-press spacing a flush recomputes its batch, so a retry need not begin
  with the half-written change, and the writer then refuses it.
  `SpacedRetries.SpacedRetry` says exactly when a retry is accepted,
  `SpacedRetries.RefusedRetryRun` is a run in which it is not, and by
  `SpacedRetries.SpacedRetryStuck` every later retry is refused as well. A cancel
  ends the state whenever the OS takes its writes
  (`KeyboardSinks.KeyboardSink.Release`).
- The no-gap promise for slides (native-host/src/keyboard/mod.rs:71-72) fails
  under spacing once an edge meets a lane with three edges waiting: the cancelled
  press had bridged two releases. `SlideGap.GapRun` is such a run,
  `SlideRuns.SlideGapless` proves the promise for runs without such an edge, and
  `SlideRuns.CancelExact` says exactly when it survives one.
- A deleted default route comes back only if some configured gateway confirms or
  replaces it. For IPv6 no configured gateway is ever read
  (native-host/src/tether_policy/windows.rs:763-765), so recovery of a deleted
  IPv6 route with a real next hop keeps its journal entry and reports an error;
  `RoutePolicies.CrashAndRecover` states the exact condition and
  `RoutePolicies.UnrecoverableRun` is such a run.
- In the NetworkManager update an error of the device check right after the
  persistent write returns without any rollback
  (tauri-launcher/src-tauri/src/linux_network_manager.rs:494). The model reports
  it as `LeftApplied`, apart from the rolled-back outcomes;
  `LocalOnlyTether.FinishUpdate` states exactly when it happens and
  `LocalOnlyTether.LeftAppliedRun` is such a run.

For `SinkRuns.Run`, `EventQueues.Run` and `RoutePolicies.CrashAndRecover` the
result is the class invariant that every step keeps; their out-parameters only
show parts of the state it holds in.

## Model

| member | source | states |
|---|---|---|
| PlannerLaws.PlanCorrect | native-host/src/keyboard/mod.rs:582-664 | From exact hold counters and a frame with distinct pointer IDs: after planning every counter again equals the number of pointers on its lane, the new pointer map depends on the touching, unsuppressed contacts alone, and replaying the filtered change list over "held before" gives "held after" - with repeat presses or split re-presses. |
| PlannerLaws.PlanNeverEmpty | native-host/src/keyboard/mod.rs:683-707 | No-gap slides: without split re-presses, if a pointer owns a lane before and after the frame, some lane is asserted after every prefix of the emitted changes. |
| PlannerLaws.ContinuousAssertsMore | native-host/src/keyboard/mod.rs:628-632 | Whatever lane the unfiltered list leaves asserted, the filtered list leaves asserted too, so some lane is if some was. |
| PlannerLaws.ContinuousPrefix | native-host/src/keyboard/mod.rs:628-632 | Every prefix of the filtered list is the filter of a prefix, so the same holds after each. |
| PlannerLaws.UnfilteredExact | native-host/src/keyboard/mod.rs:590-627 | Action pointer first, then the other contacts, then lifting absent pointers: counters stay exact and the changes replay from the old holds to the new ones. |
| PlannerLaws.MoveExact | native-host/src/keyboard/mod.rs:683-707 | A slide keeps the counters exact and ends with the pointer on its destination, without a gap; which lanes it presses and releases on the way is stated by `PlannerPaths.SlidePath`. |
| PlannerLaws.LiftExact | native-host/src/keyboard/mod.rs:709-713 | Lifting a pointer gives up its lane and releases the key only with the last holder. |
| PlannerLaws.AssignCounted | native-host/src/keyboard/mod.rs:715-738 | Reference counting: adding and removing one owner changes the exact counter by one. |
| PlannerBounds.PlanBounded | native-host/src/keyboard/mod.rs:19-22 | With at most 16 contacts and 16 active pointers, the list stays within 16 * (2 * lanes + 1) before the filter and after repeat presses, and at most 16 pointers are active afterwards. |
| PlannerBounds.LandingPresses | native-host/src/keyboard/mod.rs:634-663 | A finger that lands (the action pointer of a DOWN) gets a press of its own on its lane, whoever held it before. |
| PlannerBounds.AdmittedPresses | native-host/src/keyboard/mod.rs:634-663 | A finger admitted later by pressure finds its lane pressed in the emitted list - by a press of its own if the lane was already held. |
| PlannerPaths.SlidePath | native-host/src/keyboard/mod.rs:695-706 | Over free lanes a slide is exactly: the press of the next lane, then the release of the one before, lane by lane up to the destination. |
| PlannerPaths.SlideCrosses | native-host/src/keyboard/mod.rs:695-706 | Whoever holds the other lanes, every free lane that is crossed is pressed, and every one that is left again is released. |
| PlannerPaths.PlanCrosses | native-host/src/keyboard/mod.rs:596-632 | The same in the emitted plan of a frame, for the finger that is served first. |
| PlannerPaths.PlanSplits | native-host/src/keyboard/mod.rs:640-661 | With spacing, a finger that lands or is admitted on a held lane makes the plan hold the release of that lane directly followed by its new press. |
| PlannerPaths.RepressesOnly | native-host/src/keyboard/mod.rs:640-661 | There is no other repeat press or split: each comes from such a finger, and on its lane. |
| PlannerPaths.SnapshotDecides | native-host/src/keyboard/mod.rs:611-626 | A pointer owns a lane afterwards exactly if a contact of it touches unsuppressed on that lane, and is marked exactly if one touches suppressed. |
| PlannerPaths.ContinuousOne | native-host/src/keyboard/mod.rs:628-632 | The filter drops a change exactly if its lane is held before and after the frame. |
| PlannerPaths.ContinuousConcat | native-host/src/keyboard/mod.rs:628-632 | It looks at one change at a time and keeps the order. |
| PlannerPaths.LiftsAscend | native-host/src/keyboard/mod.rs:616-626 | Absent pointers are lifted in ascending order, one after the other. |
| PlannerPaths.LaneIs | native-host/src/keyboard/mod.rs:740-742 | Lane k holds exactly the places from k to k + 1 lane widths; the outer lanes take what lies beyond. |
| KeyboardStates.PlanInto | native-host/src/keyboard/mod.rs:582-664 | The in-place planner, with its buffers and loops, computes exactly the reference plan, whose edges are fixed by the laws above. |
| KeyboardStates.KeyboardState.Move | native-host/src/keyboard/mod.rs:683-707 | The slide loop on the mutable state equals the recursive slide, whose path is fixed by `PlannerPaths.SlidePath`. |
| KeyboardStates.KeyboardState.AcquireLane | native-host/src/keyboard/mod.rs:715-724 | A press is emitted only for the first holder. |
| KeyboardStates.KeyboardState.ReleaseLane | native-host/src/keyboard/mod.rs:726-738 | A release is emitted only for the last holder; releasing a free lane does nothing. |
| KeyboardStates.Filter | native-host/src/keyboard/mod.rs:628-632 | The retain step keeps exactly the changes of lanes not held throughout, in order. |
| KeyboardStates.AppendRepresses | native-host/src/keyboard/mod.rs:634-663 | The appended repeat presses or split re-presses are exactly the reference ones: those of `PlannerPaths.PlanSplits` and `PlannerPaths.RepressesOnly`. |
| BridgeModel.SessionInvariant | native-host/src/keyboard/mod.rs:366-453 | In a session that opens with a releasing frame: after every completed frame a key is down exactly when some pointer holds its lane, at most 16 pointers own lanes, and the change list of any frame that can follow - releasing, heartbeat or planned - fits its capacity. What a frame cut short leaves is stated by `Gameplay.StreamStep` and `KeyboardSinks.KeyboardSink.AcceptDirect`. |
| BridgeModel.AskedBounded | native-host/src/keyboard/mod.rs:19-22 | Each of the three frame kinds asks for at most 16 * (2 * lanes + 1) changes; a releasing frame whatever is pressed. |
| BridgeModel.FrameKinds | native-host/src/keyboard/mod.rs:370-404 | A session start, a cancel or an unlocked frame leaves no hold and no key; an empty heartbeat changes nothing; every other frame is planned. |
| BridgeModel.NextConsistent | native-host/src/keyboard/mod.rs:366-453 | Each of the three frame kinds (releasing, empty heartbeat, planned) leaves a key down exactly when its lane is held. |
| BridgeModel.ReleasesCut | native-host/src/keyboard/mod.rs:472-506 | After releasing any prefix of the pressed keys, exactly the remaining releases are still owed. |
| BridgeModel.ReleasesAll | native-host/src/keyboard/mod.rs:472-512 | After all releases no key is pressed. |
| KeySinks.KeySink.Submit | native-host/src/keyboard/linux.rs:164-216 | However the kernel cuts the batch: whole changes are complete, at most one key event lacks its SYN and is remembered, a retry completes that SYN first; nothing changes exactly when the submission is refused, and every event the kernel took is accounted for. |
| KeySinks.KeySink.CompleteOwed | native-host/src/keyboard/linux.rs:168-192 | A retry must begin with the half-written change; its SYN is written once and counts as one accepted change. |
| KeySinks.KeySink.WriteBatch | native-host/src/keyboard/linux.rs:194-215 | An odd count leaves exactly the next change half-written. |
| KeySinks.KeySink.DiscardPending | native-host/src/keyboard/linux.rs:218-251 | A half-written press is undone by a release, any other half-write by its SYN; a partial discard still owes a SYN. |
| KeySinks.Deliver | native-host/src/keyboard/linux.rs:164-216 | One submission keeps the kernel within the recorded key states of the accepted prefix and reports exactly that prefix; two events make an accepted change and an odd one a half-write; a willing kernel takes everything. |
| KeySinks.SubmitFaithful | native-host/src/keyboard/linux.rs:164-216 | Inductive form of "no stuck key, no unrecorded event" over submissions: a key the kernel holds is recorded as pressed or is the press whose SYN is owed, and the event log is the reported changes in order, each with its SYN, plus closed half-writes and at most one open one. |
| KeySinks.DiscardFaithful | native-host/src/keyboard/linux.rs:218-251 | The same over discards, however they are cut: a closed half-write is told as such and never as a reported change. |
| KeySinks.NoStuckKey | native-host/src/keyboard/mod.rs:313-320 | With nothing recorded as pressed and nothing half-written, the kernel holds no key and every key event has its SYN. |
| SpacerModel.EnqueueGood | native-host/src/keyboard/mod.rs:120-164 | Per lane the waiting edges alternate, start opposite to the pressed state, number at most 3 and end in the last requested state - also when the cap cancels an edge - and other lanes are untouched. An edge is spaced exactly for one of the three reasons (a press, behind a spaced edge, the release of a finger-down press) and due within one gap of its predecessor then, and together with it otherwise. |
| SpacerModel.IdleEnqueued | native-host/src/keyboard/mod.rs:150-157 | Where nothing waits, an edge is due at once and unspaced - after a pause of a gap, as the first ever, or as the release of an ordinary press - and else exactly one gap after the last edge. |
| SpacerModel.BehindEnqueued | native-host/src/keyboard/mod.rs:133-150 | Behind waiting edges a press, and an edge behind a spaced one or a finger-down press, trails its predecessor by exactly one gap, any other goes with it; a fourth takes the newest back, a repeated state adds nothing. |
| SpacerModel.PromptlyDue | native-host/src/keyboard/mod.rs:70-71 | A lane whose waiting edges are all unspaced - a lane that a slide crosses - has them due at once. |
| SpacerModel.EnqueuedAllGood | native-host/src/keyboard/mod.rs:405-417 | A whole list of changes leaves every lane headed for the state the list asks for. |
| SpacerModel.DueBound | native-host/src/keyboard/mod.rs:120-164 | No waiting edge is due later than three gaps from now. |
| SpacerLaws.FlushGood | native-host/src/keyboard/mod.rs:166-242 | A flush, whatever part of its selection was accepted, keeps every lane queue well-formed and the state each lane is headed for. |
| SpacerLaws.AfterFlush | native-host/src/keyboard/mod.rs:211-219 | After a flush, the next opposite edge of an idle lane waits for one gap exactly if it is a press or what went out last was spaced or a finger-down press. |
| SpacerLaws.FlushSeparated | native-host/src/keyboard/mod.rs:99-103 | In the log of emitted edges two consecutive edges of a lane are a gap apart whenever the later is a press, or the earlier was spaced or a finger-down press, and no edge counts as spaced for any other reason - with late flushes, several flushes at one instant, cancellation and partial acceptance. |
| SpacerSettles.FlushSettles | native-host/src/keyboard/mod.rs:183-237 | One flush is enough: once a whole selection went out, no edge that is left may go out at the same instant. |
| SpacerLaws.LaneSplit | native-host/src/keyboard/mod.rs:183-228 | Each lane emits its edges in queue order and keeps the rest in order. |
| SpacerLaws.EmittedReplay | native-host/src/keyboard/mod.rs:211-219 | Replaying the emitted edges moves a lane from its pressed state to the last emitted one. |
| SpacerLaws.DeadlineProgress | native-host/src/keyboard/mod.rs:244-257 | At the next deadline something goes out, or fewer dues lie ahead. |
| RepressSpacers.PrefixEmittable | native-host/src/keyboard/mod.rs:183-228 | Every accepted prefix of a selection respects due times, lane order and the rule that no release overtakes a press queued before it. |
| RepressSpacers.RepressSpacer.Enqueue | native-host/src/keyboard/mod.rs:120-164 | The scan-and-push loop, with de-duplication and cap cancellation, computes the reference enqueue, whose dues are fixed by `SpacerModel.IdleEnqueued` and `SpacerModel.BehindEnqueued`. |
| RepressSpacers.RepressSpacer.Select | native-host/src/keyboard/mod.rs:183-202 | The one-pass scan with its three flags selects exactly the ready edges. |
| RepressSpacers.RepressSpacer.Retain | native-host/src/keyboard/mod.rs:220-228 | The retain pass removes exactly the accepted edges. |
| RepressSpacers.RepressSpacer.RestartGaps | native-host/src/keyboard/mod.rs:229-237 | Spaced followers of an edge emitted now restart their gap. |
| RepressSpacers.RepressSpacer.Flush | native-host/src/keyboard/mod.rs:166-242 | A flush changes queue, last emissions, pressed states and log exactly by its accepted part, keeps every invariant, and on success is the whole selection, after which nothing more may go out. A success was not refused by the writer, a kernel that takes everything makes it succeed, every cut - also of a retry that first completed its SYN - leaves exactly the next selected edge half-written, and a refused retry changes nothing. |
| RepressSpacers.SubmitSelected | native-host/src/keyboard/mod.rs:203-210 | The batch of the selected edges: the accepted positions are a prefix of the selection, and any cut leaves exactly the next selected edge half-written, whether or not the batch first completed an owed SYN. |
| RepressSpacers.RepressSpacer.NextDeadline | native-host/src/keyboard/mod.rs:244-257 | None exactly for an empty queue, else the least due ahead, or now. |
| RepressSpacers.RepressSpacer.NoteRelease | native-host/src/keyboard/mod.rs:259-265 | A release submitted by a cancel restarts the lane without breaking the separation of the log. |
| SpacedRetries.SpacedRetry | native-host/src/keyboard/mod.rs:184-204 | For every flush that left a half-write and every later retry of what it left queued: the retry gets past the writer exactly when its SYN is taken and no edge queued before the half-written one is ready by itself at that time. |
| SpacedRetries.SpacedRetryStuck | native-host/src/keyboard/mod.rs:184-204 | Once an edge ahead has become ready, every retry from then on is refused, whatever the kernel would take. |
| SpacedRetries.RefusedRetryRun | native-host/src/keyboard/mod.rs:184-204 | A run from a new scheduler and a new writer: a press, its spaced release, a press on another lane of which the kernel takes only the key event, and a retry that is refused whatever the kernel would take. |
| SpacedRetries.HalfWriteStays | native-host/src/keyboard/mod.rs:203-237 | After the cut the half-written edge is still queued and due, first of its lane, and as a release behind no press. |
| SpacedRetries.RetryHead | native-host/src/keyboard/mod.rs:184-204 | The batch begins with the half-written edge exactly when none queued before it goes out. |
| SpacedSlides.FlushBridged | native-host/src/keyboard/mod.rs:71-72 | Whatever part of the queue goes out, and however late: if some lane is down now and would be after every prefix of the queue, some lane is down after every edge that goes out, and the rest of the queue is again such. |
| SpacedSlides.EnqueueBridged | native-host/src/keyboard/mod.rs:120-164 | An edge on a lane that is not full keeps that exactly if it leaves some lane headed down. |
| SpacedSlides.PlanBridged | native-host/src/keyboard/mod.rs:405-417 | So does a whole plan that never leaves all lanes free, as long as it meets no full lane. |
| SpacedSlides.SlideFrame | native-host/src/keyboard/mod.rs:374-417 | One attempt of a frame of a sliding pointer, with any OS: if no change meets a full lane, some lane is down after every change the OS accepts, from the first flush to the second. |
| SlideRuns.SlideGapless | native-host/src/keyboard/mod.rs:71-72 | Over whole runs of requests and flushes, at any times and in any parts: if every request leaves some lane headed down and none meets a full lane, some lane is down after every edge that goes out. |
| SlideRuns.BridgedExact | native-host/src/keyboard/mod.rs:183-237 | Exactly such a queue can be sent in no way that leaves all lanes free: of any other queue, late flushes cut after one change make the gap. |
| SlideRuns.CancelExact | native-host/src/keyboard/mod.rs:135-140 | What a cancelled edge costs: from then on no way of sending leaves a gap exactly if the queue without the newest edge of that lane is still such a queue. |
| SlideGap.GapRun | native-host/src/keyboard/mod.rs:135-140 | A run from a new scheduler in which one finger slides from lane 1 to 0, back and on to 2, and back to 0: some lane is headed down after every request, every flush emits all that may go out, and yet the eighth edge that goes out leaves all lanes free. |
| KeyboardSinks.KeyboardSink.AcceptAt | native-host/src/keyboard/mod.rs:366-453 | One delivery attempt: without spacing a prefix of what the frame still owes is accepted and exactly the rest stays owed, success commits the whole plan. With spacing success makes the holds those the frame leads to and leaves nothing that may go out, a failure keeps the holds and either the pending plan or this frame's, and every lane stays headed for its holders' state. With or without spacing an OS that takes what it is given makes the attempt succeed, releasing frames included. |
| KeyboardSinks.KeyboardSink.AcceptDirect | native-host/src/keyboard/mod.rs:382-453 | Planning once and resuming the same frame: retries never replan, never repeat an accepted change and never skip one. |
| KeyboardSinks.KeyboardSink.AcceptSpaced | native-host/src/keyboard/mod.rs:374-417 | With spacing: a first flush emits what may go out of the queue as it was, and only if that succeeds is the frame planned; a failed first flush leaves plan and holds as they were. Then exactly the changes the frame still owes - none for a retry - are queued behind, and a second flush follows. With nothing half-written and both flushes taken whole the attempt succeeds. |
| KeyboardSinks.KeyboardSink.SubmitSpaced | native-host/src/keyboard/mod.rs:382-417 | The second half of such an attempt: exactly the owed changes are queued, part of the result goes out, and a failure leaves the frame pending with its plan kept; it succeeds if the flush is taken whole. |
| KeyboardSinks.KeyboardSink.ReleaseAllWith | native-host/src/keyboard/mod.rs:460-512 | Deferred edges are dropped, exactly the accepted releases are recorded, and success leaves nothing held or pressed. |
| KeyboardSinks.KeyboardSink.Release | native-host/src/keyboard/mod.rs:455-458 | A cancel closes a half-write first; success leaves nothing held, pending or queued. |
| KeyboardSinks.KeyboardSink.ServiceAt | native-host/src/keyboard/mod.rs:348-357 | A wake-up emits only a permitted part of the queue and keeps every lane headed for the same state. |
| KeyboardSinks.KeyboardSink.HasActiveInput | native-host/src/keyboard/mod.rs:313-320 | False exactly when nothing is pressed, half-written or queued. |
| KeyboardSinks.KeyboardSink.Drain | native-host/src/keyboard/mod.rs:405-417 | Waking at every deadline with a willing OS ends with an empty queue and, unless a cancel had failed, every key pressed exactly when its lane is held. |
| KeyboardSinks.WakeProgress | native-host/src/keyboard/mod.rs:244-257 | The measure of that drain: queue length, then dues still ahead. |
| SinkRuns.Run | native-host/src/keyboard/mod.rs:313-512 | Every reachable state of a bridge, spacing on or off, under any frames, wake-ups, cancels, short writes and errors: what the kernel holds and was told is on record, an inactive bridge leaves no key held or unsynchronised, and emitted edges keep their distance. |
| SinkRuns.Perform | native-host/src/keyboard/mod.rs:322-358 | Each operation keeps that invariant. |
| SpacedRuns.RunAndDrain | native-host/src/keyboard/mod.rs:366-453 | Whole runs with spacing - frames, wake-ups, cancels, short writes and errors in any order: the holds are the fold of the accepted frames (each as first offered under its number), a drain afterwards leaves exactly the held keys down unless the last cancel or releasing frame failed, and an OS that takes what it is given makes every step succeed. |
| SpacedRuns.AcceptedFold | native-host/src/keyboard/mod.rs:382-404 | If a number names one frame, as in a session, the holds are those of the accepted frames themselves, retries or not. |
| SpacedRuns.QueueBound | native-host/src/keyboard/mod.rs:72-74 | At most three edges wait per lane, so the queue is bounded. |
| ReceiveWindows.OrderedFrames.Push | native-host/src/protocol.rs:401-427 | The ring refines a map from sequence numbers to frames: the first copy inside the window wins; stale, far-ahead and foreign frames change nothing. |
| ReceiveWindows.PushedMeans | native-host/src/protocol.rs:401-427 | Case by case: a foreign frame without a start and any frame before a demanded start change nothing; a frame of the session is stored if it lies less than 256 ahead and is the first of its number; a start, or the first frame of all, begins the session at its own number. |
| ReceiveWindows.OrderedFrames.NextReady | native-host/src/protocol.rs:429-433 | Ready exactly when the next sequence number is in the window. |
| ReceiveWindows.OrderedFrames.CommitReady | native-host/src/protocol.rs:437-446 | Removes exactly frame `next` and moves the window by one. |
| ReceiveWindows.OrderedFrames.RequireFreshSession | native-host/src/protocol.rs:376-381 | Everything buffered is dropped and only a session start is taken. |
| ReceiveWindows.OrderedFrames.WindowExact | native-host/src/protocol.rs:366-446 | Every buffered frame is the current session's frame of its sequence number, within 256 of `next`. |
| ReceiveWindows.FreshOnly | native-host/src/protocol.rs:401-404 | After that, whatever arrives, nothing is buffered until a session-start frame. |
| ReceiveWindows.SlotsDiffer | native-host/src/protocol.rs:423-426 | Inside one window a slot names one sequence number. |
| Gameplay.GameplayHost.ServeGameplay | native-host/src/v5_host.rs:368-392 | For every loss, repetition and reordering of one session's frames and every pattern of partial or refused submissions: each ACK n is sent when the accepted key changes are exactly those of frames 0..n in order, the accepted changes are always a prefix of the folded plans, and outside discards the kernel was told exactly those changes. If the session opens with frame 0, stays within the window, and enough attempts meet an OS that takes what it is given before a deadline, all frames up to the first that never arrived are committed. A successful final cancel leaves the kernel holding no key, any attempt in time with a willing OS makes it succeed, and the receiver ends empty, demanding a fresh session. |
| Gameplay.GameplayHost.ProcessFrame | native-host/src/v5_host.rs:590-667 | Commit before ACK: after an arrival no consecutive frame is left, and the ACK of everything committed is the last thing sent - or nothing is sent at all, exactly if nothing was committed and the same ACK went out less than 1 ms ago. Enough willing attempts before the deadline and a sendable ACK make the arrival succeed. |
| Gameplay.GameplayHost.ReceiveAll | native-host/src/v5_host.rs:368-392 | The receive loop: the first arrival that fails ends it, with a prefix of the folded plans accepted; in a favourable session none fails. |
| Gameplay.CatchUp | native-host/src/protocol.rs:401-446 | In a favourable session everything that arrived is committed or waits in the window behind a hole. |
| Gameplay.GameplayHost.AcknowledgeOnce | native-host/src/v5_host.rs:623-666 | The duplicate-ACK holdoff: without progress an ACK sent less than 1 ms ago is not repeated and counts as success; every other ACK is sent and remembered. |
| Gameplay.GameplayHost.CommitReady | native-host/src/input.rs:117-159 | Commits the consecutive frames each once and in order, or stops inside one of them with a prefix of its plan accepted; as many willing attempts as there are buffered frames are enough, whatever fails between them before the deadline. |
| Gameplay.GameplayHost.CommitOne | native-host/src/input.rs:123-156 | One frame: all of its plan is accepted before the window moves by one; the first willing attempt before the deadline is enough. |
| Gameplay.GameplayHost.Deliver | native-host/src/input.rs:124-139 | The retry loop hands over the plan once, whatever is refused in between; it ends no later than at the first willing attempt before the deadline, and with success there. |
| Gameplay.Try | native-host/src/input.rs:127-139 | One attempt accepts the next part of the plan; a willing OS finishes it. |
| Gameplay.GameplayHost.CancelWithDeadline | native-host/src/input.rs:65-83 | A cancel that reports success leaves no key held and none unsynchronised; the first willing attempt before the deadline succeeds. |
| Gameplay.GameplayHost.NextFits | native-host/src/keyboard/mod.rs:19-22 | No next frame asks for more changes than its capacity, so an OS that takes that many finishes any frame. |
| Gameplay.GameplayHost.KeysMatchFingers | native-host/src/keyboard/mod.rs:366-453 | Between arrivals a key is recorded as pressed exactly when a pointer of the last committed snapshot holds its lane. |
| Gameplay.StreamStep | native-host/src/input.rs:117-159 | Committing frame n appends exactly its plan to the key stream; a part of it appends that part. |
| Gameplay.StreamGrows | native-host/src/input.rs:117-159 | Committed frames are never taken back from the stream. |
| ReplayWindows.ReplayWindow.WouldAccept | native-host/src/v5.rs:429-441 | True exactly when the number was never committed and lies less than 1,024 below every committed one. |
| ReplayWindows.ReplayWindow.Commit | native-host/src/v5.rs:443-462 | The bitmap then remembers the number and forgets none of the last 1,024. |
| ReplayWindows.ReplayWindow.Shift | native-host/src/v5.rs:464-482 | The in-place, descending multi-word shift moves every bit of the window by the given amount. |
| ReplayWindows.ShiftedMarked | native-host/src/v5.rs:470-481 | Word shift plus bit shift with carry is a shift of the whole bitmap. |
| ReplayWindows.MarkedSet | native-host/src/v5.rs:455-460 | Setting one bit changes no other. |
| ReplayWindows.RecordCipher.Open | native-host/src/v5.rs:342-369 | The window is asked before the tag and updated only after it verified; each error has its own condition. |
| ReplayWindows.RecordCipher.Seal | native-host/src/v5.rs:274-295 | Every attempt below exhaustion burns exactly one number, also when the record does not fit; at exhaustion none is given out. |
| ReplayWindows.OpenAll | native-host/src/v5.rs:342-369 | Over a whole run the bitmap accepts exactly what a receiver with perfect memory would, and no number twice. |
| ReplayWindows.NeverTwice | native-host/src/v5.rs:342-369 | No packet number is accepted twice in any run. |
| Crc.Crc32 | native-host/src/protocol.rs:455-468 | The nested loop computes the register recurrence; that this is CRC-32 and no other checksum is stated by `CrcPolynomial.CrcUnique`. |
| CrcPolynomial.CrcIsRemainder | native-host/src/protocol.rs:455-468 | The complemented checksum is what division by x^32 + x^26 + x^23 + x^22 + x^16 + x^12 + x^11 + x^10 + x^8 + x^7 + x^5 + x^4 + x^2 + x + 1 leaves of the message, lowest bit of each byte first, followed by 32 zero bits and with its first 32 bits complemented. |
| CrcPolynomial.CrcUnique | native-host/src/protocol.rs:455-468 | No other value has that property. |
| CrcPolynomial.RemainderUnique | native-host/src/protocol.rs:455-468 | A division leaves one remainder. |
| CrcPolynomial.CheckValue | native-host/src/protocol.rs:587-589 | The digits 1 to 9 give 0xCBF43926. |
| Crc.BitStepInjective | native-host/src/protocol.rs:459-465 | A bit step loses no information. |
| Crc.RegisterLittle | native-host/src/protocol.rs:455-468 | Four bytes act like one 32-bit number mixed in at once. |
| Crc.RegisterInjective | native-host/src/protocol.rs:455-468 | Equal further bytes never hide a difference. |
| Crc.BurstChangesCrc | native-host/src/protocol.rs:455-468 | A change confined to four consecutive bytes changes the CRC, for messages of any length. |
| Crc.SealedResidue | native-host/src/protocol.rs:241-248 | A record carries its CRC exactly when the register over all of it ends in one fixed value. |
| Crc.BurstBreaksSeal | native-host/src/protocol.rs:241-248 | So a change within four consecutive bytes, also across the CRC field, is always noticed. |
| WireRecords.DecodeFrame | native-host/src/protocol.rs:217-291 | Accepts exactly the records that pass every check in order and repeat no pointer ID; the frame it returns has at most 16 contacts with distinct IDs, read from their offsets; each refusal names the first failing check. |
| PhoneFrames.HearRecord | android-app/app/src/main/java/dev/holodori/trackpad/UdpTransport.java:304-347 | From a version 4 record as the phone writes it the host reads back just the sample: session, number, action, action pointer, lock, start, and per finger the ID, touch and pressure bits and the place. |
| WireRecords.AcceptableMeans | native-host/src/protocol.rs:217-291 | The accepted records byte by byte: magic, version, type, declared length, action, checksum, count and exact size. |
| WireRecords.RefusalOrder | native-host/src/protocol.rs:217-258 | Which check a refusal names: the first that fails, in this order. |
| WireRecords.DiscoveryMeans | native-host/src/protocol.rs:332-347 | The accepted discovery records byte by byte, and where their fields lie. |
| WireRecords.AlteredFrameRejected | native-host/src/protocol.rs:217-291 | An accepted frame changed within any four consecutive bytes is rejected. |
| WireRecords.AlteredByteRejected | native-host/src/protocol.rs:217-291 | An accepted frame with any single byte altered is rejected. |
| WireRecords.DiscoveryRoundTrip | native-host/src/protocol.rs:315-347 | The receiver of a discovery record reads back what the sender encoded. |
| WireRecords.AlteredDiscoveryRejected | native-host/src/protocol.rs:332-347 | A discovery record changed within any four consecutive bytes is rejected. |
| TouchPayloads.DecodeTouchPayload | native-host/src/v5.rs:497-578 | Accepts exactly the payloads that pass every check; action, action pointer, lock and contacts of the frame are those of the payload, session and number those of the record; it starts a session exactly if its number is 0 - then it is a bare, releasing cancel. Each refusal names the first failing check. |
| PhoneFrames.HearPayload | android-app/app/src/main/java/dev/holodori/trackpad/V5Transport.java:326-360 | From a version 5 payload as the phone writes it the host reads back just the sample. |
| PhoneFrames.PlaceSurvives | android-app/app/src/main/java/dev/holodori/trackpad/V5Transport.java:1716-1719 | In and around the play area the place survives to half a ten-thousandth. |
| TouchPayloads.PayloadAcceptableMeans | native-host/src/v5.rs:497-578 | The accepted payloads byte by byte; frame 0 is the bare session start and no other frame starts a session. |
| TouchPayloads.HeaderRefusalOrder | native-host/src/v5.rs:501-528 | Which check a refusal before the contacts names. |
| TouchPayloads.ReadContacts | native-host/src/v5.rs:526-547 | Contacts are read until the first repeated ID or reserved flag, and the error names which of the two and the value. |
| WireRecords.NumberOfBytes | native-host/src/protocol.rs:470-484 | Little-endian numbers survive encoding and decoding. |
| WireRecords.NumberDigit | native-host/src/protocol.rs:470-484 | Byte i of a number is its digit of weight 256 to the i, so the first byte is the least significant. |
| EventQueues.Run | native-host/src/metrics.rs:41-62 | For every interleaving with late but per-thread monotone views: what was observed is a prefix of what was accepted, accepted plus dropped equals offered, and a finished worker has observed everything. |
| EventQueues.EventQueue.WriteSlot | native-host/src/metrics.rs:46-49 | No unread cell is overwritten. |
| EventQueues.EventQueue.NoRace | native-host/src/metrics.rs:41-62 | Producer and consumer never touch the same cell at once, although both indices wrap. |
| EventQueues.EventQueue.Offer | native-host/src/metrics.rs:139-149 | An event is dropped, counted and added to the drop span exactly if the ring is full as the producer last saw it; otherwise a free cell is claimed. |
| EventQueues.EventQueue.Join | native-host/src/metrics.rs:262-274 | After the stop flag the worker ends and has observed every accepted event. |
| EventQueues.EventQueue.CheckStop | native-host/src/metrics.rs:96-101 | Seeing the flag shows every earlier publication, so the last drain is complete. |
| EventQueues.WrappedDistance | native-host/src/metrics.rs:43-44 | The wrapping difference of the indices is the true fill level. |
| EventQueues.WrappedCell | native-host/src/metrics.rs:46-49 | Index wrap-around keeps the cell, because the capacity divides the index range. |
| RoutePolicies.CrashAndRecover | native-host/src/tether_policy/windows.rs:1402-1511 | Crash the program anywhere and any number of recoveries anywhere: the next undisturbed recovery succeeds exactly if no deleted route lacks a confirming gateway - for IPv6, where no gateway is ever configured, exactly if no route with a next hop is gone; then flag and routes are the captured ones (short of an outdated lease; exactly, if every gateway is available) and a further recovery has nothing to do. Without any disturbance an entry is left exactly if some route has a next hop that no configured gateway can confirm. |
| RoutePolicies.RunOnce | native-host/src/tether_policy/windows.rs:330-398 | One run of the program: undisturbed it protects the interface, and its orderly end brings flag and routes back and removes the entry - exactly if no captured route has a next hop without a configured gateway; otherwise, as for every real IPv6 next hop, the entry stays even without a crash. |
| RoutePolicies.UnrecoverableRun | native-host/src/tether_policy/windows.rs:1442-1511 | A concrete IPv6 run: the only default route is captured and deleted, the program dies, and recovery keeps the journal entry and leaves the table empty. |
| RoutePolicies.ApplySnapshot | native-host/src/tether_policy/windows.rs:463-512 | Newer state is left alone: if the table is not the captured one, nothing is deleted or changed. Next to other editors each deleted route is a journaled one and was deleted right after exactly the captured rest had been listed; the journal invariant holds at every crash point. |
| RoutePolicies.DeleteNext | native-host/src/tether_policy/windows.rs:491-510 | A route is deleted only if exactly the expected routes were listed just before; if they are not there, the call fails and the table stays. |
| RoutePolicies.VerifyEnforced | native-host/src/tether_policy/windows.rs:514-558 | Success means the flag is set and no default route is left. |
| RoutePolicies.RestoreRoutes | native-host/src/tether_policy/windows.rs:560-641 | Missing originals with a confirmed gateway come back, and no route through a gateway that is neither in use nor configured is recreated; next to a foreign route nothing is; success means every original is routed or outdated. |
| RoutePolicies.RecreateMissing | native-host/src/tether_policy/windows.rs:595-626 | A route that is there afterwards was there before, is on-link, or has a gateway that was in use just before or is configured: no other gateway comes back. |
| RoutePolicies.RestoreOwnedFlag | native-host/src/tether_policy/windows.rs:921-944 | Only a flag this policy set is cleared. |
| RoutePolicies.RestoreSnapshot | native-host/src/tether_policy/windows.rs:560-643 | The journal entry goes only after routes and flag are back. |
| RoutePolicies.RecoverPolicy | native-host/src/tether_policy/windows.rs:1442-1511 | An absent adapter defers, a live owner blocks, both untouched; otherwise success is characterised by the gateways. |
| RoutePolicies.RecoverPolicies | native-host/src/tether_policy/windows.rs:1402-1436 | All entries recovered means an empty journal; the first error stops with the invariant intact. |
| RoutePolicies.CaptureFamily | native-host/src/tether_policy/windows.rs:408-461 | Older entries are recovered first - and if they can be, undisturbed, the capture succeeds with the originals back - and the new entry describes the interface before anything is touched. |
| RoutePolicies.MissingMeans | native-host/src/tether_policy/windows.rs:700-717 | The reported places are exactly the originals whose key is gone. |
| RoutePolicies.RollbackSuffix | native-host/src/tether_policy/windows.rs:861-881 | Newest first; what cannot be undone stays owned in its old order. |
| RouteJournal.MissingOriginalIndices | native-host/src/tether_policy/windows.rs:700-717 | An answer exists exactly if the current items are a sub-multiset of the originals; then originals = current + missing. |
| RouteJournal.SameMultiset | native-host/src/tether_policy/windows.rs:719-725 | Equality of multisets. |
| LatencySeries.Series.Push | native-host/src/diagnostics.rs:77-92 | Every bin holds exactly the number of samples of its interval; count, sum, maximum and over-budget count agree. |
| LatencySeries.Series.Quantile | native-host/src/diagnostics.rs:94-115 | The interval contains the sample of rank ceil(n * num / den), is cut at the largest sample, and is exact below 32 or narrower than a 32nd of its lower end. |
| LatencySeries.BinExact | native-host/src/diagnostics.rs:79-85 | A value is in a bin exactly when it lies between the bin's ends. |
| LatencySeries.BinInRange | native-host/src/diagnostics.rs:79-85 | No 64-bit value leaves the 2,049 bins. |
| LatencySeries.BinMonotone | native-host/src/diagnostics.rs:79-85 | Larger values never fall into smaller bins. |
| LatencySeries.RankInBin | native-host/src/diagnostics.rs:99-103 | The first bin whose cumulative count reaches the rank holds the sample of that rank. |
| LatencySeries.RankInRange | native-host/src/diagnostics.rs:98-100 | The rank lies between 1 and n, so the loop always finds its bin. |
| LatencySeries.RankedSample | native-host/src/diagnostics.rs:98-103 | A sample of that rank exists. |
| LatencySeries.PhoneRankSame | android-app/app/src/main/java/dev/holodori/trackpad/DiagnosticRecorder.java:265-268 | For counts below 2^63 and 32-bit fractions up to 1 the phone's split rank, computed in wrapping 64-bit arithmetic, is the rounded-up quotient. |
| LatencySeries.PhoneRankFits | android-app/app/src/main/java/dev/holodori/trackpad/DiagnosticRecorder.java:268-268 | Why it divides first: no product or sum on the way reaches 2^63. |
| LatencySeries.PhoneBinSame | android-app/app/src/main/java/dev/holodori/trackpad/DiagnosticRecorder.java:81-87 | Every value below 2^63 falls into the same bin on the phone as on the host, in range and without overflow. |
| LatencySeries.PhoneEndsSame | android-app/app/src/main/java/dev/holodori/trackpad/DiagnosticRecorder.java:273-274 | The phone's interval ends are those of the bin, without overflow up to its last bin. |
| ClockModel.ObserveAll | native-host/src/diagnostics.rs:219-299 | If the offset drifts at most 1 part in 1000 and arrivals are in order, the retained interval holds the offset at every arrival and the model is never reset. |
| ClockModel.Analysis.TransportBounds | native-host/src/diagnostics.rs:219-299 | One exchange, with any timestamps: missing, stale, invalid and inconsistent exchanges are told apart, counted and leave the interval alone, but that an inconsistent one resets it; otherwise the new interval lies within the exchange's own and within the widened fresh one of the session. If the exchange happened, the pair bounds the true forward delay up to the drift during it, and exactly for a constant offset. |
| ClockModel.VerdictMeans | native-host/src/diagnostics.rs:219-254 | Which exchange counts as what, with the two seconds of a round trip and the one second of an interval written out. |
| ClockModel.UncertaintyTight | native-host/src/diagnostics.rs:230-230 | The assumed drift is a thousandth of the span, rounded up to the next nanosecond and no more. |
| ClockModel.ExchangeBounds | native-host/src/diagnostics.rs:225-232 | Causality of one exchange bounds the offset at arrival. |
| ClockModel.WidenedHolds | native-host/src/diagnostics.rs:238-244 | An old interval widened by the elapsed drift still holds the offset. |
| LocalOnlyTether.SetPolicy | tauri-launcher/src-tauri/src/linux_network_manager.rs:438-546 | With editors between any two calls: the writes first replace captured pairs by the requested one and then, in a rollback only, the requested pair by the captured ones, always on the captured profile or device and keeping all other settings; success means all four settings were last read as requested; a clean rollback means both pairs were read back as the originals, or the device is gone. With nobody else editing, an update fails only because a call was not served and it takes two such calls to leave a rollback incomplete; and with the first 14 calls served, the update is left in place exactly if the next is served and the one after it is not. |
| LocalOnlyTether.FinishUpdate | tauri-launcher/src-tauri/src/linux_network_manager.rs:477-545 | Verify, apply, verify again. The update is left in place without a rollback exactly if the persistent re-read gave the requested pair and the device check after it was not served; every other failure rolls back, and an incomplete rollback of settings still ours takes a call that is not served. |
| LocalOnlyTether.LeftAppliedRun | tauri-launcher/src-tauri/src/linux_network_manager.rs:494-494 | A concrete run: fifteen served calls, an unserved device check, and the profile keeps the requested pair. |
| LocalOnlyTether.ApplyAndVerify | tauri-launcher/src-tauri/src/linux_network_manager.rs:501-545 | The second half: applied, read back, and rolled back on any mismatch or error. |
| LocalOnlyTether.WriteProfile | tauri-launcher/src-tauri/src/linux_network_manager.rs:465-476 | The persistent write: a refused one is confirmed as without effect or rolled back. |
| LocalOnlyTether.Rollback | tauri-launcher/src-tauri/src/linux_network_manager.rs:612-704 | Every write replaces a value that is still ours by the captured one; a clean rollback read back the captured persistent pair, and the captured device pair or a missing device. If nobody else edits and both pairs are ours or the captured ones, with the captured routes, only an unserved call keeps the rollback from being clean; a clean one leaves both pairs as captured. |
| LocalOnlyTether.ConfirmOrRollback | tauri-launcher/src-tauri/src/linux_network_manager.rs:706-719 | A failed write is confirmed as without effect, or rolled back, with writes in that direction only; the same two-way promise holds. |
| LocalOnlyTether.ApplyProfile | tauri-launcher/src-tauri/src/linux_network_manager.rs:561-610 | The captured device pair is replaced by the requested one; a value that is neither is left alone. |
| LocalOnlyTether.ResolveTarget | tauri-launcher/src-tauri/src/linux_network_manager.rs:341-436 | Exactly one active tether; both pairs are the values read last, also next to editors, and the actual ones if nobody edits; it then fails only if a call is not served. |
| NetworkManagers.Manager.UpdateProfile | tauri-launcher/src-tauri/src/linux_network_manager.rs:775-865 | The version guard: the write replaces exactly the expected pair and loses no concurrent edit of any other setting. |
| NetworkManagers.Manager.GuardedWrite | tauri-launcher/src-tauri/src/linux_network_manager.rs:790-835 | The version is read before the settings, so the write replaces exactly the expected pair as it then stands and keeps every other setting, or nothing is written. If nobody else edits, it is refused only for another pair or an unserved call. |
| NetworkManagers.Manager.VerifyUpdate | tauri-launcher/src-tauri/src/linux_network_manager.rs:837-864 | The read-back succeeds only if the pair is the desired one, and if nobody else edits it fails on a moved version and the desired pair only because a call was not served. |
| NetworkManagers.Manager.ApplyActive | tauri-launcher/src-tauri/src/linux_network_manager.rs:915-978 | The same for the applied connection of a device. |

## Left out

- Sockets, datagram timing, the handshake, the cipher and D-Bus transport: a
  record is authentic or it is not, a call answers or it does not.
- `LaneFor`: lanes are computed over real numbers; the rounding of 32-bit floats
  at a lane boundary is not modelled.
- Lanes stand for their key codes, which the configuration keeps distinct; the
  key names, the Windows input sink and touch injection are not modelled.
- The fixed arrays of the planner state are sequences reassigned by its methods,
  because the source copies and swaps them as whole values.
- Event counts beyond the request: the file-descriptor layer already rejects
  them, so the arms that guard against them are not modelled.
- `Gameplay.GameplayHost.ServeGameplay`: stated without re-press spacing, where a
  frame's plan and the accepted changes coincide; with spacing the promises are
  those of `SinkRuns.Run` and `SpacedRuns.RunAndDrain`.
- `SlideRuns.SlideGapless`: about pointers that stay down and land on no held
  lane; a finger that lands on a held lane asks for a release in any case.
- The silence timeouts, the stop flag and the interface monitor of the session
  loop: each only ends the session, as a shorter list of arrivals does here.
  Idle pings and host hellos carry no input.
- Pressure, the Y coordinate and the timing fields of a frame: they feed
  diagnostics only.
- Sequence and packet numbers are 64-bit; a session is assumed to send fewer than
  2^64 frames.
- `EventQueues.Run`: memory ordering appears as late but monotone views of the
  two indices and of the stop flag; a finer memory model is not used. A target
  with 64-bit indices is assumed.
- `ReplayWindows.ReplayWindow.Shift`: a word is its 64 bits; the machine shifts
  and logical operations are defined bit by bit.
- `LatencySeries.Series.Push`: counters are unbounded, and the over-budget count
  and the sum are stated per step only. The phone's saturating sum and its own
  event ring are not modelled.
- Incident clustering, report texts, the launcher user interface, credential
  storage and the legacy version 4 loop.
- `RoutePolicies.CrashAndRecover`: one interface and family, whose routes are
  told apart by next hop, as the interface keeps them; nobody else edits it.
  What holds next to other editors is stated by `RoutePolicies.ApplySnapshot`.
- The identity of a tether adapter (GUID, LUID, MAC): whether the captured one is
  present is a parameter, and any read of it may fail.
- Encoding of the journal and the registry calls behind it: writing an entry and
  removing one are single steps.
- `LocalOnlyTether.SetPolicy`: the routes of a device do not react to the writes
  of the update itself; a change the kernel makes to them counts as an edit by
  somebody else.
- `LocalOnlyTether.ResolveTarget`: the daemon's version and the textual checks on
  interface names, paths and UUIDs are not modelled.
