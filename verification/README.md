# Verified model of the MIZU firmware components

This project models the hardware-independent core of a small embedded C11 code base and proves its central
properties for all inputs, all histories and all interleavings. `dafny verify dfyconfig.toml` checks everything.

| files | component |
|---|---|
| `CobsFormat`, `Cobs` | the byte-stuffing codec: the meaning of a block, and the in-place encoder and decoder |
| `SchedulerSort`, `Scheduler`, `SchedulerHistory` | the cooperative scheduler: heap sort, update and run, conservation over histories |
| `ParameterSpec`, `ParameterService` | typed parameters: clamped arithmetic, registration, access through owners |
| `MenuSpec`, `MenuLaws`, `Menu` | the menu state machine over registered parameters and commands, and what each event and whole edits do |
| `Fifo`, `FifoInterleaving` | the two-cursor byte FIFO, called in sequence and interleaved byte by byte |
| `SnapshotSpec`, `SnapshotLaws`, `SnapshotBuffer` | the double-slot snapshot buffer with identity-bound credentials |
| `BlockRing`, `FixedQueue` | the queue of fixed-size elements over flat storage, and its statistics |
| `QueuePortSpec`, `QueuePortInterleaving`, `QueuePortOrder`, `QueuePortCalls`, `QueuePortAnswers`, `QueuePort` | the blocking queue port with many clients, and the waiter |
| `ObjectPool` | the pool that lends its least free slot |
| `Polynomials`, `CrcAlgorithm`, `CrcTheory` | what a bitwise checksum computes: remainders of polynomials over the field of two elements |
| `BitOrders`, `Crc8`, `Crc16`, `Crc32`, `CrcConformance` | the three checksums as instances, and their published check values |
| `Runs`, `Statuses` | induction along a run; status codes, integer ranges, facts about division |

Each stateful component comes in layers. A specification module gives one operation as a function on values. A
class holds the C structure's fields, and its methods follow the C code and are proved to take the object from
one value to the value of that function. A safety or history module then proves what any sequence of operations
keeps, and where several parties act at once, what any interleaving keeps. Over the states that are kept, laws say
what each operation decides, which error it returns otherwise, and what it leaves behind, without naming the
function that performs it.

Conventions of the model:

- C integers are ranges of the unbounded integers, so every sum, product and cast is shown to fit where the C code
  relies on it and is reduced modulo its width where the C code wraps. The width of `size_t` is a parameter
  (`sizeMax`); the codec asks for at least the 65535 that ISO C11, section 7.20.3, guarantees.
- Every index into an array or sequence is shown to be within its bounds, and every loop to end.
- Calls to code that is not part of a component (callbacks, getters, setters, command handlers, the critical
  section and the wait port) answer through parameters, and nothing is assumed about the answers.
- Pointers to distinct objects are distinct references; where the C code permits exact aliasing (decoding in place,
  scaling a cached step) the model does too.

Where the code and its documentation differ, the model follows the code:

- `services/parameter/parameter.h:123-125` describes adjusted values as clamped into the parameter's range. For a
  bool the bounds are ignored, so a bool whose bounds coincide leaves them (`ParameterSpec.AdjustStaysInRange`,
  `MenuSafety.EscapedDraft`).
- The queue port takes its write index as `(head + size) % capacity`. For a queue of single bytes with a capacity
  above half of the range of `size_t` the sum wraps, and the element does not land behind the last one. Such a port
  is a queue, over all runs, if and only if 2 * capacity - 2 <= SIZE_MAX (`QueuePortOrder.OrderIsKept`); init implies
  that for larger elements (`QueuePortSpec.LargerElementsFit`).

The three checksums yield the published check values for the digits 1 to 9: 0xF4, 0x29B1 and 0xCBF43926
(`CrcConformance.CheckValues`).

## Model

| member | source | states |
|---|---|---|
| CobsFormat.RoundTrip | archive/legacy_src/libraries/cobs/src/cobs.c:107-185 | decoding the encoding of any byte sequence succeeds and gives exactly that sequence, whatever its length and wherever its zeros and 254-byte borders fall |
| CobsFormat.EncodedHasNoZero | archive/legacy_src/libraries/cobs/src/cobs.c:107-141 | an encoding contains no zero byte |
| CobsFormat.EncodedLengthBound | archive/legacy_src/libraries/cobs/src/cobs.c:43-55 | the encoding of n bytes has n + 1 bytes plus one per full 254-byte run of its zero-free segments; this is at most n + n/254 + 1, and zero-free inputs of every length reach the maximum |
| CobsFormat.EncodedLength | archive/legacy_src/libraries/cobs/src/cobs.c:107-141 | the exact length of an encoding, also with an open run already collected |
| CobsFormat.EncoderRange | archive/legacy_src/libraries/cobs/src/cobs.c:107-141 | a block is an encoding if and only if it is well formed, zero-free and does not end with a full run (this encoder emits a trailing 0x01 after a final full run) |
| CobsFormat.ReencodingRestores | archive/legacy_src/libraries/cobs/src/cobs.c:66-185 | decoding and re-encoding an accepted block restores it if and only if it is zero-free and its last code is not 255 |
| CobsFormat.DecodedShrinks | archive/legacy_src/libraries/cobs/src/cobs.c:66-94 | a decoded block is strictly shorter than its encoding |
| CobsFormat.DecodedMalformed | archive/legacy_src/libraries/cobs/src/cobs.c:66-94 | a block has no meaning exactly when a code byte is missing, zero, or reaches behind the end |
| CobsFormat.EncodedSegment | archive/legacy_src/libraries/cobs/src/cobs.c:107-141 | a zero-free segment of fewer than 254 bytes is written as its length plus one and its bytes, and the zero behind it is implied |
| CobsFormat.EncodedFullRun | archive/legacy_src/libraries/cobs/src/cobs.c:107-141 | 254 bytes without a zero are written as 255 and these bytes, with no zero implied |
| Cobs.MaxEncodedSizeIsLeast | archive/legacy_src/libraries/cobs/src/cobs.c:43-55 | cobs_max_encoded_size announces the least capacity that holds the encoding of every input of that length |
| Cobs.DecodedByIndex | archive/legacy_src/libraries/cobs/src/cobs.c:66-94 | going through a block by position gives what the format says it means |
| Cobs.DecodedSize | archive/legacy_src/libraries/cobs/src/cobs.c:66-94 | the validity pass accepts exactly the blocks that have a meaning and reports the exact decoded size; its overflow exit is never taken |
| Cobs.EncodeByte | archive/legacy_src/libraries/cobs/src/cobs.c:121-137 | one round of the encoder, with the code byte of the open run still unwritten, leads from one stage of the finished encoding to the next |
| Cobs.EncodeBlock | archive/legacy_src/libraries/cobs/src/cobs.c:107-141 | the loop with the back-patched code byte writes exactly the encoding and leaves every byte behind it alone |
| Cobs.Encode | archive/legacy_src/libraries/cobs/src/cobs.c:107-141 | status, reported size and whole output array: the encoding followed by the old bytes, or nothing written on failure |
| Cobs.DecodeRun | archive/legacy_src/libraries/cobs/src/cobs.c:168-182 | one round of the decoder within one array or between two: the write position never overtakes the read position |
| Cobs.Decode | archive/legacy_src/libraries/cobs/src/cobs.c:155-185 | the decoder writes exactly the announced bytes and nothing else, and input and output may be one and the same array |
| Cobs.EncodeThenDecodeInPlace | archive/legacy_src/libraries/cobs/src/cobs.c:107-185 | encoding into a buffer and decoding that buffer in place gives the input back |
| SchedulerSort.FollowsByRank | services/scheduler/scheduler.c:29-37 | the comparison of two slots is the order of (priority, id) |
| SchedulerSort.HeapRootIsMaximal | services/scheduler/scheduler.c:66-76 | the first slot of a heap ranks at least as high as every other one |
| SchedulerSort.SiftDown | services/scheduler/scheduler.c:47-64 | sifting the slot at start makes start..count a heap, permutes the slots and touches nothing from count on |
| SchedulerSort.SortSlots | services/scheduler/scheduler.c:66-76 | the in-place heap sort terminates with a permutation of the slots in dispatch order |
| SchedulerSpec.SortedFreshTable | services/scheduler/scheduler.c:100-138 | after init every task id has exactly one slot and the slots are strictly increasing by (priority, id) |
| Scheduler.ConfigAccepted | services/scheduler/scheduler.c:78-98 | a configuration is accepted exactly when every task has a callback and a period of 1 to INT32_MAX ticks |
| Scheduler.FirstFaultDecides | services/scheduler/scheduler.c:78-98 | the first faulty task decides the status: INVALID_ARGUMENT without a callback, OUT_OF_RANGE for its period |
| Scheduler.Scheduler.Init | services/scheduler/scheduler.c:100-138 | status in every case; on success a sorted permutation of fresh slots for ids 0..n-1, on failure nothing changed |
| Scheduler.Scheduler.UpdateSlot | services/scheduler/scheduler.c:160-178 | the loop body of update on one slot, without 32-bit overflow |
| Scheduler.Scheduler.Update | services/scheduler/scheduler.c:140-181 | one update is the ideal update of every slot, refused exactly for a gap above INT32_MAX ticks, and the table stays valid |
| Scheduler.Scheduler.Run | services/scheduler/scheduler.c:183-212 | one run invokes exactly the tasks that were ready at entry, in slot order despite errors, and returns the first status other than OK |
| Scheduler.Scheduler.GetStats | services/scheduler/scheduler.c:214-245 | for every known id the search finds that id's own slot after sorting, and returns its counters, last trigger and last status, each in its place |
| SchedulerSpec.ReadyIdsInOrder | services/scheduler/scheduler.c:183-212 | the invoked tasks are the ready ones, once each, in (priority, id) order |
| SchedulerSpec.FirstErrorIsFirst | services/scheduler/scheduler.c:200-211 | the returned status is OK only if all callbacks returned OK, and otherwise that of the first failing callback |
| SchedulerSpec.UpdateKeepsValid | services/scheduler/scheduler.c:140-181 | an update keeps one slot per task, their order, and less than a period in hand |
| SchedulerSpec.RunKeepsValid | services/scheduler/scheduler.c:183-212 | a run keeps the same |
| SchedulerHistory.HistoryStaysValid | services/scheduler/scheduler.c:100-212 | every state that any history of updates and runs reaches is valid |
| SchedulerHistory.UpdateBalances | services/scheduler/scheduler.c:160-178 | one update keeps a slot equal to the closed form of its ledger: remainder, pending flag and saturated counters |
| SchedulerHistory.RunBalances | services/scheduler/scheduler.c:190-209 | one run keeps it too |
| SchedulerHistory.HistoryBalances | services/scheduler/scheduler.c:140-212 | over any history every field of every slot is a closed form of the accepted ticks and the runs |
| SchedulerHistory.RunsAreInvocations | services/scheduler/scheduler.c:183-212 | over any history the runs that find a task due are exactly the runs that invoke it, and so for the failing ones |
| SchedulerHistory.MissedIsLedger | services/scheduler/scheduler.c:160-178 | the missed periods, counted update by update as every boundary passed while due and every one but the first otherwise, are the periods that were neither run nor are pending |
| SchedulerHistory.Conservation | services/scheduler/scheduler.c:140-212 | over any history: accepted ticks = elapsed ticks + period * (invocations + missed periods + pending), where invocations and missed periods are counted event by event without a cap, and each stored counter is its count capped at UINT32_MAX |
| SchedulerHistory.StatsCount | services/scheduler/scheduler.c:214-245 | over any history the statistics of a task are the number of its invocations, of those that failed, and of its missed periods, each capped at UINT32_MAX, and the outcome of its latest invocation |
| SchedulerHistory.SlotRemembers | services/scheduler/scheduler.c:190-209 | over any history a slot holds what its task returned when it was last invoked, and OK before |
| SchedulerHistory.UpdateRefused | services/scheduler/scheduler.c:140-159 | an update is refused exactly when the true time since the last sample, modulo 2^32, is above INT32_MAX |
| SchedulerHistory.AcceptedIsElapsed | services/scheduler/scheduler.c:140-159 | across tick wrap-arounds the accepted ticks never exceed the elapsed time, and equal it if and only if no two consecutive samples are more than INT32_MAX apart |
| MenuSpec.MoveIsModular | services/menu/menu.c:258-268 | moving a selection is addition modulo the number of entries for every int32 amount, including INT32_MIN |
| MenuTree.TreeAccepted | services/menu/menu.c:80-165 | init accepts exactly the trees whose entries are titled, bound to existing writable parameters or existing commands, and unique |
| MenuTree.WellBuiltMeans | services/menu/menu.c:55-165 | such a tree is one whose entries have titles, content and usable items, and in which no two items or entries of a kind have the same id |
| MenuTree.FaultyHead | services/menu/menu.c:129-165 | the first fault decides: an entry without title or content, or with an id that is taken, is INVALID_ARGUMENT |
| MenuTree.FaultyItem | services/menu/menu.c:80-127 | the first fault decides: an item whose id is not registered is OUT_OF_RANGE, one that is read-only or bound already INVALID_ARGUMENT |
| Menu.MenuService.BindingExists | services/menu/menu.c:55-78 | the search finds an earlier item bound to the same parameter or command if and only if there is one |
| Menu.MenuService.ValidateItem | services/menu/menu.c:80-127 | the check of one item against the registered parameters and commands |
| Menu.MenuService.ValidateRoots | services/menu/menu.c:129-165 | the first fault in the order of the tree is returned |
| Menu.MenuService.InitializeSteps | services/menu/menu.c:192-208 | the k-th cached step is the registered step of the k-th parameter over all groups |
| Menu.MenuService.FindStepIndex | services/menu/menu.c:300-328 | the position returned for a parameter is the one at which its step was cached |
| Menu.MenuService.Init | services/menu/menu.c:210-256 | status in every case; on success the initial menu over a well-built tree, on failure nothing changed |
| MenuSafety.InitialInv | services/menu/menu.c:210-256 | the initial menu satisfies the invariant |
| MenuSafety.StepKeepsInv | services/menu/menu.c:608-633 | every event keeps the invariant whatever the getter, the setter and the command handler return |
| MenuSafety.EditKeepsInv | services/menu/menu.c:469-540 | the parameter editor keeps it: the cached step and the draft belong to the selected parameter |
| MenuSafety.StepEditKeepsInv | services/menu/menu.c:542-574 | the step editor keeps every cached step within 1..(maximum - minimum) |
| MenuSafety.ReachableInv | services/menu/menu.c:608-633 | after any sequence of events selections are in range, the selected entry fits the mode, and every cached step fits its parameter |
| MenuSafety.ReachableDrafts | services/menu/menu.c:469-574 | in both editors the step index names the selected parameter, and the draft has its type and lies within its bounds, unless it is a bool whose bounds coincide |
| MenuSafety.EscapedDraft | services/parameter/parameter.c:401-412 | that exception happens: one adjustment takes such a bool out of its bounds, no further adjustment moves it, and committing it never reaches the setter |
| MenuSafety.SetterDiscipline | services/menu/menu.c:495-534 | the setter is called exactly when ACTIVATE in the parameter editor has just read back the value that was shown and the draft is admissible, once, with the draft |
| MenuSafety.OwnersReceiveProperCalls | services/menu/menu.c:469-540 | over every run, whatever the owners answer, each value sent to a setter belongs to a writable parameter, lies within its bounds, and directly follows a read of the same parameter |
| MenuSafety.HandlerDiscipline | services/menu/menu.c:371-387 | a command handler is called exactly by ACTIVATE on a command that needs no confirmation or in the confirmation, once |
| MenuSafety.ExecutedOncePerConfirmation | services/menu/menu.c:441-467 | over any run a command that requires confirmation is executed once per confirmation and never otherwise |
| MenuTree.OneItemDecides | services/menu/menu.c:55-78 | as bindings are unique, the one item bound to a command decides whether that command is always confirmed |
| MenuSafety.RefusedChangesNothing | services/menu/menu.c:420-606 | an event with a status other than OK changes neither navigation, drafts, steps nor feedback, and calls no owner |
| MenuSafety.StepScalingNeverFails | services/menu/menu.c:542-574 | ADJUST_STEP by -1, 0 or 1 never fails in the step editor; every other amount is INVALID_ARGUMENT |
| MenuSafety.BackUndoesStepEditing | services/menu/menu.c:566-571 | BACK after any step editing restores the whole menu as it was before the step editor was opened |
| MenuSafety.StepEditingIsLocal | services/menu/menu.c:542-574 | while the step editor is open nothing but the one cached step changes |
| MenuLaws.StatusOfEvent | services/menu/menu.c:420-633 | which events each mode accepts, and the status of every other one |
| MenuLaws.RootEvents | services/menu/menu.c:420-439 | at the top a selection moves modulo the entries, and ACTIVATE opens a group at its first item or a page at its first subpage; nothing else changes |
| MenuLaws.GroupMoves | services/menu/menu.c:441-453 | in a group a selection moves modulo its items, and BACK returns to the top |
| MenuLaws.PageEvents | services/menu/menu.c:590-606 | subpages are turned modulo their number, and BACK returns to the top |
| MenuLaws.CommandEvents | services/menu/menu.c:371-387 | ACTIVATE asks first or runs the command; what its handler returned is shown for the configured time |
| MenuLaws.EnterEvent | services/menu/menu.c:389-418 | an edit starts with the value just read as draft and original, at the position of the selected parameter; a failed read is shown with its status and starts nothing |
| MenuLaws.AdjustEvent | services/menu/menu.c:480-492 | the draft of an integer moves by amount times the cached step, clamped to the bounds over unbounded integers, and nothing else changes |
| MenuLaws.AdjustBoolEvent | services/menu/menu.c:480-492 | the draft of a bool follows the sign of the amount; one outside its bounds stays, and OUT_OF_RANGE is shown |
| MenuLaws.CommitEvents | services/menu/menu.c:493-537 | the five ways a commit ends: unreadable, changed by its owner, out of bounds, refused by the setter, applied; each with calls, report and whole menu |
| MenuLaws.OpenEvent | services/menu/menu.c:493-501 | the step editor opens with the cached step as backup |
| MenuLaws.ScaleEvent | services/menu/menu.c:560-563 | scaling changes the one cached step, by a decade within 1 and the range |
| MenuLaws.CloseEvents | services/menu/menu.c:564-572 | ACTIVATE keeps the edited step, BACK puts the backup back |
| MenuLaws.ScalingSession | services/menu/menu.c:542-574 | any stay in the step editor leaves the step scaled by its usable amounts, one after the other, and nothing else |
| MenuLaws.EditedStepIsUsed | services/menu/menu.c:480-574 | opening the step editor, any scalings and ACTIVATE leave exactly the scaled step in the cache, and the draft moves next by that step |
| MenuLaws.EditReachesOwner | services/menu/menu.c:389-540 | a whole edit of an integer: the setter receives, once, the value read at entry moved by all adjustments with their clamps, and the menu is back in the group with APPLIED |
| Menu.MenuService.HandleEvent | services/menu/menu.c:608-633 | the object's event handling is the step of the state machine, keeps the invariant and never rebinds its parts |
| Menu.MenuService.Commit | services/menu/menu.c:495-534 | the optimistic commit: read, compare with the value shown, write, report |
| Menu.MenuService.HandleStepEdit | services/menu/menu.c:542-574 | steps are scaled in place in the borrowed cache |
| MenuSafety.FeedbackExpires | services/menu/menu.c:635-647 | feedback that an event reports at time t is gone when the menu is processed at t + e (mod 2^32) if and only if the wrapping time since its deadline is below 2^31: for e below duration + 2^31, if and only if the duration has passed; processing changes nothing else |
| MenuSafety.ProcessedInTime | services/menu/menu.c:635-647 | whatever is shown with a deadline d after time t is shown at t + e exactly for e below d |
| ParameterSpec.ValidMeans | services/parameter/parameter.c:106-168 | a descriptor is valid exactly when its fields agree in type, the bounds are ordered and one positive step fits into a nonzero range |
| ParameterSpec.DescriptorFault | services/parameter/parameter.c:106-168 | a refused descriptor is INVALID_DATA exactly for mixed types, and else INVALID_ARGUMENT |
| ParameterSpec.AdjustClamps | services/parameter/parameter.c:348-478 | adjusting an int32 or uint32 is clamping value + step * count over unbounded integers for every int32 count, and the refused inputs are characterised |
| ParameterSpec.IntermediatesFit | services/parameter/parameter.c:348-399 | for every value, step and count the signed sum fits into int64_t and the unsigned product into uint64_t; the largest product, 2^31 * UINT32_MAX, is attained at INT32_MIN |
| ParameterSpec.AdjustBoolSelects | services/parameter/parameter.c:401-412 | a bool becomes the sign of the count; zero leaves it alone |
| ParameterSpec.AdjustStaysInRange | services/parameter/parameter.c:401-412 | every adjustment stays within the bounds if and only if the parameter is not a bool whose bounds coincide |
| ParameterSpec.AdjustmentsCompose | services/parameter/parameter.c:348-399 | two adjustments equal one by the sum of the counts exactly when the first is not cut off, the second goes the same way, or it runs through to the other bound |
| ParameterSpec.AdjustFault | services/parameter/parameter.c:414-478 | the status of every refused adjustment |
| ParameterSpec.ScaleKeepsStepsValid | services/parameter/parameter.c:480-567 | scaling accepts exactly the runtime steps of writable parameters and yields a runtime step: a decade up or down within 1..range |
| ParameterSpec.ScaleFault | services/parameter/parameter.c:480-511 | the status of every refused scaling |
| ParameterSpec.ReadingDecides | services/parameter/parameter.c:569-592 | the getter's own error is returned as it is; a value of another type or out of bounds is INVALID_DATA; read-only parameters can be read |
| ParameterSpec.WriteDecides | services/parameter/parameter.c:594-620 | a value may be sent to the setter exactly when the parameter is writable, the type is right and the bounds are kept, and the status of each refusal |
| ParameterRegistry.TableAccepted | services/parameter/parameter.c:226-287 | registration accepts exactly the tables with globally unique ids, valid descriptors, at most 64 parameters and readable current values in range |
| ParameterRegistry.FaultyHead | services/parameter/parameter.c:226-270 | the first fault decides, in the head of a group: too many parameters are OUT_OF_RANGE, anything else INVALID_ARGUMENT |
| ParameterRegistry.FaultyEntry | services/parameter/parameter.c:253-280 | the first fault decides, at a parameter: its descriptor, an id that is taken, or what its getter answers |
| ParameterRegistry.LookupUnique | services/parameter/parameter.c:187-209 | in a registered table an id names exactly one position |
| ParameterService.ParameterService.IdExists | services/parameter/parameter.c:170-185 | the search over all earlier groups and the earlier parameters of this one finds an equal id if and only if there is one |
| ParameterService.ParameterService.Init | services/parameter/parameter.c:226-287 | the first fault in the order of the table is returned, and on failure nothing is bound |
| ParameterService.ParameterService.Find | services/parameter/parameter.c:187-209 | the descriptor with that id, or OUT_OF_RANGE exactly if there is none |
| ParameterService.ParameterService.SetById | services/parameter/parameter.c:594-620 | the setter receives the value exactly when the id is registered, the parameter is writable and the value has its type and lies in its bounds; the status of each refusal |
| ParameterService.ParameterService.AdjustById | services/parameter/parameter.c:622-653 | the owner is sent the clamped sum of the value just read and the steps; only a bool whose bounds exclude the new value is refused |
| ParameterService.AdjustmentMeans | services/parameter/parameter.c:622-653 | case by case: when an adjustment is refused and with which status, and otherwise what the owner receives |
| FifoSpec.WrittenWindow | libraries/mizu_fifo/mizu_fifo.c:63-93 | copying n bytes in behind count queued ones extends the queue by exactly these bytes |
| FifoSpec.WindowSplit | libraries/mizu_fifo/mizu_fifo.c:95-125 | reading n bytes takes exactly the head of the queue |
| Fifo.CopyIn | libraries/mizu_fifo/mizu_fifo.c:78-90 | the two copy loops of the write, around the end of the storage |
| Fifo.Fifo.Write | libraries/mizu_fifo/mizu_fifo.c:63-93 | all bytes are appended, or the queue is FULL and nothing changes |
| Fifo.Fifo.Read | libraries/mizu_fifo/mizu_fifo.c:95-125 | the oldest bytes are removed and delivered, or the queue is too short and nothing changes |
| FifoInterleaving.NeverOverwrites | libraries/mizu_fifo/mizu_fifo.c:63-93 | the slot written next holds no unread byte and no byte of the write in progress |
| FifoInterleaving.DoKeepsInv | libraries/mizu_fifo/mizu_fifo.c:63-125 | every single step of a producer or a consumer keeps accepted bytes = delivered bytes + pending bytes |
| FifoInterleaving.HistoriesGrow | libraries/mizu_fifo/mizu_fifo.c:63-125 | no step of any interleaving takes back an accepted or delivered byte |
| FifoInterleaving.DeliveredIsPrefix | libraries/mizu_fifo/mizu_fifo.c:63-125 | over every interleaving what is delivered by one step is a prefix of what is accepted by any later step, a read in progress holds the next bytes, and fewer bytes than the storage has are in between |
| FifoInterleaving.CallsAdmitted | libraries/mizu_fifo/mizu_fifo.c:63-125 | a write is admitted exactly when its bytes fit beside the pending ones with a slot to spare, a read exactly when so many are pending |
| FifoInterleaving.UninterruptedWrite | libraries/mizu_fifo/mizu_fifo.c:63-93 | the steps of a write that is not interrupted end where the sequential write does |
| FifoInterleaving.UninterruptedRead | libraries/mizu_fifo/mizu_fifo.c:95-125 | the steps of a read that is not interrupted end where the sequential read does |
| SnapshotHistory.DoKeepsInv | archive/legacy_src/libraries/snapshot_buffer/src/snapshot_buffer.c:85-338 | every operation, with corrupted credentials too, keeps: a live writer's slot is neither published nor read, and slots that are published or read hold a published frame |
| SnapshotHistory.PublishKeepsInv | archive/legacy_src/libraries/snapshot_buffer/src/snapshot_buffer.c:166-194 | so does a publication |
| SnapshotHistory.HistoryKeepsInv | archive/legacy_src/libraries/snapshot_buffer/src/snapshot_buffer.c:85-338 | hence every state of every history, re-initialisations included |
| SnapshotHistory.SequencesCountPublications | archive/legacy_src/libraries/snapshot_buffer/src/snapshot_buffer.c:166-194 | the k-th successful publication since the latest init carries sequence k |
| SnapshotHistory.ActiveIsLatest | archive/legacy_src/libraries/snapshot_buffer/src/snapshot_buffer.c:234-338 | what copy and acquire hand out is the latest published frame |
| SnapshotHistory.LeaseIsStable | archive/legacy_src/libraries/snapshot_buffer/src/snapshot_buffer.c:234-296 | while a lease is registered no operation changes the bytes or metadata of its slot, and only its own release ends it |
| SnapshotHistory.LeaseLasts | archive/legacy_src/libraries/snapshot_buffer/src/snapshot_buffer.c:234-296 | from acquire on, an untouched lease keeps naming the frame it was given, and releasing it succeeds |
| SnapshotLaws.WriterAdmitted | archive/legacy_src/libraries/snapshot_buffer/src/snapshot_buffer.c:113-138 | in every reachable state a writer is admitted exactly when no writer is live and every registered lease is on the published slot |
| SnapshotLaws.WriterGetsSpareSlot | archive/legacy_src/libraries/snapshot_buffer/src/snapshot_buffer.c:130-137 | it gets the slot that is not published, slot 0 at first, and nothing else changes |
| SnapshotLaws.WriterBesideReader | archive/legacy_src/libraries/snapshot_buffer/src/snapshot_buffer.c:113-261 | while one reader holds the latest frame a writer can begin, in the other slot |
| SnapshotLaws.PublishDecides | archive/legacy_src/libraries/snapshot_buffer/src/snapshot_buffer.c:166-194 | the status of every publication: credential, size, sequence number |
| SnapshotLaws.PublishAppends | archive/legacy_src/libraries/snapshot_buffer/src/snapshot_buffer.c:187-193 | the published frame is what the writer stored, with the next sequence number; slots, leases and the other frame stay |
| SnapshotLaws.CancelDecides | archive/legacy_src/libraries/snapshot_buffer/src/snapshot_buffer.c:205-223 | a writer cancels exactly with its own intact credential, and published and read slots stay |
| SnapshotLaws.CancelUndoesBegin | archive/legacy_src/libraries/snapshot_buffer/src/snapshot_buffer.c:113-223 | cancelling at once gives back the buffer of before, but for the note which slot was lent last |
| SnapshotLaws.AcquireDecides | archive/legacy_src/libraries/snapshot_buffer/src/snapshot_buffer.c:234-261 | the status of every acquisition, and the lease names the latest frame |
| SnapshotLaws.ReleaseDecides | archive/legacy_src/libraries/snapshot_buffer/src/snapshot_buffer.c:272-296 | a lease is taken back exactly when it is registered and intact; only its own registration ends |
| SnapshotLaws.CopyDecides | archive/legacy_src/libraries/snapshot_buffer/src/snapshot_buffer.c:311-338 | a copy succeeds exactly when there is a frame and room for its bytes |
| SnapshotLaws.InitDecides | archive/legacy_src/libraries/snapshot_buffer/src/snapshot_buffer.c:87-102 | a buffer is initialised exactly when no credential is out, and then has nothing to read |
| SnapshotBuffer.Buffer.Begin | archive/legacy_src/libraries/snapshot_buffer/src/snapshot_buffer.c:113-138 | status and whole new state of a begin; the credential names the spare slot, or nothing changes |
| SnapshotBuffer.Buffer.Publish | archive/legacy_src/libraries/snapshot_buffer/src/snapshot_buffer.c:166-194 | status and whole new state of a publication, by object identity and content of the credential |
| SnapshotBuffer.Buffer.Acquire | archive/legacy_src/libraries/snapshot_buffer/src/snapshot_buffer.c:234-261 | status and whole new state of an acquisition |
| SnapshotBuffer.Buffer.Release | archive/legacy_src/libraries/snapshot_buffer/src/snapshot_buffer.c:272-296 | only the registered object with its original content is taken back |
| SnapshotBuffer.Buffer.Copy | archive/legacy_src/libraries/snapshot_buffer/src/snapshot_buffer.c:311-338 | the latest frame is copied whole, or nothing is written |
| BlockRing.PushedAppends | archive/legacy_src/libraries/fixed_queue/src/fixed_queue.c:126-176 | writing the slot behind the last element appends one element and changes no other |
| BlockRing.PoppedDrops | archive/legacy_src/libraries/fixed_queue/src/fixed_queue.c:126-176 | advancing the head drops exactly the oldest element |
| FixedQueueSpec.PushIsBounded | archive/legacy_src/libraries/fixed_queue/src/fixed_queue.c:126-176 | a push appends exactly the first min(count, free) elements; status, high-water mark and rejection counter follow |
| FixedQueueSpec.PopIsBounded | archive/legacy_src/libraries/fixed_queue/src/fixed_queue.c:126-176 | a pop removes exactly the first min(count, size) elements and touches no statistics |
| FixedQueueHistory.HistoryConserves | archive/legacy_src/libraries/fixed_queue/src/fixed_queue.c:126-176 | over every history: removed is a prefix of accepted and the queue holds the rest, the high-water mark is the largest size ever, the rejection counter is the saturated number of pushes not accepted in full |
| FixedQueue.FixedQueue.Init | archive/legacy_src/libraries/fixed_queue/src/fixed_queue.c:91-109 | status in every case, and an empty queue over untouched storage |
| FixedQueue.FixedQueue.PushSome | archive/legacy_src/libraries/fixed_queue/src/fixed_queue.c:208-212 | the loop over flat storage performs the push of the abstract queue |
| FixedQueue.FixedQueue.PopSome | archive/legacy_src/libraries/fixed_queue/src/fixed_queue.c:244-248 | the loop delivers the removed elements in order, bytes behind them untouched |
| FixedQueue.FixedQueue.PeekAt | archive/legacy_src/libraries/fixed_queue/src/fixed_queue.c:261-279 | the i-th element behind the head is copied, or OUT_OF_RANGE exactly if there is none |
| QueuePortSpec.WriteSlotIsNext | archive/legacy_src/services/queue_port/src/queue_port.c:109-120 | the write index is the slot behind the last element exactly when head + size does not wrap in size_t |
| QueuePortSpec.EveryPushIsNext | archive/legacy_src/services/queue_port/src/queue_port.c:109-120 | for every head and size this holds if and only if 2 * capacity - 2 <= SIZE_MAX |
| QueuePortSpec.EveryElementIsAppended | archive/legacy_src/services/queue_port/src/queue_port.c:109-120 | a push appends every element if and only if head + size <= SIZE_MAX: otherwise the slot behind the last element keeps its old bytes |
| QueuePortSpec.LargerElementsFit | archive/legacy_src/services/queue_port/src/queue_port.c:237-269 | init itself guarantees the condition for elements of two or more bytes |
| QueuePortSpec.TryMovesOne | archive/legacy_src/services/queue_port/src/queue_port.c:109-219 | the status of one attempt in every case; it takes in the given element or takes out the oldest one exactly when it returns OK, and otherwise changes nothing; the given element goes behind all others if head + size does not wrap |
| QueuePortInterleaving.DoKeepsInv | archive/legacy_src/services/queue_port/src/queue_port.c:109-219 | every locked section, wake-up and lifecycle call of any number of clients keeps handed in = taken out + queued, by number on every port and by content and order where no index sum can wrap, and the waiters' states |
| QueuePortInterleaving.PoppedIsPrefix | archive/legacy_src/services/queue_port/src/queue_port.c:109-219 | over every interleaving from any freshly initialized port: what was handed in and not taken out is queued, at most capacity elements, every returned call is fine, and where no index sum can wrap what was taken out is a prefix of what was handed in, in lock order |
| QueuePortOrder.WrapIsReached | archive/legacy_src/services/queue_port/src/queue_port.c:109-120 | from a freshly initialized port some run reaches a state with room in which head + size wraps if and only if 2 * capacity - 2 > SIZE_MAX |
| QueuePortOrder.OrderIsLost | archive/legacy_src/services/queue_port/src/queue_port.c:109-144 | on every such port there is a run that takes out an element before one that was handed in earlier |
| QueuePortOrder.OrderIsKept | archive/legacy_src/services/queue_port/src/queue_port.c:109-144 | for a freshly initialized port: over all runs of all clients what is taken out is a prefix of what was handed in, if and only if 2 * capacity - 2 <= SIZE_MAX |
| QueuePortCalls.CallIsFine | archive/legacy_src/services/queue_port/src/queue_port.c:387-474 | a waiting call with an idle waiter, whatever all other clients do: either it has returned exactly once, having moved one element if and only if it returned OK, its waiter CANCELLED if and only if CANCELLED was returned and else COMPLETED, or it still waits with nothing moved; it has returned once the wait port has reported anything but OK |
| QueuePortAnswers.AttemptAnswers | archive/legacy_src/services/queue_port/src/queue_port.c:387-407 | an attempt of a waiting call ends it with CANCELLED on a stopped port, with the critical section's answer if that cannot be entered, with OK if it moved the element, and sends it to sleep exactly when there is no room or no element |
| QueuePortAnswers.WakeAnswers | archive/legacy_src/services/queue_port/src/queue_port.c:408-411 | OK from the wait port means another attempt, and any other answer is the status of the call and of its waiter |
| QueuePortAnswers.RunAnswers | archive/legacy_src/services/queue_port/src/queue_port.c:387-474 | over every run: each answer of the wait port other than OK, and each attempt that does not sleep, adds one call of that client with exactly that status |
| QueuePortAnswers.CallAnswers | archive/legacy_src/services/queue_port/src/queue_port.c:387-474 | a whole call, whatever all others do, returns the first answer of its rounds, and waits as long as there is none |
| QueuePortAnswers.WaitAnswers | archive/legacy_src/services/queue_port/src/queue_port.c:408-411 | when all attempts went to sleep, the first answer of the wait port other than OK is what the call returns |
| QueuePortAnswers.LifecycleEmpties | archive/legacy_src/services/queue_port/src/queue_port.c:278-338 | start, stop and reset leave an empty queue in the new state, or change nothing |
| QueuePortAnswers.NextIsPossible | archive/legacy_src/services/queue_port/src/queue_port.c:109-474 | wherever a client is in its call, its next action is possible, with every answer |
| QueuePort.QueuePort.Init | archive/legacy_src/services/queue_port/src/queue_port.c:237-269 | status in every case, and an empty READY queue |
| QueuePort.QueuePort.TryPush | archive/legacy_src/services/queue_port/src/queue_port.c:150-179 | the immediate push is one attempt |
| QueuePort.QueuePort.TryPop | archive/legacy_src/services/queue_port/src/queue_port.c:190-219 | the immediate pop is one attempt, and delivers the element removed |
| QueuePort.QueuePort.PushUntil | archive/legacy_src/services/queue_port/src/queue_port.c:387-412 | the wait loop, with all other clients acting before every attempt and during every wait, returns the first answer of its rounds and ends as the same call ends in the interleaved system, or still waits as it does there |
| QueuePort.QueuePort.PopUntil | archive/legacy_src/services/queue_port/src/queue_port.c:449-474 | the same, and on OK the output is the element that the call removed |
| Waiters.Waiter.Begin | archive/legacy_src/services/waiter/src/waiter.c:69-82 | only an idle waiter is bound, and then waits |
| Waiters.Waiter.Complete | archive/legacy_src/services/waiter/src/waiter.c:92-106 | only a waiting waiter is completed, CANCELLED exactly for that result |
| Waiters.Waiter.Reset | archive/legacy_src/services/waiter/src/waiter.c:115-128 | only a finished waiter becomes idle again |
| ObjectPoolSpec.AcquireLendsLeast | archive/legacy_src/libraries/object_pool/src/object_pool.c:126-159 | acquire lends the least free slot, is refused exactly when all are lent, and keeps count and least index right |
| ObjectPoolSpec.ReleaseAcceptsHeld | archive/legacy_src/libraries/object_pool/src/object_pool.c:170-198 | release accepts exactly the first address of a lent slot |
| ObjectPoolSpec.ReleaseTakesBack | archive/legacy_src/libraries/object_pool/src/object_pool.c:170-198 | an accepted release frees that one slot; a refused one changes nothing |
| ObjectPoolSpec.ReleaseFault | archive/legacy_src/libraries/object_pool/src/object_pool.c:170-198 | a refused address is INVALID_STATE exactly when it is the start of a slot, which is then free, and else INVALID_ARGUMENT |
| ObjectPoolSpec.ReleaseUndoesAcquire | archive/legacy_src/libraries/object_pool/src/object_pool.c:126-198 | releasing what was just acquired restores the whole pool |
| ObjectPoolSpec.SlotsAreDisjoint | archive/legacy_src/libraries/object_pool/src/object_pool.c:126-159 | two slots never share a byte |
| ObjectPoolHistory.RunIsSafe | archive/legacy_src/libraries/object_pool/src/object_pool.c:126-198 | over every history: available counts the free slots, the lowest index is the least slot that nobody holds (the capacity if there is none), the refusal counter is saturated |
| ObjectPool.ObjectPool.Init | archive/legacy_src/libraries/object_pool/src/object_pool.c:76-113 | status in every case, with the alignment tests; refused while a slot is lent; afterwards all slots are free |
| ObjectPoolSpec.SingleBitTest | archive/legacy_src/libraries/object_pool/src/object_pool.c:76-90 | the bit test of the alignment accepts exactly the powers of two |
| ObjectPoolSpec.SlotsAreAligned | archive/legacy_src/libraries/object_pool/src/object_pool.c:76-113 | with aligned storage and slot size every slot address is aligned |
| ObjectPool.ObjectPool.Scan | archive/legacy_src/libraries/object_pool/src/object_pool.c:149-152 | the scan finds the next free slot or the capacity |
| ObjectPool.ObjectPool.Acquire | archive/legacy_src/libraries/object_pool/src/object_pool.c:126-159 | the object's acquire is that step, and returns the address of the slot |
| ObjectPool.ObjectPool.Release | archive/legacy_src/libraries/object_pool/src/object_pool.c:170-198 | the object's release is that step |
| CrcTheory.FedIsRemainder | archive/legacy_src/libraries/crc/src/crc.c:30-199 | what an update computes: the register behind a message is the one register whose polynomial over GF(2) is the remainder of register * x^(8n) + message * x^w modulo the generator, for a message of n bytes and a register of w bits |
| CrcTheory.BytewiseReads | archive/legacy_src/libraries/crc/src/crc.c:30-199 | shifting, adding and entering bytes side by side is computing with polynomials |
| CrcTheory.BitIsAdditive | archive/legacy_src/libraries/crc/src/crc.c:30-199 | a bit round commutes with exclusive or |
| CrcTheory.UpdateIsLinear | archive/legacy_src/libraries/crc/src/crc.c:30-199 | the update is linear in register and message under exclusive or |
| CrcTheory.UpdateIsInjective | archive/legacy_src/libraries/crc/src/crc.c:30-199 | after the same message two registers are equal if and only if they were equal before |
| CrcTheory.SameRegister | archive/legacy_src/libraries/crc/src/crc.c:30-199 | two updates end in the same register if and only if their polynomials are congruent modulo the generator |
| CrcTheory.DetectsBurst | archive/legacy_src/libraries/crc/src/crc.c:30-237 | two messages of equal length whose differing bits span at most as many bits as the checksum has, at any bit offset, have the same result if and only if they are equal |
| CrcTheory.DetectsWindow | archive/legacy_src/libraries/crc/src/crc.c:30-237 | the same for messages that differ only inside as many consecutive bytes as the checksum has |
| CrcTheory.ResidueMeansIntact | archive/legacy_src/libraries/crc/src/crc.c:30-237 | a message and an appended checksum leave the residue in the register if and only if the checksum is the right one |
| CrcAlgorithm.FedSplit | archive/legacy_src/libraries/crc/src/crc.c:30-199 | updates in chunks leave the register of one update, for every split |
| CrcAlgorithm.Context.Update | archive/legacy_src/libraries/crc/src/crc.c:183-199 | the two nested loops feed the message to the register |
| CrcAlgorithm.Calculate | archive/legacy_src/libraries/crc/src/crc.c:226-237 | the one-shot calculation is init, update and finalize |
| CrcConformance.CheckValues | archive/legacy_src/tests/unit/test_crc.c:16-44 | the checksums of the digits 1 to 9 are the published check values |
| Crc8.IsReading | archive/legacy_src/libraries/crc/src/crc.c:38-45 | CRC-8/SMBUS: the loop computes with polynomials, so that all results of CrcTheory hold for it |
| Crc8.GeneratorExponents | archive/legacy_src/libraries/crc/src/crc.c:38-45 | CRC-8/SMBUS: its generator is x^8 + x^2 + x + 1 |
| Crc8.BitIsBijective | archive/legacy_src/libraries/crc/src/crc.c:38-45 | CRC-8/SMBUS: a bit round is a bijection of the register |
| Crc8.ResidueIsZero | archive/legacy_src/libraries/crc/src/crc.c:30-62 | CRC-8/SMBUS: the residue is zero |
| Crc16.IsReading | archive/legacy_src/libraries/crc/src/crc.c:114-121 | CRC-16/CCITT-FALSE: the loop computes with polynomials, so that all results of CrcTheory hold for it |
| Crc16.GeneratorExponents | archive/legacy_src/libraries/crc/src/crc.c:114-121 | CRC-16/CCITT-FALSE: its generator is x^16 + x^12 + x^5 + 1 |
| Crc16.BitIsBijective | archive/legacy_src/libraries/crc/src/crc.c:114-121 | CRC-16/CCITT-FALSE: a bit round is a bijection of the register |
| Crc16.ResidueIsZero | archive/legacy_src/libraries/crc/src/crc.c:106-139 | CRC-16/CCITT-FALSE: the residue is zero |
| Crc32.IsReading | archive/legacy_src/libraries/crc/src/crc.c:191-197 | CRC-32/ISO-HDLC: the loop computes with polynomials, so that all results of CrcTheory hold for it |
| Crc32.GeneratorExponents | archive/legacy_src/libraries/crc/src/crc.c:191-197 | CRC-32/ISO-HDLC: its generator is that of RFC 1662, Appendix C.3, with 15 terms |
| Crc32.BitIsBijective | archive/legacy_src/libraries/crc/src/crc.c:191-197 | CRC-32/ISO-HDLC: a bit round is a bijection of the register |
| Crc32.ResidueIsGood | archive/legacy_src/libraries/crc/src/crc.c:183-216 | CRC-32/ISO-HDLC: the residue is the good FCS 0xDEBB20E3 |

## Left out

- The float arm of the parameter service, the PID controllers and the filters: rounding, infinities and NaN are not modelled.
- Null checks and overlap tests: references are valid and distinct unless a contract says otherwise.
- Cobs.Encode: its overlap test is modelled for one array that is both input and output, not for partly overlapping ranges of a larger one.
- Hardware ordering of the FIFO cursors: each call takes one atomic snapshot of the other side's cursor, as the component's documentation leaves index access to the platform.
- Lifecycle calls of the queue port that race with operations in flight (their writes are outside the critical section): they are atomic actions between locked sections, and so is the attempt of a waiting call with the state tests around it.
- Signalling, deadlines and fairness of the wait port: they are its own, and it may answer anything.
- The command service and the status service: a command's execution is one handler call with an arbitrary result, and lookup is membership in a set of ids.
- Display data of the menu (view queries, labels, text lengths): `titled` stands for the check of a title.
- Scheduler callbacks that re-enter the scheduler or write its slots.
- Mutex, event group, notification, critical section and time ports; byte-order, tick and numeric helpers; the test adapters.
