# Slope, modelled and proved

Slope is a runtime without a standard library. This project models its fixed-capacity state machines and
arithmetic kernels in Dafny and proves what they are for, over all inputs, all runs and all interleavings.

| File | What it holds |
|---|---|
| `Machine.dfy`, `Bits.dfy` | Fixed-width integers, checked and saturating arithmetic, bitwise words and the sets they denote |
| `SlabModel.dfy`, `SlabHeap.dfy`, `SlabRuns.dfy`, `SlabSizes.dfy` | The slab heap: its operations as functions, the objects with their bit masks, theorems over all runs, and which slot and address each call gets or frees, in numbers |
| `Entanglement.dfy`, `HeapThreads.dfy` | The lock that serialises the heap, step by step for any number of threads, and the heap behind it |
| `RingWindow.dfy`, `SpscRing.dfy` | Places in a ring of any depth; the single-producer/single-consumer ring, step by step |
| `BridgeReceive.dfy`, `BridgeTransmit.dfy`, `Bridge.dfy` | The device bridge: both directions step by step, and the object |
| `Mixing.dfy`, `QuantumCrest.dfy`, `RecordSeals.dfy` | The 64-bit finaliser, the roots of sealed records, sealing and verifying, and what altering any one field does |
| `Mailbox.dfy` | The one-slot mailboxes and the page that holds them |
| `ServiceCurve.dfy`, `Calibrator.dfy`, `CalibratorSeals.dfy` | The rate-latency bound, and the ring of residuals with its order-statistic guard and its root |
| `Controller.dfy`, `ControllerRuns.dfy`, `ServiceController.dfy` | Admission, rollback and completion: functions, theorems over runs, and the object |
| `CertificateSeals.dfy`, `AdmissionFaults.dfy` | What the root of a certificate protects, and the exact condition of every fault |
| `Executor.dfy`, `ExecutorRuns.dfy` | The cooperative executor, and its interleavings with outside wakes |
| `Kairos.dfy`, `KairosRules.dfy` | Topology validation, in terms of the reply too, and proportional partitioning |
| `Hypermedia.dfy`, `HypermediaRules.dfy`, `EndpointSession.dfy` | HTTPS origins, requests, leases and the IPC record, and their rules byte by byte; the numbered endpoint session |
| `Capability.dfy`, `Env.dfy` | The handle parser; environment scans, key hash and snapshot |

How the parts are tied together:

- Code that changes things in place is a class. Each method's contract equates the whole new state with a
  function of the old one, and the theorems are about that function.
- The lock-free protocols take one atomic load, compare-exchange, store or copy per step, with a program
  counter per agent, in sequentially consistent order. A run is a list of actions, every list is an
  interleaving, and an action that does not apply changes nothing. Lemmas named `...AloneIsRun` show that the
  methods of the classes are runs of those steps.
- Machine words are naturals below 2^64; wrapping, saturating and checked arithmetic is written out.

Where code and comments or intuition part, the model follows the code:

- `advance` can fail on an unrepresentable service after it has moved the window but before it has moved the
  last tick (`Admission.AdvanceMoves` gives the exact condition, `Admission.AdvanceCanFailHalfway` an input); the
  bounds over runs include such failures.
- A completion late by 2^48 ticks or more adds the largest word to the backlog, whatever the window: the scaled excess
  saturates before it is divided (`Admission.LatePenaltyExactly`, `Admission.LatePenaltyTooLarge`).
- The snapshot mailbox publishes its epoch before it tries the cell, so the epoch moves even on `Busy`.
- `EnvSnapshot` and `get_phase` differ on entries without `=` (`Environment.BareEntryDisagrees`), beyond 128 entries
  (`Environment.LateEntryDisagrees`) and on long values (`Environment.LongValueDisagrees`); the exact condition is
  `Environment.SnapshotAgreesExactly`. `get` misses empty values (`Environment.EmptyValueDisagrees`); when it agrees
  with `get_phase` is `Environment.ScansAgreeExactly`.
- Host labels may begin or end with a hyphen unless they are at the very start or end of the host
  (`Hypermedia.InnerHyphensAccepted`, `Hypermedia.HyphenHostAccepted`).
- The comments call snapshot lookup constant-time; it is a linear scan of the fixed array.
- A root covers neither the declared structure size nor reserved fields, those of the nested records included, nor the
  root of a reply's frame (`QuantumCrest.UncoveredFields`); it covers every other field (`QuantumCrest.SnapshotCovered`,
  `QuantumCrest.CommandCovered`, `QuantumCrest.ReplyCovered`).

## Model

| member | source | states |
|---|---|---|
| SlabHeap.NewMask | src/memory/mod.rs:57-78 | The set of slots the fresh mask shows as free is exactly the slots below the slot count |
| SlabHeap.SlabPage.AllocSlot | src/memory/mod.rs:80-96 | Takes the lowest free slot and returns its address, changing nothing else; fails exactly when no slot is free |
| SlabHeap.SlabPage.DeallocSlot | src/memory/mod.rs:98-118 | Releases exactly the start addresses of taken slots of this page; any other address changes nothing |
| SlabHeap.FixedHeapArena.AllocatePage | src/memory/mod.rs:229-249 | Hands out the next page of the arena, or nothing once all 64 are taken |
| SlabHeap.SlabClass.Alloc | src/memory/mod.rs:142-163 | The first page with a free slot serves the request; only when there is none does the class take a new page from the arena |
| SlabHeap.SlabClass.Dealloc | src/memory/mod.rs:165-172 | The page holding the block releases it; an address no page holds changes nothing |
| SlabHeap.GlobalSlabHeap.Alloc | src/memory/mod.rs:304-326 | The whole heap after `alloc`, its counters included; on a heap laid out as every run leaves it, refused or served from the class of the rounded size, slot and address included |
| SlabHeap.GlobalSlabHeap.Dealloc | src/memory/mod.rs:328-344 | The whole heap after `dealloc`, its counters included; on such a heap the slot of the rounded size that is taken and starts there is free again, or nothing changes |
| SlabModel.FitsIsQuotient | src/memory/mod.rs:57-78 | The number of slots of a page is the quotient of the page size by the object size |
| SlabSizes.ClassExactly | src/memory/mod.rs:39-41 | A class serves a request exactly when neither size nor alignment exceeds 4096, and its objects have the power of two from 8 to 4096 that is at least both and, above 8, less than twice one of them |
| SlabSizes.AllocExactly | src/memory/mod.rs:304-326 | After every run `alloc` refuses a heap that is not ready or busy and a request above a page; any other takes the lowest free slot of the first page of the rounded size, else the first slot of the next of 64 pages, else fails, with the counter of each outcome |
| SlabSizes.DeallocExactly | src/memory/mod.rs:328-344 | After every run `dealloc` ignores null, a busy lock and sizes above a page; any other frees the taken slot of the rounded size that starts at the address and counts it, or changes nothing |
| SlabSizes.HeldBlockSize | src/memory/mod.rs:304-326 | In every run a held block is a taken slot of a page cut into objects of the size its request is rounded up to |
| SlabSizes.FreedExactly | src/memory/mod.rs:328-344 | In every run a free ends a block exactly when it finds the lock, the block is held, and both requests are rounded up to the same size |
| SlabRuns.RunsKeepInvariant | src/memory/mod.rs:303-344 | Every run of allocations and frees keeps the invariant over masks, pages, cursor, counters and held blocks |
| SlabRuns.HeldBlocksAreSound | src/memory/mod.rs:304-326 | In every run each held block lies inside the arena, holds the requested size and is aligned as requested |
| SlabRuns.HeldBlocksDisjoint | src/memory/mod.rs:80-172 | In every run any two held blocks are disjoint address ranges |
| SlabRuns.PagesHaveOneOwner | src/memory/mod.rs:155-163 | In every run each page below the arena cursor belongs to exactly one class, and the pages of all classes add up to the cursor |
| SlabRuns.CountersConserve | src/memory/mod.rs:313-344 | In every run allocations minus frees, as counted, is the number of held blocks |
| SlabRuns.AllocFailsOnlyWhenExhausted | src/memory/mod.rs:142-163 | In every run a class allocation fails exactly when every slot of the class is taken and all 64 pages are owned |
| SlabRuns.AllocThenDealloc | src/memory/mod.rs:80-118 | Freeing a block straight after allocating it restores the masks of all pages there were before |
| SlabRuns.AllocEffect | src/memory/mod.rs:142-154 | An allocation adds exactly one live block, which was not live before, or fails on an exhausted class |
| SlabRuns.DeallocEffect | src/memory/mod.rs:165-172 | A free takes away exactly the block given when it is live in that class, and nothing otherwise |
| HeapThreads.SharedHeapIsRun | src/memory/mod.rs:313-344 | In every interleaving of allocating threads the heap behind the lock is the heap of some run, one event for each operation that reached it, in that order |
| HeapThreads.SharedBlocksDisjoint | src/memory/mod.rs:313-344 | In every such interleaving the heap invariant holds and blocks held by any callers are disjoint |
| Entanglement.RunsKeepInvariant | src/sync/entanglement.rs:26-43 | Every interleaving of any number of threads keeps the lock, call and log invariants |
| Entanglement.MutualExclusion | src/sync/entanglement.rs:26-43 | At most one thread is between lock and unlock, and the lock is set exactly then |
| Entanglement.AppliedExactlyOnce | src/sync/entanglement.rs:88-101 | In every interleaving a finished `mutate_bounded` applied its operation exactly once on `Ok` and never on `Busy` |
| Entanglement.Serialised | src/sync/entanglement.rs:70-78 | In every interleaving the data is what the applied operations make of it one after the other: no update is lost |
| Entanglement.GivesUpExactly | src/sync/entanglement.rs:88-101 | In every interleaving a call whose thread has left it has an outcome: it gave up exactly when as many attempts as it was allowed found the lock held, and otherwise it was applied |
| Entanglement.StepsRunOut | src/sync/entanglement.rs:88-101 | No call spins forever: each of its steps brings its thread closer to leaving it, and no step of another thread sets it back |
| Entanglement.SpookyCell.TryMutate | src/sync/entanglement.rs:70-78 | One attempt: `Busy` and nothing changed, or the operation applied once and the lock released |
| Entanglement.SpookyCell.MutateBounded | src/sync/entanglement.rs:88-101 | The operation is applied at the first attempt that finds the lock free; with none the data is untouched |
| SpscRing.RunsKeepInvariant | src/ipc.rs:94-137 | Every interleaving of the atomic steps of one producer and one consumer keeps the ring invariant |
| SpscRing.DeliveredInOrder | src/ipc.rs:94-130 | Received messages are the first accepted ones, in order, each once; at most 128 are in the ring and one more is on its way to the caller |
| SpscRing.Exclusive | src/ipc.rs:94-130 | No slot is written while it is read |
| SpscRing.FullExactly | src/ipc.rs:94-111 | `Full` exactly when all 128 slots are occupied, the oldest possibly being read |
| SpscRing.NoneExactly | src/ipc.rs:113-137 | `recv` gives `None`, and `is_empty` true, exactly when no published message is unread |
| SpscRing.RefinesQueue | src/ipc.rs:94-130 | Each step of either agent enqueues one message, dequeues the oldest, or leaves the queue alone |
| SpscRing.SendAloneIsRun | src/ipc.rs:94-111 | `send` run without interference is the sequence of its atomic steps |
| SpscRing.RecvAloneIsRun | src/ipc.rs:113-130 | `recv` run without interference is the sequence of its atomic steps |
| SpscRing.ProbeAloneIsRun | src/ipc.rs:132-137 | `is_empty` without interference looks at the slot a `recv` would take from and leaves everything as it was |
| SpscRing.SendsExactly | src/ipc.rs:94-111 | After every run a `send` succeeds exactly with fewer than 128 messages in the ring, and otherwise reports it full |
| SpscRing.ReceivesExactly | src/ipc.rs:113-130 | After every run a `recv` returns the oldest message not yet received, or nothing exactly when there is none |
| SpscRing.SharedRing.Send | src/ipc.rs:94-111 | The whole ring after `send`, and its result |
| SpscRing.SharedRing.Recv | src/ipc.rs:113-130 | The whole ring after `recv`, and its result |
| SpscRing.SharedRing.IsEmpty | src/ipc.rs:132-137 | True exactly when a `recv` would return nothing |
| BridgeReceive.RunsKeepInvariant | src/bridge.rs:68-98 | Every interleaving of the receiver, the drop of its guard and a ring-order device keeps the invariant |
| BridgeReceive.OutcomesInOrder | src/bridge.rs:68-98 | Each published frame is delivered once, in order: a valid one as its bytes, an oversized one as one error |
| BridgeReceive.GuardShowsItsFrame | src/bridge.rs:168-188 | At most one guard is live, and until dropped its bytes are what the device published |
| BridgeReceive.Exclusive | src/bridge.rs:68-98 | The device never fills the descriptor the receiver holds |
| BridgeReceive.NothingExactly | src/bridge.rs:68-76 | `try_receive` finds nothing exactly when every published frame was taken, or the oldest is still held |
| BridgeReceive.ReceiveAloneIsRun | src/bridge.rs:68-98 | `try_receive` without interference is the sequence of its atomic steps |
| BridgeReceive.DropAloneIsRun | src/bridge.rs:177-188 | Dropping the guard without interference is the sequence of its atomic steps |
| BridgeReceive.ReceivesExactly | src/bridge.rs:68-98 | After every run `try_receive` finds nothing exactly with a live guard or no frame left; otherwise the oldest frame gives an error above 2048 bytes, else a guard for exactly its bytes |
| BridgeReceive.OwnedAreCleared | src/bridge.rs:177-188 | In every interleaving a descriptor the device owns has length zero, unless it is the one being filled |
| BridgeReceive.FrameComesThrough | src/bridge.rs:68-98 | After every run a frame the device publishes to an idle receiver that has dealt with all others is what it receives next |
| BridgeTransmit.RunsKeepInvariant | src/bridge.rs:102-131 | Every interleaving of the transmitter and a draining device keeps the invariant |
| BridgeTransmit.SentInOrder | src/bridge.rs:102-131 | Frames reach the device in order, each once, with the bytes given |
| BridgeTransmit.Exclusive | src/bridge.rs:102-131 | The transmitter never writes the descriptor the device drains |
| BridgeTransmit.FullExactly | src/bridge.rs:102-116 | `transmit` reports a full ring exactly when every descriptor is waiting for or in use by the device |
| BridgeTransmit.TransmitAloneIsRun | src/bridge.rs:102-131 | `transmit` without interference is the sequence of its atomic steps |
| BridgeTransmit.TransmitsExactly | src/bridge.rs:102-131 | After every run `transmit` refuses an empty payload or one above 2048 bytes, then a ring of 256 frames the device still owns, and accepts anything else |
| BridgeTransmit.PayloadGoesOut | src/bridge.rs:102-131 | After every run a payload accepted while the device has sent all others is what its next three steps send |
| Bridge.BifrostRing.TryReceive | src/bridge.rs:68-98 | The whole receive ring and the result after `try_receive` |
| Bridge.BifrostRing.DropPacket | src/bridge.rs:177-188 | The whole receive ring after a guard is dropped |
| Bridge.BifrostRing.Transmit | src/bridge.rs:102-131 | The whole transmit ring and the result after `transmit` |
| Mixing.AvalancheBijective | src/quantum_crest.rs:739-745 | The finaliser is a bijection on 64-bit words, with an explicit inverse |
| Mixing.AbsorbBijective | src/quantum_crest.rs:729-731 | Absorbing a word is a bijection in the state and in the word |
| Mixing.FoldSensitive | src/quantum_crest.rs:629-648 | From one state, word sequences that differ in exactly one position never lead to the same state |
| Mixing.ExactlyOneWord | src/quantum_crest.rs:629-648 | With all other words fixed exactly one value of a word, given explicitly, leads to a given state |
| QuantumCrest.SnapshotRootFoldsItsWords | src/quantum_crest.rs:611-627 | The nested absorbing functions of a snapshot absorb one flat sequence of words |
| QuantumCrest.BytesValueInjective | src/quantum_crest.rs:733-737 | Equally long byte strings with the same little-endian word are the same |
| QuantumCrest.AbsorbChunks | src/quantum_crest.rs:645-647 | The loop over 8-byte chunks absorbs the words of the payload in order |
| QuantumCrest.ComputeCommandRoot | src/quantum_crest.rs:629-648 | The root with its two loops is the root of the flat sequence of words |
| QuantumCrest.ComputeReplyRoot | src/quantum_crest.rs:650-662 | The same for replies |
| QuantumCrest.RootSensitive | src/quantum_crest.rs:611-666 | Records of one kind whose words differ in exactly one position have different roots |
| QuantumCrest.RootFixesEachWord | src/quantum_crest.rs:611-666 | A root is the root of exactly one value of any one word, the others fixed |
| QuantumCrest.SnapshotsApart | src/quantum_crest.rs:611-627 | Snapshots that differ in exactly one absorbed word have different roots |
| QuantumCrest.CommandsApart | src/quantum_crest.rs:629-648 | Commands that differ in exactly one absorbed word have different roots |
| QuantumCrest.RepliesApart | src/quantum_crest.rs:650-662 | Replies that differ in exactly one absorbed word have different roots |
| QuantumCrest.FramesApart | src/quantum_crest.rs:664-666 | Frame certificates that differ in exactly one absorbed word have different roots |
| QuantumCrest.OneByteOneWord | src/quantum_crest.rs:645-647 | Altering one payload byte alters the word of its chunk and no other |
| QuantumCrest.SealedSnapshot | src/quantum_crest.rs:205-218 | A sealed snapshot verifies exactly when its fields are well formed, and never with one absorbed word altered |
| QuantumCrest.SealedCommand | src/quantum_crest.rs:262-277 | The same for commands |
| QuantumCrest.SealedReply | src/quantum_crest.rs:341-351 | The same for replies |
| QuantumCrest.AlteredPayloadFails | src/quantum_crest.rs:262-277 | A sealed command with any one payload byte altered fails to verify, past the declared length too |
| QuantumCrest.SnapshotCovered | src/quantum_crest.rs:611-627 | Snapshots absorb the same words exactly when they agree but for declared size, reserved fields and root |
| QuantumCrest.CommandCovered | src/quantum_crest.rs:629-648 | Commands absorb the same words exactly when they agree but for declared size, reserved bytes and root |
| QuantumCrest.ReplyCovered | src/quantum_crest.rs:650-662 | Replies absorb the same words exactly when they agree but for declared size, the reserved bytes and root of the frame, and root |
| QuantumCrest.FrameCovered | src/quantum_crest.rs:713-723 | Frame certificates absorb the same words exactly when they agree but for reserved bytes and root |
| QuantumCrest.UncoveredFields | src/quantum_crest.rs:611-666 | So those fields can change without changing any root |
| RecordSeals.RotationsCancel | src/quantum_crest.rs:611-662 | Rotating a word right undoes rotating it left, and the other way round, for every distance |
| RecordSeals.DomainReversible | src/quantum_crest.rs:725-727 | A starting state is that of exactly one secret for each tag and of exactly one tag for each secret, both given |
| RecordSeals.KindsApart | src/quantum_crest.rs:611-666 | Under one secret the four kinds of record never fold the same words to the same state |
| RecordSeals.RootsReverse | src/quantum_crest.rs:611-666 | From a root back to the only state its words can have led to: the tag of the kind and the last turn of the secret |
| RecordSeals.AlteredSnapshotFails | src/quantum_crest.rs:210-218 | A snapshot that verifies does not verify with any one covered field altered, named field by field, nor with any other root |
| RecordSeals.AlteredCommandFails | src/quantum_crest.rs:267-277 | A command that verifies does not verify with any one covered field, argument, payload byte or the root altered |
| RecordSeals.AlteredReplyFails | src/quantum_crest.rs:346-351 | A reply that verifies does not verify with any one covered field, output, frame field or the root altered |
| RecordSeals.AlteredFrameDiffers | src/quantum_crest.rs:664-666 | A frame certificate with any one covered field altered has another root |
| RecordSeals.SealedSnapshotVerifies | src/quantum_crest.rs:205-218 | A sealed snapshot verifies exactly for ABI major 1, a declared size of at least 256 and four nonzero identities |
| RecordSeals.SealedCommandVerifies | src/quantum_crest.rs:262-277 | A sealed command verifies exactly for ABI major 1, at least 272 bytes declared, five nonzero identities and at most 128 payload bytes |
| RecordSeals.SealedReplyVerifies | src/quantum_crest.rs:341-351 | A sealed reply verifies exactly for ABI major 1, at least 176 bytes declared and a nonzero command number |
| Mailbox.RunsKeepInvariant | src/quantum_crest.rs:376-412 | Every interleaving of any number of publishers and takers keeps the mailbox invariant |
| Mailbox.Exclusive | src/quantum_crest.rs:376-412 | At most one thread touches the value, and the state says whether it reads or writes |
| Mailbox.TakenInOrder | src/quantum_crest.rs:376-412 | Values taken are the values published, in order, each once, with at most one waiting |
| Mailbox.BusyExactly | src/quantum_crest.rs:434-449 | Publishing is refused exactly when a value waits to be taken or a thread holds the cell |
| Mailbox.NoneExactly | src/quantum_crest.rs:451-471 | Taking finds nothing exactly when every published value is taken or being taken |
| Mailbox.PublishAloneIsRun | src/quantum_crest.rs:489-504 | Publishing without interference is the sequence of its atomic steps |
| Mailbox.TakeAloneIsRun | src/quantum_crest.rs:506-523 | Taking without interference is the sequence of its atomic steps |
| Mailbox.AnswersExactly | src/quantum_crest.rs:376-412 | After every run, with no thread inside, publishing is accepted exactly when everything was taken and is busy otherwise, and taking returns the one value not taken yet |
| Mailbox.SharedCell.Publish | src/quantum_crest.rs:376-393 | The whole cell after `publish`, and its result |
| Mailbox.SharedCell.Take | src/quantum_crest.rs:395-412 | The whole cell after `take`, and its result |
| CrestPage.QuantumCrestPage.KernelPublishSnapshot | src/quantum_crest.rs:553-562 | Zero epoch or sequence is refused; otherwise the epoch moves even when the mailbox is busy |
| CrestPage.QuantumCrestPage.UserSubmitCommand | src/quantum_crest.rs:568-577 | The same for commands and the user epoch |
| CrestPage.QuantumCrestPage.KernelPublishReply | src/quantum_crest.rs:583-591 | A reply without a command number is refused; otherwise it is published |
| ServiceCurves.DelayIsLeast | src/service_calculus.rs:42-53 | The bound is the least number of ticks in which the curve serves the backlog and the new job; it is missing exactly when curve or backlog is out of range or no representable number is enough |
| ServiceCurves.DelayMonotone | src/service_calculus.rs:42-53 | A longer backlog never has a smaller bound |
| Calibrators.RetainsTheLast | src/service_calculus.rs:145-153 | After any pushes the ring retains, as a multiset, exactly the last residuals capped at the maximum, and counts the pushes up to saturation |
| Calibrators.SortedHasRank | src/service_calculus.rs:160-162 | Position `i` of the sorted copy is the order statistic of rank `i + 1`, defined by counting |
| Calibrators.RankUnique | src/service_calculus.rs:160-162 | There is only one element of each rank |
| Calibrators.GuardIsOrderStatistic | src/service_calculus.rs:155-180 | The guard is the order statistic of the intended rank plus the slack, capped, and an error exactly when that arithmetic overflows |
| Calibrators.GuardAfterPushes | src/service_calculus.rs:145-180 | After any pushes the guard is that order statistic among the last residuals, wherever the ring has wrapped |
| Calibrators.GuardCovers | src/service_calculus.rs:155-180 | At least as many retained residuals as the intended rank are at most the guard |
| Calibrators.NewExactly | src/service_calculus.rs:84-117 | A calibrator is built exactly for a nonzero capacity, a coverage strictly between zero and one, a positive cap and a nonzero secret, and keeps these; which fault otherwise |
| Calibrators.NewHolds | src/service_calculus.rs:84-117 | A new calibrator has an empty history, the capped slack as guard and a matching root |
| Calibrators.ResidualCalibrator.Push | src/service_calculus.rs:145-153 | The whole calibrator after a push, its new root included, and the guard returned |
| Calibrators.ResidualCalibrator.GuardNow | src/service_calculus.rs:155-180 | The guard of the current contents, sorted in a copy |
| Calibrators.ResidualCalibrator.Seal | src/service_calculus.rs:538-553 | The loop over the retained residuals computes the root of all absorbed words |
| CalibratorSeals.CalibratorCovered | src/service_calculus.rs:538-553 | The absorbed words determine counters, settings and retained residuals, and nothing else |
| CalibratorSeals.AlteredCalibratorFails | src/service_calculus.rs:182-188 | A calibrator whose root verifies does not verify with one setting, one counter or one retained residual altered |
| CalibratorSeals.RootStaysValid | src/service_calculus.rs:145-153 | The root verifies from construction on, after any pushes |
| CertificateSeals.CertificateCovered | src/service_calculus.rs:521-536 | Certificates absorb the same words exactly when they agree in every field but the root |
| CertificateSeals.AlteredFieldFails | src/service_calculus.rs:463-467 | A certificate that verifies does not verify with any one of its twelve fields other than the root changed, named field by field |
| CertificateSeals.SealedVerifies | src/service_calculus.rs:463-467 | For any fields without a forbidden zero and with the controller's own curve root exactly one root verifies, unless it would be zero |
| CertificateSeals.BlankFails | src/service_calculus.rs:237-243 | A certificate with a zero in one of five fields never verifies |
| CertificateSeals.CurvesShareNoCertificate | src/service_calculus.rs:513-519 | Controllers built under one secret for curves that differ in one parameter accept no common certificate |
| AdmissionFaults.NewExactly | src/service_calculus.rs:268-306 | Construction succeeds exactly for a sensible curve with a representable largest guard, nonzero secret and capacity and nonzero roots, and which fault it reports otherwise |
| AdmissionFaults.NewStarts | src/service_calculus.rs:287-305 | A new controller stands at its tick with nothing counted and queued; its first guard is one tick, its largest one window per queued job |
| Admission.SharedWordInjective | src/service_calculus.rs:525-528 | The two counters packed into one word are both recovered from it |
| Admission.AdvanceMoves | src/service_calculus.rs:469-496 | Every outcome of `advance`: a past tick is refused with only the rejection counter changed; otherwise the window moves by whole windows until it contains the tick, and only an unrepresentable service fails, after the window has moved but before the last tick has |
| Admission.AdvanceCanFailHalfway | src/service_calculus.rs:478-491 | At 2^48 windows of one tick the window moves, the last tick stays and the call fails |
| Admission.DriftServesTheBacklog | src/service_calculus.rs:498-506 | The drift penalty is the least number of windows in which the curve serves the virtual backlog, in ticks, saturated |
| Admission.AdmitsExactlyAt | src/service_calculus.rs:333-407 | A request is admitted exactly when the tick can be advanced to and the whole bound fits the deadline and the limits |
| Admission.CertificateAccounts | src/service_calculus.rs:350-405 | Tick, deterministic delay, guard, drift and slack of a certificate add up to the deadline |
| Admission.DeadlineMonotone | src/service_calculus.rs:360-371 | Raising the deadline keeps an acceptance and turns the extra ticks into slack |
| Admission.AdmitIsTransaction | src/service_calculus.rs:339-407 | Any fault after the advance leaves all but the rejection counter, which exactly three faults raise |
| AdmissionFaults.AdmitFaultExactly | src/service_calculus.rs:341-379 | Which fault an admission reports: full backlog or unrepresentable delay, full window, or a deadline before the tick plus the need, each with its exact condition |
| AdmissionFaults.RejectionsCounted | src/service_calculus.rs:333-373 | The rejection counter moves exactly for a past tick, a full backlog or window and an unsafe deadline, and saturates |
| AdmissionFaults.AdmissionCounts | src/service_calculus.rs:375-386 | An admission counts one in the window, one in the sequence, one acceptance and one whole queued job, and nothing else changes |
| AdmissionFaults.RollbackExactly | src/service_calculus.rs:409-422 | A rollback is accepted exactly for a verified certificate of this window, the last issued, with no admission since; it gives back exactly what that admission counted, and otherwise changes nothing |
| Admission.RollbackAccepts | src/service_calculus.rs:409-422 | A rollback straight after its admission succeeds exactly when the three roots involved are not zero |
| Admission.RollbackRestores | src/service_calculus.rs:409-422 | It then restores everything but the reservation number, exactly when neither counter was saturated |
| AdmissionRuns.RunsKeepInvariant | src/service_calculus.rs:333-496 | Every honest run, overflow errors included, keeps the window, numbering and rollback invariant |
| AdmissionRuns.WindowBound | src/service_calculus.rs:333-422 | In every honest run each window has at most the limit of admissions minus rollbacks, and each certificate lies in its own window |
| AdmissionRuns.WindowsNeverReturn | src/service_calculus.rs:469-496 | In every honest run a window that was left is never entered again |
| AdmissionRuns.IntervalBound | src/service_calculus.rs:333-422 | In every honest run any interval of l ticks has at most (ceil(l / W) + 1) times the limit of net admissions |
| AdmissionRuns.AtMostOneRollback | src/service_calculus.rs:409-422 | In every honest run no certificate is rolled back twice |
| ServiceControllers.ServiceController.Request | src/service_calculus.rs:333-407 | The whole controller after `admit`, and its result |
| ServiceControllers.ServiceController.Undo | src/service_calculus.rs:409-422 | The whole controller after `rollback`, and its result |
| Admission.CompletionLearns | src/service_calculus.rs:440-460 | A completion makes the capped residual, the delay beyond deterministic delay and drift, the newest of the history, returns the guard of that history, takes one job off the virtual backlog and adds the late excess in windows, all saturated |
| Admission.ObservationLearns | src/service_calculus.rs:429-461 | The same for any successful observation, from the state its tick advances to |
| Admission.LateAboveGuard | src/service_calculus.rs:441-446 | A job is late exactly when its residual exceeds the guard its certificate granted |
| Admission.LatePenaltyExactly | src/service_calculus.rs:451-458 | When the late excess added is the saturated quotient of the excess by the window, exactly |
| Admission.LatePenaltyTooLarge | src/service_calculus.rs:451-458 | An excess of 2^48 ticks adds the largest word where the quotient would fit |
| Admission.CompletionSucceeds | src/service_calculus.rs:440-449 | With a controller's calibrator and a certificate that adds up, a completion fails after storing its residual exactly when there are too many residuals to rank, more than fit in memory |
| AdmissionRuns.CompletionsLearn | src/service_calculus.rs:429-461 | In every honest run a completion is refused without a trace, stops where advancing stopped, learns as above, or, exactly when there are too many residuals to rank, fails after storing its residual |
| ServiceControllers.ServiceController.ObserveCompletion | src/service_calculus.rs:429-461 | On success the object has learned: newest capped residual, guard of the new history, one job drained, late excess added, nothing else changed |
| ServiceControllers.ServiceController.MoveWindow | src/service_calculus.rs:469-496 | The whole controller after `advance`, and its fault |
| Executors.SpawnExactly | src/executor.rs:124-150 | Spawning fails exactly when 64 tasks are alive; otherwise the task itself takes the first slot that is free or done, is woken, and no other slot changes |
| Executors.PassCharacterised | src/executor.rs:153-174 | A pass polls every captured live slot once and no other, and leaves exactly the wakes those polls raised |
| Executors.DrivenPass | src/executor.rs:153-185 | A pass over self-waking tasks keeps them all scheduled and uses up a poll while any is alive |
| Executors.OuroborosExecutor.SpawnRaw | src/executor.rs:124-144 | The whole executor after `spawn_raw`, and its result; the chosen slot holds the task and is the first that was not alive |
| Executors.OuroborosExecutor.RunOnce | src/executor.rs:153-174 | The loop over the captured mask does the whole pass |
| Executors.OuroborosExecutor.RunForever | src/executor.rs:177-185 | With tasks that wake themselves it terminates with every task finished |
| ExecutorRuns.RunsKeepInvariant | src/executor.rs:124-174 | Every interleaving with outside wakes keeps the slot, wake and pass invariant |
| ExecutorRuns.ArenaFullExactly | src/executor.rs:124-150 | In every interleaving `count` is the number of live slots |
| ExecutorRuns.NoWakeLost | src/executor.rs:51-56 | In every interleaving a live slot that was woken stays scheduled until its next poll begins |
| ExecutorRuns.PassPollsEachOnce | src/executor.rs:153-174 | In every interleaving a finished pass has polled exactly the live slots it captured, each once |
| ExecutorRuns.TaskDoneExactly | src/executor.rs:124-174 | In every interleaving a task that stays pending n times is done exactly after its poll number n + 1, and alive until then |
| ExecutorRuns.PollRaises | src/executor.rs:161-172 | In every interleaving each poll of a task raises exactly the wakes its script names for that poll |
| ExecutorRuns.PassAloneIsRun | src/executor.rs:153-174 | Without outside wakes the steps of a pass are the whole pass |
| ExecutorRuns.PassIsRunUntilStall | src/executor.rs:153-174 | Beginning a pass and finishing its steps without outside wakes is the whole `run_until_stall` |
| ExecutorRuns.WakesRecorded | src/executor.rs:51-56 | What counts as woken: a slot woken from outside, the slot of a new task, and every slot a finished poll wakes |
| Kairos.FromRaw | src/kairos.rs:305-388 | A reply is accepted exactly when it is in range and denotes a consistent topology, which is returned |
| KairosRules.AcceptsExactly | src/kairos.rs:305-388 | A reply is accepted exactly when both counts are in range, numbers of CPUs and of domains are unique, and each domain has a known kind, few enough members, all distinct and known, and a known parent if any |
| KairosRules.FieldsKept | src/kairos.rs:320-381 | The fields of the accepted topology, each from the field of the reply |
| KairosRules.EnabledExactly | src/kairos.rs:524-534 | A member counts for its domain exactly when the record of its CPU in the reply has a nonzero `enabled` byte |
| Kairos.EnabledCountsTheSet | src/kairos.rs:524-534 | The weight of a domain is the size of the set of its enabled members |
| Kairos.ChunkIsFloor | src/kairos.rs:488-493 | Quotient and residual together give the exact proportion rounded down |
| Kairos.RemainderFits | src/kairos.rs:494-496 | The remainder is smaller than the number of weighted domains |
| Kairos.ProductsStaySmall | src/kairos.rs:488-493 | The products of the splitting stay within the total and below the squared number of enabled members |
| Kairos.PortionsAddUp | src/kairos.rs:486-509 | The portions add up to the total |
| Kairos.PartitionWork | src/kairos.rs:455-511 | The slices tile the work; each NUMA domain with an enabled member has exactly one slice, in order and under its number, of the floor of its share by enabled members or, for the first few, one more; one slice takes everything exactly when there is no such domain |
| Kairos.SlicesAreFair | src/kairos.rs:455-511 | Each slice is the exact proportion rounded down or one more, and says which |
| Hypermedia.NewOrigin | src/hypermedia.rs:167-190 | Accepts exactly the described hosts, their labels defined by splitting at dots, and returns the lower-case form (section 6.2.2.1 of RFC 3986) |
| Hypermedia.OriginIdempotent | src/hypermedia.rs:167-190 | Canonicalising a canonical host changes nothing |
| Hypermedia.InnerHyphensAccepted | src/hypermedia.rs:171-181 | Labels may end or begin with hyphens inside the host: only its two ends are checked |
| Hypermedia.HyphenHostAccepted | src/hypermedia.rs:171-181 | The host `a-.-b` is accepted |
| Hypermedia.RequestExactly | src/hypermedia.rs:207-239 | A request is built exactly from a valid path and budget, and a bad budget is reported first |
| HypermediaRules.HostExactly | src/hypermedia.rs:167-184 | A host is accepted exactly when it has 1 to 48 letters, digits, hyphens and dots, no hyphen or dot at either end and no two dots in a row |
| HypermediaRules.CanonicalHost | src/hypermedia.rs:185-189 | A canonical host has no upper-case letter and differs from the host given only in the case of letters |
| HypermediaRules.OriginsAgreeExactly | src/hypermedia.rs:185-189 | Two accepted hosts have one origin exactly when they differ only in the case of letters |
| HypermediaRules.RequestRules | src/hypermedia.rs:207-239 | A request keeps its origin, path and budget and is built exactly within the numbers for path bytes and budget, the budget blamed first |
| HypermediaRules.LocationFaults | src/hypermedia.rs:241-256 | Which fault a location gets: scheme, host before the first slash, budget, path; and what an accepted one asks for |
| Hypermedia.LocationExactly | src/hypermedia.rs:241-256 | A location is accepted exactly when it is the scheme, an acceptable host and an acceptable or missing path (section 6.2.3 of RFC 3986) |
| Hypermedia.LocationRoundTrip | src/hypermedia.rs:241-256 | Parsing the scheme, host and path of any built request gives the request back |
| Hypermedia.ParsedIsBuilt | src/hypermedia.rs:241-256 | Whatever parses is a request built from an accepted host, path and budget |
| Hypermedia.IpcRoundTrip | src/hypermedia.rs:341-380 | For any lease and any built request it covers the IPC record carries the numbers of the lease and the parts of the request, and authorising it returns the request; any other request gets no record |
| Hypermedia.PermitsExactly | src/hypermedia.rs:308-327 | A request is permitted exactly under a real, running lease to its origin with no budget entry above the lease's own, equality included; and which fault each failing condition gives |
| HypermediaRules.AuthorizesExactly | src/hypermedia.rs:365-380 | A record is authorised exactly by its version, the numbers of the lease, its layout, the host, path and budget rules and the limits of the lease, and the request carries the parts of the record |
| HypermediaRules.AuthorizeFaults | src/hypermedia.rs:365-380 | Which fault a refused record gets, in the order of the checks |
| Hypermedia.AuthorizedIsPermitted | src/hypermedia.rs:365-380 | Whatever is authorised is a built request within the lease |
| Hypermedia.AuthorizedIsStable | src/hypermedia.rs:341-380 | Writing an authorised request again and authorising that changes nothing |
| EndpointSessions.CommitsExactly | src/hypermedia.rs:625-680 | A session commits exactly the envelopes for its own lease with the next number, while idle and not revoked |
| EndpointSessions.PreparedCommits | src/hypermedia.rs:608-635 | Whatever a session prepares it also commits, and then nothing else until it completes |
| EndpointSessions.PreparesExactly | src/hypermedia.rs:550-574 | The broker issues a lease exactly for nonzero numbers; a session on it prepares a request exactly while it is idle, the number is next and the lease runs, and the envelope carries these numbers and the request |
| EndpointSessions.PrepareFaults | src/hypermedia.rs:608-623 | Why a request is not prepared: revocation, a request in flight, the number, then layout, owner and expiry of the lease, then the request |
| EndpointSessions.CommitFaults | src/hypermedia.rs:625-680 | Which fault a refused envelope gets: revocation, address, number, busy, each with its exact condition; the session stays as it was |
| EndpointSessions.CompletesExactly | src/hypermedia.rs:637-647 | Completing fails exactly with nothing in flight or another number; success frees the session for the next number, 1 after the last |
| EndpointSessions.ValidExactly | src/hypermedia.rs:506-515 | A lease is valid exactly when the broker would issue it and it has not expired |
| EndpointSessions.NumbersInOrder | src/hypermedia.rs:625-647 | In every run numbers are committed and completed as 1, 2, 3, ... without gaps, wrapping past zero, one at a time |
| EndpointSessions.NoReplay | src/hypermedia.rs:625-635 | In every run no envelope commits twice before the numbers wrap |
| EndpointSessions.NextAccepted | src/hypermedia.rs:625-647 | In every run the next envelope commits exactly when nothing was revoked, all committed requests completed, and address and number fit; a number completes exactly when it is that of the one request in flight |
| EndpointSessions.RevocationIsFinal | src/hypermedia.rs:649-652 | After a revoke event, whatever follows, the committed and completed requests stay those of before; every prepare and commit reports the revocation and every completion finds nothing in flight |
| EndpointSessions.ArgusEndpointSession.CommitEnvelope | src/hypermedia.rs:625-635 | The whole session after `commit`, and its result |
| EndpointSessions.ArgusEndpointSession.CompleteRequest | src/hypermedia.rs:637-647 | The whole session after `complete`, and its result |
| Capabilities.ParseHandle | src/capability.rs:96-139 | Ok exactly for legal text with a digit whose number fits; overflow exactly when a legal prefix is already too large; malformed otherwise |
| Capabilities.AcceptsExactly | src/capability.rs:96-139 | A handle is accepted exactly when, after `0x` or `0X` if present, it has only digits and underscores, a digit, and a number that fits; and overflows exactly when a legal prefix already does |
| Capabilities.DigitsExactly | src/capability.rs:115-120 | Which bytes are digits, in characters, and what each is worth |
| Capabilities.HexRoundTrip | src/capability.rs:96-139 | Any 64-bit number printed in hexadecimal after a prefix, with underscores among the digits, parses back |
| Capabilities.DecimalRoundTrip | src/capability.rs:96-139 | Any 64-bit number printed in decimal, with underscores among the digits, parses back |
| Capabilities.BrokenPrefixFails | src/capability.rs:97-101 | An `x` behind zeros and underscores only is malformed unless exactly one zero stands before it, so any number of underscores before or inside the prefix breaks it |
| Environment.ComputeFnv | src/env.rs:111-120 | The loop computes the hash as a fold over the bytes |
| Environment.FnvStarts | src/env.rs:111-120 | The hash of nothing is the offset basis of FNV-1a, and each byte is stirred in before multiplying by its prime |
| Environment.FnvSensitive | src/env.rs:111-120 | Keys of equal length that differ in exactly one byte never collide |
| Environment.ScanKey | src/env.rs:147-162 | The scan by name returns the value of the first matching entry |
| Environment.ScanPhase | src/env.rs:165-181 | The scan by hash returns the value of the first match unless an entry without `=` comes first |
| Environment.EnvSnapshot.Fill | src/env.rs:213-235 | The snapshot holds the first 128 entries with a separator, hashed, their values cut at 65535 bytes |
| Environment.PhaseFinds | src/env.rs:165-181 | What the scan by hash finds, in terms of the first match |
| Environment.SnapshotFinds | src/env.rs:213-242 | What the snapshot finds, in terms of the first match |
| Environment.SnapshotAgreesExactly | src/env.rs:165-242 | The exact condition under which snapshot and scan give the same answer |
| Environment.SnapshotReplacesScan | src/env.rs:165-242 | With at most 128 separated entries of representable size they agree for every key |
| Environment.MatchesExactly | src/env.rs:147-162 | For a key without `=` the comparison accepts exactly the entries of that name with a non-empty value |
| Environment.ScansAgreeExactly | src/env.rs:147-181 | For every block and every key without `=`, the exact condition under which the scans by name and by hash agree, in terms of the entries at which each ends |
| Environment.HashEndsFirst | src/env.rs:147-181 | The scan by hash never reads further than the scan by name |
| Environment.EmptyValueDisagrees | src/env.rs:147-181 | An empty value is found by its hash and missed by its name, whatever the key |
| Environment.BareEntryDisagrees | src/env.rs:165-242 | An entry without `=` before the match: the scan by hash gives up, the snapshot skips it |
| Environment.LateEntryDisagrees | src/env.rs:213-242 | A match behind 128 other entries: the scan finds it, the snapshot has no room for it |
| Environment.LongValueDisagrees | src/env.rs:213-242 | A value of 65536 bytes: the scan returns it whole, the snapshot without its last byte |
| Environment.EnvSnapshot.Lookup | src/env.rs:237-242 | Returns the value of the first stored entry with the hash |

## Left out

- Weak memory orderings: every protocol step is sequentially consistent, and guards are always dropped.
- Spurious failures of the weak compare-exchange in `allocate_page`: a failed attempt is repeated, so one step stands for the loop.
- The lock inside `alloc` and `dealloc`: the heap object takes the outcome of its 64 attempts as a parameter; `Entanglement` is about those attempts, and `HeapThreads` joins the two on values.
- Concurrent receivers on one bridge ring, and the helper that injects frames for the bridge's own tests.
- `ChannelMessage::with_payload` and its truncation, `SlabToken` packing, and the statistics getters: each follows from one expression.
- Sealed records are values: `seal` returns the sealed record where the source overwrites one field; the mailboxes copy records as the source does.
- Collision resistance of roots when several words change, the length of a calibrator's ring with them: only changes of one position are theorems.
- Collisions of key hashes: keys of equal length that differ in one byte never collide, nothing is said of others.
- Forged certificates: runs of the controller assume that a certificate that verifies is one it issued.
- `sort_unstable` is the function `Sorted`; the library's own algorithm is not modelled.
- Raw pointers, waker tables and pinning of the executor: a future is a finite script of polls and a waker is "set bit". A waker cloned and used after its pass refers to a stack frame that is gone; this is not modelled.
- `run_forever` with tasks that nobody wakes does not terminate in the source and has no contract here; the yield between passes is left out.
- CPU fields that no modelled operation reads (package, core, thread, hardware number, kind), affinity hints and the iterators of `kairos.rs`. The array sizes come from a crate that is not part of this model and are parameters.
- Word overflow in `partition_work`: products are bounded by the total or by the squared number of enabled members, and are unbounded integers here (`Kairos.ProductsStaySmall`); the latter fits a word because the arrays of the wire format are small.
- `TlsTrustAnchor`, `HttpLease::from_broker` and the getters of `hypermedia.rs`: equality and non-zero tests.
- `CapabilityEnvelope::recv`: composes the snapshot lookup and the parser.
- Stack-pointer walking and C strings of `env.rs`: the block is a sequence of byte strings.
- Syscall wrappers, `nexus.rs`, `certificate.rs`, `resonance_plane.rs`, `policy.rs`, `hermes_manifold.rs`, `tuning.rs`, `wayland.rs`, `thermogenesis.rs`, `net.rs`, `storage.rs`, `memory/relativistic.rs`, build scripts and the Agda and Idris files.
