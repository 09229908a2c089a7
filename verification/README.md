# Keryx delivery core: a Dafny model

Keryx carries tasks, results and typed control messages between agent nodes through a relay. This
project models the parts of it whose correctness depends on several collections, loops or processes
agreeing, and proves what they promise.

**Relay delivery.** The relay keeps about ten collections under one lock: FIFO mailboxes, a bounded
ownership table, a bounded acknowledgement window, a table of published task identities with its
reverse index and eviction queue, four waiter maps, and fenced connections. The model says this
state once, as a *ledger* (`Ledger.dfy`): every frame ever accepted, in order, with its fate, the
acknowledgements in order, and the retained task identities. Each collection of the source is a
projection of the ledger. `RelayRuntime.dfy` is the class with the collections themselves, updated
in place; its `Valid()` says that each equals its projection, and each method is proved to make
exactly one ledger step of `RelaySpec.dfy`. `RelaySystem.dfy` adds the RPC handlers as processes:
a publisher routes a frame, waits under a guard, and ends by observing its waiter or by being
dropped. A run is any list of events. `RelayService.dfy` drives the class through a run, and
`RelayTheorems.dfy`, `RelayConservation.dfy`, `RelayGuarantees.dfy`, `RelayFencing.dfy`,
`RelayStreams.dfy` and `RelayCoverage.dfy` hold what is true in every run. `RelayPublications.dfy` and
`RelayAnswers.dfy` give every answer of the relay in every run, on the fields of the requests and on
the mailboxes alone.

**Shutdown drain.** RPC admission (check, count, check again) interleaved with a shutdown that sets
a flag and polls the counter, for any number of threads, with the counter's 64-bit width.

**Artifact pipeline.** The executor's validation, the origin's in-place canonicalisation, and the
store's own check, related end to end for every hash function onto 64 lowercase hexadecimal digits.

**Skill registry.** Registrations by peer with a live skill index, and discovery against a scan.

**Smaller cores.** Jittered backoff, the Base16 node key codec, and the accumulating comparison.

## Where a promise needs a condition

- Executor and origin agree exactly up to 2^32 artifacts, because the origin numbers artifacts with
  32 bits; the store also refuses bytes at ordinal 2^32 - 1. `ExecutorImpliesOrigin`,
  `OriginImpliesStore` and `PipelineAgreement` are if-and-only-if; `OriginRefusesTooMany` gives the
  input. It is an input to the functions only: the transport caps a message at
  `RESULT_ARTIFACT_FRAME_MAX_BYTES` (crates/keryx-relay/src/node.rs:107-108), far below such a list.
- Discovery equals a full scan exactly when the skill filter is not whitespace-only: the index skips
  blank skill ids while the matcher compares them. `DiscoverIsScanIff`, `BlankFilterMisses`.
- A drain that read zero is safe in all runs with at most n threads in flight at once exactly when n
  is below 2^64, the width of the counter; the number of RPCs served in all does not matter.
  `DrainIsSafeIff`, `WrappedCounterCanOverlap`. A drain that timed out promises nothing:
  `TimedOutCanOverlap`.
- A cleanup is fenced in all runs of at most n connects exactly when n is below 2^64, because
  generations repeat with period 2^64 - 1. `FencedIff`, `ReusedGenerationBreaksFence`,
  `GenerationsCollide`.
- A pending frame of a connected node is on the node's stream, or was received from it, exactly when
  it was accepted before the node connected or the stream had room when it was accepted. A frame
  accepted while the stream is full waits in the mailbox for a reconnect, even when the stream is
  full of frames that are settled already. `StreamCarriesIff`, `FullStreamMisses`.

## Model

| member | source | states |
|---|---|---|
| `TaskTable.AdmissionPigeonhole` | crates/keryx-relay/src/runtime.rs:797-844 | below a non-full ownership table, a full identity table always holds an acknowledged identity to evict, because unacknowledged identities inject into owned frames |
| `TaskTable.TaskFramesDistinct` | crates/keryx-relay/src/runtime.rs:103-120 | two retained identities never share a frame |
| `RelayRuntime.IndexIsBijection` | crates/keryx-relay/src/runtime.rs:103-120 | the reverse index finds every record under its own frame and under no other key, and has no other entry |
| `TaskTable.EvictableExact` | crates/keryx-relay/src/runtime.rs:978-994 | the eviction queue lists exactly the acknowledged identities |
| `TaskTable.EvictableNoDup` | crates/keryx-relay/src/runtime.rs:978-994 | the eviction queue lists no identity twice |
| `TaskTable.EvictHead` | crates/keryx-relay/src/runtime.rs:812-821 | evicting the head identity pops the queue and disturbs no other entry of it |
| `TaskTable.HeadIsOldest` | crates/keryx-relay/src/runtime.rs:812-821 | the identity evicted first is the retained one that was acknowledged first |
| `TaskTable.RoomForIsRoom` | crates/keryx-relay/src/runtime.rs:812-821 | at most one eviction makes room for any admission, and only a full table evicts |
| `TaskTable.PendingSurvivesRoom` | crates/keryx-relay/src/runtime.rs:812-821 | making room never drops an identity whose frame is unacknowledged |
| `TaskTable.AdmitKeeps` | crates/keryx-relay/src/runtime.rs:770-844 | admitting an identity with its frame keeps the whole ledger invariant |
| `TaskTable.AdmitEvictable` | crates/keryx-relay/src/runtime.rs:812-832 | an admission takes at most the oldest acknowledged identity off the queue and adds nothing to it |
| `TaskTable.AcknowledgeEvictable` | crates/keryx-relay/src/runtime.rs:978-994 | an acknowledgement queues exactly the identity of its frame, if it has one, at the back |
| `MailboxDepth.TotalDepthIsOwned` | crates/keryx-relay/src/runtime.rs:1008-1026 | the depths of all mailboxes add up to the size of the ownership table, and so stay within its bound |
| `MailboxDepth.MailboxAtMostOwned` | crates/keryx-relay/src/runtime.rs:1012-1019 | no mailbox outgrows the ownership table, so the per-mailbox capacity test never rejects on its own |
| `Ledger.MailboxRetain` | crates/keryx-relay/src/runtime.rs:598-609 | removing frames from a mailbox in place is the same as settling their entries, and leaves every other mailbox alone |
| `Ledger.MailboxDistinct` | crates/keryx-relay/src/runtime.rs:1009-1026 | no two frames of one mailbox share an id |
| `RelayRuntime.RelayRuntime.constructor` | crates/keryx-relay/src/runtime.rs:136-147 | the empty runtime is valid and stands for the initial state |
| `RelayRuntime.RelayRuntime.RegisterNode` | crates/keryx-relay/src/runtime.rs:187-192 | the node is registered and no frame changes |
| `RelayRuntime.RelayRuntime.RouteFrameLocked` | crates/keryx-relay/src/runtime.rs:996-1051 | every rejection leaves the state as it was; otherwise the frame is accepted at the back of its mailbox, and the delivery says whether the live stream took it |
| `RelayRuntime.RelayRuntime.RouteWaiting` | crates/keryx-relay/src/runtime.rs:330-362 | the waiter is installed exactly when the frame is accepted, in the map of its own kind |
| `RelayRuntime.RelayRuntime.CompleteControl` | crates/keryx-relay/src/runtime.rs:408-440 | every collection follows the completion, and its waiter then sees exactly the result; any other answer leaves every waiter as it was; a found waiter always owns its frame. `RelayAnswers.CompletionAnswers` gives the answers |
| `RelayRuntime.RelayRuntime.AbandonFrame` | crates/keryx-relay/src/runtime.rs:598-609 | exactly one key leaves ownership, waiters and mailbox, and its sender is dropped |
| `RelayRuntime.RelayRuntime.RememberAcknowledgement` | crates/keryx-relay/src/runtime.rs:967-976 | set and queue stay equal and hold the newest acknowledgements; a repeated one changes nothing |
| `RelayRuntime.RelayRuntime.MarkPublishedTaskAcknowledged` | crates/keryx-relay/src/runtime.rs:978-994 | for an owned frame, a table that stood for the ledger then stands for the ledger in which that frame is acknowledged: record, index and eviction queue together |
| `RelayRuntime.RelayRuntime.AckFrame` | crates/keryx-relay/src/runtime.rs:612-660 | every collection follows the acknowledgement, and it fires the waiter of a result frame and no other. `RelayAnswers.AcknowledgementAnswers` gives the answers |
| `RelayRuntime.RelayRuntime.RemoveMailboxCopy` | crates/keryx-relay/src/runtime.rs:643-650 | removing by first position removes every copy of the id |
| `RelayRuntime.RelayRuntime.AcknowledgeQueues` | crates/keryx-relay/src/runtime.rs:642-651 | ownership, mailbox and window after the acknowledgement are those of the acknowledged ledger |
| `RelayRuntime.RelayRuntime.MakeRoom` | crates/keryx-relay/src/runtime.rs:812-821 | the eviction loop ends with room, after at most one eviction, with table, index and queue still coherent |
| `RelayRuntime.RelayRuntime.AdmitOwned` | crates/keryx-relay/src/runtime.rs:812-843 | past the pre-checks the inner route always delivers or mailboxes, as the debug assertion claims |
| `RelayRuntime.RelayRuntime.PublishTaskFrame` | crates/keryx-relay/src/runtime.rs:770-844 | invalid, retry, conflict and capacity answers change nothing; a new identity is admitted with its frame |
| `RelayRuntime.RelayRuntime.ConnectNodeFenced` | crates/keryx-relay/src/runtime.rs:200-240 | the stream is installed under the next generation exactly when it took the whole mailbox |
| `RelayRuntime.RelayRuntime.Unacknowledged` | crates/keryx-relay/src/runtime.rs:210-217 | the replay filter drops nothing: no mailboxed frame is in the acknowledged set |
| `RelayRuntime.Replay` | crates/keryx-relay/src/runtime.rs:218-232 | the stream receives the longest prefix it can hold, in order |
| `RelayRuntime.RelayRuntime.AbandonFleetDestination` | crates/keryx-relay/src/runtime.rs:1053-1067 | purges exactly the Fleet keys of the destination from waiters, ownership and mailbox |
| `RelayRuntime.RelayRuntime.DisconnectNode` | crates/keryx-relay/src/runtime.rs:243-249 | an unknown node changes nothing; a connected one loses its stream and its Fleet frames only |
| `RelayRuntime.RelayRuntime.DisconnectNodeIfCurrent` | crates/keryx-relay/src/runtime.rs:252-263 | acts only on the generation that is installed |
| `RelaySystem.EveryStep` | crates/keryx-relay/src/runtime.rs:330-660 | every event keeps the ledger coherent and accounts for every change: entries only settle, for a named reason, and at most one pending entry is added |
| `RelaySystem.StepKeeps` | crates/keryx-relay/src/health_server.rs:87-220 | every event of every handler keeps the system invariant: guards, ownership, waiters and identities agree |
| `RelayTheorems.ReachableInv` | crates/keryx-relay/src/runtime.rs:103-120 | the system invariant holds after any list of events |
| `RelayService.RelayService.Handle` | crates/keryx-relay/src/health_server.rs:87-220 | one handler event on the class is one event of the run, guards included, with no precondition left to the caller beyond the event being possible |
| `RelayService.Run` | crates/keryx-relay/src/runtime.rs:103-120 | the class driven through any list of possible events ends in the state of that run |
| `RelayService.EveryRunIsRunnable` | crates/keryx-relay/src/runtime.rs:103-120 | every run is the run of a list of possible events, so the class reaches every state the theorems speak of |
| `RelayTheorems.LeakFreedom` | crates/keryx-relay/src/health_server.rs:87-145 | in every run an owned frame belongs to an unacknowledged published task or an armed guard, and nothing is left of an ended publisher's frame |
| `RelayTheorems.EndReleasesOnlyItsFrame` | crates/keryx-relay/src/health_server.rs:572-597 | a publisher that ends, in any way, is disarmed, releases its key everywhere and moves no other key |
| `RelayTheorems.OwnedIffMailboxed` | crates/keryx-relay/src/runtime.rs:1008-1026 | a key is owned if and only if its mailbox holds its frame |
| `RelayConservation.OrderIsWhatWasAccepted` | crates/keryx-relay/src/runtime.rs:996-1026 | in every run the acceptance order is the list of keys the relay answered New, Delivered or Mailboxed for, in order |
| `RelayConservation.OnLedgerIffAccepted` | crates/keryx-relay/src/runtime.rs:330-660 | at every point of every run a frame is known exactly when an earlier event was answered for it |
| `RelayConservation.AcceptedOnce` | crates/keryx-relay/src/runtime.rs:1009-1011 | no two events of a run are answered for the same key |
| `RelayConservation.ExactlyOneFate` | crates/keryx-relay/src/runtime.rs:330-660 | in every run an accepted frame sits in its mailbox as published and nothing settled it, or it has left the mailbox and exactly one event settled it |
| `RelayConservation.Conservation` | crates/keryx-relay/src/runtime.rs:330-660 | in every run, frames answered for = total mailbox depth + acknowledged + completed + abandoned |
| `RelayTheorems.SettlementExplained` | crates/keryx-relay/src/runtime.rs:408-660 | a frame stops being pending only through its exact destination and its own kind of settlement, its publisher's end, or a Fleet purge of its destination |
| `RelayTheorems.FateIsFinal` | crates/keryx-relay/src/runtime.rs:330-660 | an accepted frame keeps its content forever and a settled fate never changes, so a waiter fires at most once |
| `RelayPublications.RepeatedIffPreceded` | crates/keryx-relay/src/health_server.rs:502-530 | in every run a publication is answered with a retry or a conflict exactly when an earlier publication of the same source, destination and trimmed task id was admitted and not evicted since |
| `RelayPublications.RepublicationAnswer` | crates/keryx-relay/src/runtime.rs:788-796 | in every run such a publication gets the earlier one's receipt if the tasks agree outside the projected entry and a conflict if not, and changes nothing |
| `RelayPublications.PrecedesOne` | crates/keryx-relay/src/runtime.rs:783-796 | there is at most one such earlier publication |
| `RelayPublications.FirstPublicationAnswer` | crates/keryx-relay/src/runtime.rs:797-844 | in every run any other publication is refused, changing nothing, exactly when 8192 frames are pending, and is otherwise admitted under its own receipt |
| `RelayPublications.PublicationIsMailboxed` | crates/keryx-relay/src/health_server.rs:484-501 | an admitted publication puts at the back of its destination's mailbox one frame with its source and destination, its task body, its metadata with the features entry set, and no other payload; it is delivered exactly when the live stream has room |
| `RelayPublications.TableIsWhatWasAdmitted` | crates/keryx-relay/src/runtime.rs:783-832 | at every point of every run the identity table holds exactly the identities admitted and not evicted since, each under its own task and receipt |
| `RelayGuarantees.AdmissionExact` | crates/keryx-relay/src/runtime.rs:797-844 | in every run an admission evicts at most the oldest acknowledged identity, and only from a full table; nothing but an admission changes the relay |
| `RelayGuarantees.IdentityIgnoresProjection` | crates/keryx-relay/src/health_server.rs:1189-1195 | two envelopes have the same identity if and only if they differ at most in the relay-projected metadata entry |
| `RelayPublications.OnePendingPublication` | crates/keryx-relay/src/runtime.rs:770-844 | in every run two pending frames never stem from publications of the same source, destination and trimmed task id |
| `RelayGuarantees.RetainedUntilEvicted` | crates/keryx-relay/src/runtime.rs:788-844 | in every run an admitted identity keeps its envelope and receipt until an admission into a full table evicts it as the oldest acknowledged one |
| `RelayGuarantees.EvictedWasAcknowledged` | crates/keryx-relay/src/runtime.rs:812-821 | in every run eviction only follows acknowledgement of the identity's frame |
| `RelayGuarantees.RetryStability` | crates/keryx-relay/src/runtime.rs:788-795 | in every run, from admission until eviction, republication answers with the original receipt, a different envelope with a conflict, and neither changes the relay |
| `RelayGuarantees.TypedWaitersAreMailboxedKinds` | crates/keryx-relay/src/runtime.rs:365-594 | in every run each typed waiter map is exactly the set of mailboxed frames of that payload kind |
| `RelayGuarantees.InWindow` | crates/keryx-relay/src/runtime.rs:967-976 | an acknowledgement is in the window if and only if fewer than its size came after |
| `RelayGuarantees.AcksAreTrimmed` | crates/keryx-relay/src/runtime.rs:612-620 | in every run an acknowledged key names a trimmed, non-empty destination |
| `RelayGuarantees.AcknowledgementWindow` | crates/keryx-relay/src/runtime.rs:612-660 | in every run any acknowledged frame answers accepted, and is refused as a duplicate, exactly until 8192 further frames are acknowledged |
| `RelayGuarantees.ReplayIsComplete` | crates/keryx-relay/src/health_server.rs:356-401 | in every run a node connecting through the handler's channel is registered and installed with its whole mailbox queued in acceptance order; frames and other connections stay |
| `RelayAnswers.AcknowledgementAnswers` | crates/keryx-relay/src/runtime.rs:612-660 | in every run an acknowledgement takes a mailboxed task or result frame of the exact destination out of its mailbox as acknowledged; otherwise it changes nothing and answers accepted exactly for one of the last 8192 acknowledgements, wrong destination exactly when the id is mailboxed elsewhere and not as a typed control here, and unknown for the rest |
| `RelayAnswers.CompletionAnswers` | crates/keryx-relay/src/runtime.rs:408-594 | in every run, for each typed kind, a completion takes a mailboxed frame of that kind and exact destination out of its mailbox as completed with the result; otherwise it changes nothing and answers wrong destination exactly when the id is mailboxed elsewhere as that kind, and unknown for the rest |
| `RelayAnswers.RouteAnswers` | crates/keryx-relay/src/runtime.rs:330-559 | in every run a waiting route accepts exactly the frames with one payload of its kind and, for a control, a matching target, while fewer than 8192 are pending; the frame is then at the back of its mailbox, delivered exactly when the stream has room, under an armed guard |
| `RelayAnswers.PendingIsDuplicate` | crates/keryx-relay/src/runtime.rs:1008-1011 | an id that is mailboxed for a destination is refused there as a duplicate, changing nothing |
| `RelayAnswers.DisconnectAnswers` | crates/keryx-relay/src/runtime.rs:243-249 | in every run a disconnect removes the connection and takes exactly the Fleet frames out of the node's mailbox, as abandoned; an unknown node changes nothing |
| `RelayFencing.GenerationCountsConnects` | crates/keryx-relay/src/runtime.rs:207-208 | in every run the generation is a function of the number of connects, through the 64-bit wrap that skips zero |
| `RelayFencing.GenerationsIncrease` | crates/keryx-relay/src/runtime.rs:200-240 | below 2^64 connects, generations are unique and increasing |
| `RelayFencing.GenerationsCollide` | crates/keryx-relay/src/runtime.rs:207-208 | two connects share a generation if and only if a multiple of 2^64 - 1 connects separates them |
| `RelayFencing.ConnectInstalls` | crates/keryx-relay/src/runtime.rs:200-240 | in every run a connect installs its own stream under the generation it was given |
| `RelayFencing.Provenance` | crates/keryx-relay/src/runtime.rs:200-240 | in every run, wrapped or not, a node's stream was installed by that node's last connect and has been there under that connect's generation ever since |
| `RelayFencing.CleanupIsFenced` | crates/keryx-relay/src/runtime.rs:252-263 | below 2^64 connects, a cleanup holding a connect's generation changes nothing at all unless that connect installed the present stream, and then removes that connection and exactly its Fleet frames |
| `RelayFencing.ReusedGenerationBreaksFence` | crates/keryx-relay/src/runtime.rs:207-208 | a run of 2^64 connects in which the first connect's cleanup removes the last connect's stream |
| `RelayFencing.FencedIff` | crates/keryx-relay/src/runtime.rs:200-263 | cleanups are fenced in all runs of at most n connects if and only if n is below 2^64 |
| `RelayStreams.DeliverQueues` | crates/keryx-relay/src/runtime.rs:1027-1051 | a live push appends the frame to its target's queue exactly when it answers delivered, which is exactly when the stream is open with room; a closed stream is dropped; no other connection changes |
| `RelayStreams.LiveStreamsAreSound` | crates/keryx-relay/src/runtime.rs:200-240 | in every run, what waits on a node's stream was accepted for that node, is unaltered, and waits there once |
| `RelayCoverage.StreamCarriesIff` | crates/keryx-relay/src/runtime.rs:1027-1051 | in every run a pending frame of a connected node is on its stream, or was received from it, if and only if it was accepted before the connect or the stream had room when it was accepted |
| `RelayCoverage.FullStreamMisses` | crates/keryx-relay/src/runtime.rs:1033-1036 | a run in which an open stream full of settled frames leaves its node without a pending frame |
| `RelayCoverage.LeavesByReceipt` | crates/keryx-relay/src/runtime.rs:200-240 | in every run a frame leaves the stream of a node that stays connected only by being received, at its head |
| `Shutdown.CounterKeeps` | crates/keryx-daemon/src/lib.rs:148-174 | every atomic step keeps the counter equal, modulo 2^64, to the number of threads between increment and decrement |
| `Shutdown.CounterIsExact` | crates/keryx-daemon/src/lib.rs:97-174 | in every interleaving the counter is the number of threads in flight if and only if fewer than 2^64 are, and then zero means none |
| `Shutdown.NoEntryAfterFlag` | crates/keryx-daemon/src/lib.rs:148-168 | in every interleaving an RPC inside after the flag was set was already inside when it was set |
| `Shutdown.InitiateCloses` | crates/keryx-daemon/src/lib.rs:123-126 | either way of starting a shutdown sets the flag, and whoever is inside afterwards was inside before |
| `Shutdown.FirstCheckRefuses` | crates/keryx-daemon/src/lib.rs:149-151 | after the flag an arriving RPC is refused without being counted |
| `Shutdown.SecondCheckRefuses` | crates/keryx-daemon/src/lib.rs:156-162 | an RPC refused at its second check gives its count back and leaves |
| `Shutdown.GuardReleases` | crates/keryx-daemon/src/lib.rs:170-174 | dropping the guard gives the count back |
| `Shutdown.Enters` | crates/keryx-daemon/src/lib.rs:148-168 | before any shutdown an arriving RPC gets in and is counted once |
| `Shutdown.DrainedMeansNoneInside` | crates/keryx-daemon/src/lib.rs:659-680 | once the drain has read zero with fewer than 2^64 in flight, no RPC is inside its section at any later point of any interleaving, however many come and go |
| `Shutdown.DrainIsSafeIff` | crates/keryx-daemon/src/lib.rs:659-680 | a drain that read zero leaves nobody inside, in all runs with at most n threads in flight at once, if and only if n is below 2^64 |
| `Shutdown.TimedOutCanOverlap` | crates/keryx-daemon/src/lib.rs:670-677 | after a timed-out drain an RPC can still be inside |
| `Shutdown.WrappedCounterCanOverlap` | crates/keryx-daemon/src/lib.rs:148-168 | a run whose 2^64 RPCs inside read as zero |
| `Artifacts.DigestParseIsExact` | crates/keryx-daemon/src/lib.rs:2351-2359 | normalising and comparing accepts exactly the strings of 64 lowercase hexadecimal digits |
| `Artifacts.CheckContent` | crates/keryx-daemon/src/lib.rs:2296-2318 | passes exactly when digest and length are declared right and the bytes so far stay within 4 MiB, and otherwise names the first of these that fails |
| `Artifacts.ValidateWorkerArtifacts` | crates/keryx-daemon/src/lib.rs:2289-2349 | accepts exactly the lists in which every byte-bearing artifact declares its own digest and length, every other one carries nothing, and the bytes add up to at most 4 MiB; every field crosses unchanged; a refusal names the first artifact and the first condition that fails |
| `Artifacts.SoundIsAcceptable` | crates/keryx-daemon/src/lib.rs:2289-2349 | the tests made artifact by artifact amount to that condition on the whole list |
| `ArtifactOrigin.CanonicalizeOne` | crates/keryx-daemon/src/lib.rs:2376-2432 | one artifact is checked, given its id and stripped of its bytes, or left as far as the check got; no other artifact changes |
| `ArtifactOrigin.Canonicalize` | crates/keryx-daemon/src/lib.rs:2361-2435 | refuses bytes below version 2 untouched; accepts exactly the lists of at most 2^32 artifacts without ids, declared right, within 4 MiB; when it stops, it names the first artifact and condition that fail, has rewritten what came before, left what comes after, and given the faulty artifact its id unless the fault came first |
| `ArtifactOrigin.OriginSoundIsAcceptable` | crates/keryx-daemon/src/lib.rs:2376-2432 | the tests made artifact by artifact amount to that condition on the whole list |
| `ArtifactOrigin.ValidateStored` | crates/keryx-store/src/results.rs:160-225 | accepts exactly the items of this task under increasing ordinals below 2^32 - 1 and their ids, with right length and digest, within 4 MiB; a refusal names the first item and condition that fail |
| `ArtifactOrigin.StoreSoundIsAcceptable` | crates/keryx-store/src/results.rs:160-225 | the tests made item by item amount to that condition on the whole list |
| `ArtifactPipeline.ExecutorImpliesOrigin` | crates/keryx-daemon/src/lib.rs:2289-2435 | a list the executor accepts is accepted by the origin under the version the executor chose if and only if it has at most 2^32 artifacts |
| `ArtifactPipeline.VersionIsLeast` | crates/keryx-daemon/src/lib.rs:2275-2277 | the version the executor stamps is the least one under which the origin accepts the result |
| `ArtifactPipeline.OriginRefusesTooMany` | crates/keryx-daemon/src/lib.rs:2382-2383 | 2^32 + 1 descriptors pass the executor and are refused by the origin |
| `ArtifactPipeline.StoredComesFromContent` | crates/keryx-daemon/src/lib.rs:2416-2432 | every stored item is a byte-bearing artifact under its own ordinal and id, for this task and completion time, with its bytes, digest and length, inline up to 64 KiB, its media type trimmed and lower-cased or the default one |
| `ArtifactPipeline.CanonicalIsDescriptor` | crates/keryx-daemon/src/lib.rs:2384-2419 | what the origin keeps of an artifact is its descriptor under the ordinal's id, and no bytes |
| `ArtifactPipeline.StoredInOrder` | crates/keryx-daemon/src/lib.rs:2420-2432 | stored ordinals strictly increase |
| `ArtifactPipeline.ContentIsStored` | crates/keryx-daemon/src/lib.rs:2376-2432 | every byte-bearing artifact is stored |
| `ArtifactPipeline.StoredWithinLimit` | crates/keryx-daemon/src/lib.rs:2407-2414 | the stored bytes are the bytes received and stay within 4 MiB |
| `ArtifactPipeline.OriginImpliesStore` | crates/keryx-store/src/results.rs:160-225 | the store accepts what the origin accepted, except bytes at ordinal 2^32 - 1 |
| `ArtifactPipeline.PipelineAgreement` | crates/keryx-daemon/src/lib.rs:2258-2435 | end to end: executor acceptance carries through both later stages if and only if the ordinals fit |
| `ArtifactPipeline.CanonicalizationIsLossless` | crates/keryx-daemon/src/lib.rs:2361-2435 | the received result can be rebuilt exactly from the canonical result and the stored items |
| `Skills.ListingIsUnique` | crates/keryx-relay/src/registry.rs:304-315 | a set of registrations has only one listing sorted by peer id |
| `Skills.SortByPeer` | crates/keryx-relay/src/registry.rs:304-315 | the sorted result has exactly the given registrations, in strictly increasing peer ids |
| `Skills.MergeSkills` | crates/keryx-relay/src/registry.rs:498-512 | the loop computes the fold of single replacements |
| `Skills.MergeOverrides` | crates/keryx-relay/src/registry.rs:498-512 | merging is an override by id: the last non-blank incoming skill wins and every other skill is kept |
| `Skills.MergeKeepsPlaces` | crates/keryx-relay/src/registry.rs:498-512 | every existing skill keeps its place under its id, and what is appended is new and not blank |
| `Skills.LessByFirstDifference` | crates/keryx-relay/src/registry.rs:304-315 | peer ids are ordered by their first difference, a proper prefix first |
| `SkillRegistry.Registry.constructor` | crates/keryx-relay/src/registry.rs:47-50 | the empty registry is valid |
| `SkillRegistry.Registry.RemovePeer` | crates/keryx-relay/src/registry.rs:445-454 | removes exactly the peer, and the index stays the relation of the node map with no empty bucket |
| `SkillRegistry.Registry.InsertRegistration` | crates/keryx-relay/src/registry.rs:431-443 | replaces exactly the peer's registration, and the index follows, whatever skills were dropped or repeated |
| `SkillRegistry.Registry.PurgeExpired` | crates/keryx-relay/src/registry.rs:456-467 | a registration goes exactly when its expiry is not after now; the others and their index entries stay |
| `SkillRegistry.Registry.Query` | crates/keryx-relay/src/registry.rs:294-319 | on any registry, whatever happened since the purge, answers the first min(limit, size) of the sorted listing of what the indexed lookup finds, and all of it for limit 0 |
| `SkillRegistry.Registry.Discover` | crates/keryx-relay/src/registry.rs:287-320 | answers the sorted, truncated listing of the matching live registrations; a whitespace-only filter finds none |
| `SkillRegistry.WantedMeans` | crates/keryx-relay/src/registry.rs:484-496 | a query wants every registration if it filters nothing, and otherwise one with a single skill that has the id asked for and every tag |
| `SkillRegistry.Registry.Register` | crates/keryx-relay/src/registry.rs:386-397 | purges, then replaces exactly one registration |
| `SkillRegistry.Registry.UpsertNode` | crates/keryx-relay/src/registry.rs:159-195 | a live peer keeps its skills and features, gets the new expiry, and takes a text exactly when it is not blank or there was none; a new one has no skills and the given texts; every other live registration stays |
| `SkillRegistry.Registry.AddSkills` | crates/keryx-relay/src/registry.rs:204-247 | refreshes like that, and for every id the skill found afterwards is the last non-blank incoming one, or the one the live peer had |
| `SkillRegistry.Registry.Unregister` | crates/keryx-relay/src/registry.rs:250-284 | drops the named skills, or the peer when none is named or none is left; an unknown peer changes nothing beyond the purge |
| `SkillRegistry.FoundByIndex` | crates/keryx-relay/src/registry.rs:294-316 | the indexed lookup finds exactly what a scan finds, except nothing for a whitespace-only filter |
| `SkillRegistry.DiscoverIsScanIff` | crates/keryx-relay/src/registry.rs:287-320 | the indexed lookup equals a full scan, in every registry with a coherent index and for all tags, if and only if the filter is not whitespace-only |
| `SkillRegistry.BlankFilterMisses` | crates/keryx-relay/src/registry.rs:431-438 | a registry with its coherent index where the scan finds a peer and the lookup finds none |
| `SkillRegistry.DiscoverIsDeterministic` | crates/keryx-relay/src/registry.rs:304-319 | the truncated answer does not depend on map order |
| `SkillRegistry.DroppedKeepsOthers` | crates/keryx-relay/src/registry.rs:261-263 | exactly the skills whose id was not named are kept |
| `SkillRegistry.DroppedSplits` | crates/keryx-relay/src/registry.rs:261-263 | dropping works on any split of the list, so the kept skills stay in order |
| `Backoff.JitterWithinFifth` | crates/keryx-relay/src/node.rs:153-162 | for every seed and attempt the jittered delay is within a fifth of its base, up to saturation, and never above the cap |
| `Backoff.JitterReachesAll` | crates/keryx-relay/src/node.rs:153-157 | at every attempt each percentage from 80 to 120 is drawn for some seed, because the multiplier is invertible modulo 2^64 |
| `Backoff.SeedIsFnv` | crates/keryx-relay/src/node.rs:144-151 | the seed is FNV-1a on its published values for the empty text and "a" |
| `Backoff.RetryDelayNearDoubling` | crates/keryx-relay/src/node.rs:900-911 | every redelivery delay is within a fifth of min(1 s * 2^attempts, 60 s), for any number of attempts |
| `Backoff.RetryDelayBounds` | crates/keryx-relay/src/node.rs:900-911 | every redelivery delay lies in [800, 60000] ms, and from the seventh attempt on is at least 48 s |
| `Backoff.RetryDelayIncreases` | crates/keryx-relay/src/node.rs:900-911 | delays strictly increase across the first seven attempts, for every delivery id |
| `Backoff.DoublingIsCapped` | crates/keryx-relay/src/node.rs:140-142 | repeated saturating doubling is min(initial * 2^k, max) |
| `Backoff.SuperviseRelayStream` | crates/keryx-relay/src/node.rs:175-206 | the k-th sleep is the jittered min(initial * 2^k, max), never above max, with the attempt counter saturating at 32 bits |
| `NodeKey.HexEncode` | crates/keryx-policy/src/lib.rs:750-758 | the printing loop appends two lowercase digits per byte |
| `NodeKey.HexDecodeExact` | crates/keryx-policy/src/lib.rs:760-769 | the parsing loop reports the length error first, then any bad digit, and otherwise the bytes |
| `NodeKey.DigitsAreBase16` | crates/keryx-policy/src/lib.rs:751 | the sixteen digits are lower-case hexadecimal and increase |
| `NodeKey.EncodeIsBase16` | crates/keryx-policy/src/lib.rs:750-758 | the printed text writes the bytes as one big-endian number in base 16 |
| `NodeKey.DecodeIsBase16` | crates/keryx-policy/src/lib.rs:760-778 | parsing reads the number the text writes, in either case |
| `NodeKey.Utf8Hex` | crates/keryx-policy/src/lib.rs:760-778 | working on UTF-8 bytes accepts exactly the texts of hexadecimal characters |
| `NodeKey.DecodeEncode` | crates/keryx-policy/src/lib.rs:750-778 | parsing printed bytes, of any length, returns them |
| `NodeKey.EncodeDecode` | crates/keryx-policy/src/lib.rs:750-778 | reprinting any accepted text gives its lower case |
| `NodeKey.KeyRoundTrip` | crates/keryx-policy/src/lib.rs:104-114 | a persisted key reads back as itself under any surrounding whitespace, with the prefix or in the legacy form |
| `NodeKey.AcceptedIffHex` | crates/keryx-policy/src/lib.rs:109-114 | a key text is accepted if and only if 64 hexadecimal digits remain after trimming and the prefix; reprinting adds the prefix and lowers the case |
| `Compare.XorZero` | crates/keryx-policy/src/lib.rs:782-786 | xor is zero exactly on equal numbers of any width |
| `Compare.ConstantTimeEq` | crates/keryx-policy/src/lib.rs:780-789 | the accumulating loop over the longer length decides equality, for sequences of any lengths |

## Left out

- RelayRuntime.RelayRuntime.RouteWaiting: the four waiting routes differ only in payload check and waiter map and are one method with the route as a parameter; a key already forgotten by the window may not be presented again (`Fresh`), since frame ids are relay-issued and new.
- RelayRuntime.RelayRuntime.RouteFrameLocked: requires the same freshness, and takes the publishing path as a ghost parameter.
- RelayRuntime.RelayRuntime.CompleteControl: the three typed completions are one method with the route as a parameter; the unreachable branch for a waiter without ownership is proved dead and not written.
- RelayRuntime.RelayRuntime.AbandonFrame: requires that the key is not a pending published task's, as every caller guarantees.
- RelayRuntime.RelayRuntime.PublishTaskFrame: requires the frame id and the receipt id to be the same trimmed text, as its only handler constructs them, and a fresh one.
- RelayRuntime.RelayRuntime.DisconnectNodeIfCurrent: the variants that also send a final status to the stream are not modelled.
- Shutdown.DrainedMeansNoneInside: the atomics are modelled as a state machine over values, one event per sequentially consistent access, not as a class.
- Skills.SortByPeer: the library sort is modelled as an insertion sort; peers are distinct map keys.
- SkillRegistry.Registry.Discover: runs the purge and the read without anything between their two lock sections; `Query` states the read on whatever registry it meets. The clock is read once per call and passed in.
- SkillRegistry.Registry.UpsertNode: the wall-clock timestamp fields, the default lifetime and gossip emission are not modelled.
- Stream channels are values owned by the relay state; sharing of a sender between threads is not modelled.
- One-shot waiters are keys in a map plus the channel cell their receiver reads (`signals`).
- The two-step classify and forget API for published tasks and the bare route without a waiter: no handler uses them.
- Metrics, peer connection bookkeeping, transport status and health.
- SHA-256 and the derivation of artifact ids are parameters; nothing is proved about collisions.
- The handler's own request checks before it reaches the runtime (blank task id, target taken from the task, destination features): the events are any requests, and no claim depends on those checks.
- Task leases, deadlines, recovery, the result outbox, dead-lettering and the database.
- gRPC, TLS, libp2p, authentication, field-length validators, configuration, the Python SDK and generated protocol code.
- File handling of node keys, and timing behaviour of the comparison: only its result is modelled.
