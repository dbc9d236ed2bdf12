# Virtual camera verification model

A Dafny model of the virtual camera's hard core, with proofs of its safety and of the
correctness of its code. `dafny verify dfyconfig.toml` checks the whole project.

## What is modelled

* **Frame hand-off.** `StableHal` is the vendor HAL endpoint as a class over the per-slot state
  arrays and the fds it owns; each method is one section under the HAL lock, and `enqueue` is cut
  at its condition wait. `Relay` is the platform's native side in the same way, with
  the proof that its sections are the hand-off's relay steps on every connection. `HalSpec` says
  what each HAL section may do to a slot, and `Handoff` runs those sections, the relay's sections
  and the RPC between them in every interleaving for one slot. A fence is the set of completion
  points it waits for; points only ever fire; duplication, merging and waiting may fail.
  `ReadFences` is the fence bookkeeping in place, with fds as linear resources. `HandoffProgress`
  says what the HAL's sections achieve: who gets a configuration, what a close ends, who is served.
* **Lifecycle.** `Lifecycle` is one slot's reservation and event admission, `ServiceSpec` the
  platform service as locked sections, one FIFO task queue per slot and the steps of the running
  task, `VirtualCameraService` the same as objects, and `Service` the proofs over all runs.
  `ServiceHistory` looks back over runs: checks behind callbacks, removals behind closes.
  `ServiceProgress` says what becomes of every task.
* **v2 ring.** `V2Ring` is the control ring with its 32-bit indices; `V2Protocol` interleaves
  every atomic load and store of renderer and HAL, each as one sequentially consistent step;
  `V2Progress` says what each call has achieved when it returns.
* **Capture session.** `Session` turns requests into answers and follows every fence, source
  lease and source sequence on the way; `Pacer` hands out frame slots; `CaptureTypes` holds what
  the session exchanges with framework and HAL.
* **Negotiation.** `Capabilities` validates descriptors and selects source modes; `Packing` is
  the descriptor's way from Java through an int array to C++.
* **Pixel marker.** `Checksum`, `Marker`, `MarkerImage` and `MarkerPath` follow an identity from
  the producer's draw calls through colour conversion to the decoder. `FrameFiller` and
  `PlaneCopy` are the strided plane loops. Machine integers of the codec are bit-vectors.

## What the proofs found

Each of these is proved, with its exact condition or a concrete witness.

* The v2 reader compares wrapped indices. It sees pending frames exactly while the write count
  has not passed a multiple of 2^32 that the read count has yet to reach; past that it stalls for
  good (`V2Ring.ReaderSeesPending`, `WrapHidesFrame`, `WrapStallsForever`).
* A marker painted upside down is read as what it is exactly unless its rows in reverse order
  form an acceptable marker too; such identities exist (`MarkerImage.FlippedDecodes`,
  `AmbiguousIsMisread`).
* The bulk chroma shortcut of the YUV copy keeps the picture exactly when the layouts differ, the
  planes are separate, or both buffers store Cb first; with Cr first it loses the first Cr sample
  (`PlaneCopy.CopyFrame`). Its last row then also ends one byte past the chroma, and past the
  buffer exactly when nothing follows the last chroma row, as in a tightly packed buffer
  (`PlaneCopy.BulkInside`, `OverrunIsOneByte`, `TightlyPackedOverruns`, `SmallOverrun`).
* A camera that got a slot is closed exactly once (`Service.ExactlyOneTeardown`). One that found no
  slot is closed once per removal that looked it up in time, so more than once exactly when two
  removals overlapped (`ServiceHistory.ClosedAgainIff`, `Service.SpareIsClosedTwice`). A second
  close, like the first, does nothing there: `VirtualCamera.close` acts only on an open camera
  (service/VirtualCamera.java:95-99), and one without a slot was never opened.
* A rate range with upper bound 0 means "no rate given" to `select` but becomes the session's
  target rate, and the pacer divides by it. A request traps only if its range, or else the rate
  kept from before, has upper bound 0; then, once taken on, it traps unless cancelled or held up at a
  destination fence on its way to the pacer (`Session.ZeroRateIsAccepted`,
  `Session.CaptureSession.AdmitAndProcess`).
* If duplicating a GPU fence for the framework fails, a filled buffer is returned as good without
  a release fence; the number of fences missing is exactly the number of failed duplications
  (`Session.LostFenceLeavesWork`, `AllWorkIsFenced`, `LostFenceGoesUnnoticed`). The producer's
  buffer still waits for that work.

## Model

| member | source | states |
|---|---|---|
| `ReadFences.PruneReadFences` | hal/core/ReadFenceSet.h:9-18 | exactly the fds whose wait reported completion are dropped, each closed once; every kept fd is one that was still unsignalled or faulty |
| `ReadFences.ConsolidateReadFences` | hal/core/ReadFenceSet.h:21-33 | the surviving dependencies are exactly those of the unsignalled fds, in at most one fd on success; a failed merge loses none; every dropped fd is closed once and no foreign fd is touched; it terminates |
| `ReadFences.RetiredFrameReady` | hal/core/ReadFenceSet.h:35-39 | ready exactly when no reader is out and no fence is left, and then every recorded read has fired |
| `ReadFences.DuplicateAcquireFence` | hal/core/ReadFenceSet.h:41-48 | no fence stays no fence; a failed duplication is reported and never turned into "no fence" |
| `ReadFences.MergeKeepsPoints` | hal/core/ReadFenceSet.h:24-31 | replacing the first fence by its merge with the last and dropping the last keeps ownership and the set of awaited points |
| `StableHal.StableHal.ReapRetiring` | hal/aidl-v1/VirtualCameraStableHal.cpp:91-101 | a retiring frame becomes the empty frame only with no reader out and all reads fired; no other slot and no foreign fd changes |
| `StableHal.StableHal.DropLatest` | hal/aidl-v1/VirtualCameraStableHal.cpp:103-106 | the frame is marked retiring and reaped if possible; with no reader out and all reads fired it is gone |
| `StableHal.StableHal.AcquireLatest` | hal/aidl-v1/VirtualCameraStableHal.cpp:365-388 | a lease is handed out exactly under the token, sequence, retiring and read-bound conditions, with its own duplicate of the producer fence exactly when the frame has one |
| `StableHal.StableHal.ReleaseFrame` | hal/aidl-v1/VirtualCameraStableHal.cpp:396-413 | the capture's read fences end up recorded on the frame or closed, the reader is uncounted, a retiring frame is reaped |
| `StableHal.StableHal.EnqueueBeforeWait` | hal/aidl-v1/VirtualCameraStableHal.cpp:299-314 | first locked part of enqueue: refusal codes 7 and 4, with the producer fence closed on refusal |
| `StableHal.StableHal.EnqueueAfterWait` | hal/aidl-v1/VirtualCameraStableHal.cpp:315-363 | second part: refusals 4, 7, 6 change no other slot; on success the frame is replaced whole and the caller owns the one fence covering the retired frame's reads |
| `StableHal.StableHal.AllocateSessionIdentity` | hal/aidl-v1/VirtualCameraStableHal.cpp:431-434 | identities count up and stop at the maximum |
| `StableHal.StableHal.NotifyStreamsConfigured` | hal/aidl-v1/VirtualCameraStableHal.cpp:436-453 | a fresh token for an admissible owner, the frame dropped, readiness reset exactly on slots with a descriptor |
| `StableHal.StableHal.NotifyCameraClosed` | hal/aidl-v1/VirtualCameraStableHal.cpp:463-476 | closes only the configuration it names, and tells that configuration's producer; what a close ends is `HandoffProgress.NothingAfterClose` |
| `StableHal.StableHal.SetConfigurationReady` | hal/aidl-v1/VirtualCameraStableHal.cpp:148-155 | readiness only for the live token of a described, open slot; withdrawal kills the configuration and drops the frame |
| `StableHal.StableHal.RegisterProducer` | hal/aidl-v1/VirtualCameraStableHal.cpp:115-131 | accepted exactly for a valid descriptor from the current callback on a free slot |
| `StableHal.StableHal.RemoveProducer` | hal/aidl-v1/VirtualCameraStableHal.cpp:132-147 | accepted exactly for the slot's registration from the current callback; then the slot is revoked |
| `StableHal.StableHal.SetCallback` | hal/aidl-v1/VirtualCameraStableHal.cpp:68-89 | a replaced callback revokes every slot in order and allocates an owner for each; an outdated version is refused |
| `Handoff.RunInv` | platform-jni/VirtualCameraRelayJni.cpp:112-126 | every reachable state of relay queue plus HAL slot satisfies the full invariant (readers, recorded reads, queues, returns, tokens) |
| `Handoff.ReturnedBufferIsNeverRead` | platform-jni/VirtualCameraRelayJni.cpp:270-331 | a buffer that went back to a live queue is never held or served again and its return fence covers every read of it, in every later state |
| `Handoff.FrameLeavesUnread` | hal/aidl-v1/VirtualCameraStableHal.cpp:315-349 | a frame leaves the slot only while no capture holds it |
| `Handoff.ReleaseRecordsOnItsOwnFrame` | hal/aidl-v1/VirtualCameraStableHal.cpp:396-409 | each release records its fences on the very frame its capture read; inflight equals the number of captures out |
| `Handoff.LostBuffersNeverReturn` | platform-jni/VirtualCameraRelayJni.cpp:314-321 | after a transport failure neither the submitted nor the held buffer is ever recycled, even while the call still executes |
| `Handoff.PendingReadsBounded` | hal/aidl-v1/VirtualCameraStableHal.cpp:34 | pending fences plus k times the readers never exceed 16 k, even if every merge fails |
| `Handoff.LeaseIsLiveAndNegotiated` | hal/aidl-v1/VirtualCameraStableHal.cpp:365-388 | a reader with token t gets a frame submitted under t while t is live, and on a described slot only after readiness for t and with the negotiated geometry |
| `Handoff.TokenNeverReturns` | hal/aidl-v1/VirtualCameraStableHal.cpp:436-451 | a token that is no longer current on the slot never is again |
| `Handoff.TokensAreFresh` | hal/aidl-v1/VirtualCameraStableHal.cpp:447 | every token handed out is larger than all before |
| `Handoff.RevokedIdentityIsBarred` | hal/aidl-v1/VirtualCameraStableHal.cpp:132-147 | after a removal or callback replacement no earlier session identity configures the slot again, also with the counter exhausted |
| `Handoff.BarredConfiguresNothing` | hal/aidl-v1/VirtualCameraStableHal.cpp:442-444 | a barred identity gets no token and changes nothing |
| `HandoffProgress.ConfigureAnswers` | hal/aidl-v1/VirtualCameraStableHal.cpp:436-453 | a session gets a new, live token exactly if it is a proper identity, neither passed over nor closed, and the counter is not exhausted; otherwise nothing changes |
| `HandoffProgress.AllocatedMayConfigure` | hal/aidl-v1/VirtualCameraStableHal.cpp:431-434 | an identity handed out now is ahead of the slot's owner, so it may configure the slot |
| `HandoffProgress.CloseEndsConfiguration` | hal/aidl-v1/VirtualCameraStableHal.cpp:463-476 | after the owner's close of its live configuration the token is dead and the owner dismissed in every later state |
| `HandoffProgress.CloseDropsFrame` | hal/aidl-v1/VirtualCameraStableHal.cpp:463-476 | such a close takes the frame and the readiness away; any other close changes nothing |
| `HandoffProgress.NothingAfterClose` | hal/aidl-v1/VirtualCameraStableHal.cpp:463-476 | no later capture is served under the closed token, no submission under it accepted, and its session configures nothing |
| `HandoffProgress.RegisterAnswers` | hal/aidl-v1/VirtualCameraStableHal.cpp:115-131 | a descriptor is taken exactly on a slot without one, and ends the live configuration |
| `HandoffProgress.RevokeFreesSlot` | hal/aidl-v1/VirtualCameraStableHal.cpp:132-147 | revoking takes the descriptor, the configuration and the frame away |
| `HandoffProgress.ReadyAnswers` | hal/aidl-v1/VirtualCameraStableHal.cpp:148-155 | readiness is accepted exactly for the live token of a described slot; withdrawing it ends the token for good |
| `HandoffProgress.LiveConfigurationTakesFrames` | hal/aidl-v1/VirtualCameraStableHal.cpp:299-331 | while a token is live, frames of the negotiated size are not refused for misfit: on a described slot from readiness on, on others always |
| `HandoffProgress.RefusalHasGrounds` | hal/aidl-v1/VirtualCameraStableHal.cpp:315-349 | every other refusal has a reader out, a retired frame still in place, or read fences that would not merge; an empty slot refuses nothing |
| `HandoffProgress.AcceptedIsKept` | hal/aidl-v1/VirtualCameraStableHal.cpp:315-363 | an accepted frame keeps its own buffer, size, timestamp, token and fence for as long as it is the slot's frame |
| `HandoffProgress.CaptureIsServed` | hal/aidl-v1/VirtualCameraStableHal.cpp:365-388 | a capture that wants something newer is served the live frame unless too many reads are out or its fence could not be duplicated |
| `Relay.RelayQueue.ReleaseHeld` | platform-jni/VirtualCameraRelayJni.cpp:112-118 | the held buffer goes back once, with the fence the HAL returned |
| `Relay.RelayQueue.Abandon` | platform-jni/VirtualCameraRelayJni.cpp:119-126 | an abandoned queue gives nothing back |
| `Relay.FrameRelay.BeginConnect` | platform-jni/VirtualCameraRelayJni.cpp:239-247 | every slot is seen to start afresh on a larger epoch: empty gate and registration, no queue, whatever an earlier connection left behind |
| `Relay.FrameRelay.FinishConnect` | platform-jni/VirtualCameraRelayJni.cpp:249-267 | ready only if still the current connection; a failed link clears it |
| `Relay.FrameRelay.OnHalDied` | platform-jni/VirtualCameraRelayJni.cpp:145-157 | only the current epoch's death counts; every slot is seen to disconnect and then discard its queue, and nothing is returned |
| `Relay.FrameRelay.ReleaseQueue` | platform-jni/VirtualCameraRelayJni.cpp:127-133 | abandons the slot's queue exactly when connection and token match |
| `Relay.FrameRelay.AbandonQueue` | platform-jni/VirtualCameraRelayJni.cpp:119-126 | the slot is emptied, the queue abandoned before its held buffer is dropped |
| `Relay.FrameRelay.Admit` | platform-jni/VirtualCameraRelayJni.cpp:209-217 | admitted exactly for the current connection, the registered producer and a later event; each slot moves as the gate of `AdmittedEventsIncrease` |
| `Relay.FrameRelay.MayCreate` | platform-jni/VirtualCameraRelayJni.cpp:343-353 | a queue may be built exactly for an open, current configuration |
| `Relay.FrameRelay.Install` | platform-jni/VirtualCameraRelayJni.cpp:367-380 | the old queue is abandoned first; the new one is installed exactly if still current, else abandoned; each slot moves as in `SectionIsStep` |
| `Relay.FrameRelay.MaySubmit` | platform-jni/VirtualCameraRelayJni.cpp:270-279 | what is submitted comes from the slot's visible queue on a live connection; only an old listener, a dead connection or a queue of an earlier connection is refused, the last one for good |
| `Relay.FrameRelay.Complete` | platform-jni/VirtualCameraRelayJni.cpp:314-331 | accepted: held buffer back with the returned fence, new one held; rejected: back with its own fence; transport failure: abandoned, nothing back; the slot moves as in `SectionIsStep` |
| `Relay.FrameRelay.BeginRegister` | platform-jni/VirtualCameraRelayJni.cpp:418 | the slot's registration is replaced and the previous one remembered |
| `Relay.FrameRelay.EndRegister` | platform-jni/VirtualCameraRelayJni.cpp:419-421 | a failed registration restores what it replaced, if nothing else did since |
| `Relay.FrameRelay.BeginRemove` | platform-jni/VirtualCameraRelayJni.cpp:423-428 | only the current registration is removed, and the gate closes with it |
| `Relay.AdmittedEventsIncrease` | platform-jni/VirtualCameraRelayJni.cpp:209-217 | admitted events strictly increase in (connection, token, closed), whatever the arrival order, removals, deaths and reconnections; its steps are the ones the relay's sections are proved to take |
| `Relay.SectionIsStep` | platform-jni/VirtualCameraRelayJni.cpp:119-331 | every section of the relay, as one slot sees it, is a relay step of the hand-off machine or leaves its state alone |
| `Relay.EveryConnectionIsARun` | platform-jni/VirtualCameraRelayJni.cpp:145-267 | over any number of HAL deaths and reconnections, what happened to a slot since its connection began is a run of the hand-off; earlier connections have smaller epochs |
| `Relay.LateReplyIsCovered` | platform-jni/VirtualCameraRelayJni.cpp:270-331 | what a reply makes a queue give back after its connection was left is never read again by the HAL it was lent to, and its fence covers every read of it |
| `Relay.GivenBackIsNeverRead` | platform-jni/VirtualCameraRelayJni.cpp:112-331 | what the relay gave back on a connection is never read again while that connection lasts and its fence covers every read of it |
| `Relay.AdmitsExactlyLater` | platform-jni/VirtualCameraRelayJni.cpp:209-217 | an event is admitted exactly if it comes on the current connection, from the current producer, for a real token, and is later than the last one admitted |
| `Relay.CloseFollowsOpen` | platform-jni/VirtualCameraRelayJni.cpp:209-217 | after an admitted open, while connection and producer stay and no later event comes, the close is admitted and a queue can be built |
| `Relay.ClosedStaysClosed` | platform-jni/VirtualCameraRelayJni.cpp:343-353 | after a close no queue is built for the token on that connection again, nor its open admitted |
| `Relay.RemovalSilences` | platform-jni/VirtualCameraRelayJni.cpp:423-428 | a removed producer is heard no more unless it registers again, and its gate is shut |
| `Relay.RegistrationIsHeard` | platform-jni/VirtualCameraRelayJni.cpp:418 | a newly registered producer is heard and no other |
| `Relay.ConnectionIsHeard` | platform-jni/VirtualCameraRelayJni.cpp:239-247 | a new connection hears producers from the first token on, and nothing of earlier connections |
| `Relay.DownIsSilent` | platform-jni/VirtualCameraRelayJni.cpp:145-157 | while the connection is down nothing is admitted and no queue built |
| `Lifecycle.LifecycleSlot.Reserve` | service/LifecycleSlot.java:11-15 | a slot is reserved only while it has no owner |
| `Lifecycle.LifecycleSlot.BeginClose` | service/LifecycleSlot.java:18-24 | only the owner begins, once; the configuration counts as closed and queued events go stale |
| `Lifecycle.LifecycleSlot.NextEvent` | service/LifecycleSlot.java:25-29 | event numbers for the owner on a connection that is not older |
| `Lifecycle.LifecycleSlot.IsCurrentEvent` | service/LifecycleSlot.java:30-32 | current exactly for the owner's newest event |
| `Lifecycle.LifecycleSlot.NextConfigurationEvent` | service/LifecycleSlot.java:33-42 | accepted exactly when later in (connection, token, closed); otherwise no change |
| `Lifecycle.LifecycleSlot.FinishClose` | service/LifecycleSlot.java:43-48 | frees the slot exactly for the owner that is closing |
| `Lifecycle.AcceptedEventsIncrease` | service/LifecycleSlot.java:33-42 | accepted events strictly increase over any sequence of calls, across owners |
| `Lifecycle.TokensOpenAndCloseOnce` | service/LifecycleSlot.java:37-38 | each token of a connection opens at most once, closes at most once and never reopens |
| `Lifecycle.StaleStaysStale` | service/LifecycleSlot.java:30-32 | an event that went stale is never current again, whatever calls the slot gets |
| `Lifecycle.AcceptsExactlyLater` | service/LifecycleSlot.java:33-42 | a configuration event is accepted exactly if it is the current owner's, on a connection, for a real token and later than the last; it is then the current one |
| `Lifecycle.OnlyNewestIsCurrent` | service/LifecycleSlot.java:30-32 | only the current owner's newest event is current, and none is once it closes |
| `Lifecycle.SlotChangesHands` | service/LifecycleSlot.java:11-24 | a slot is kept from reservation through its owner's close and free again after; nobody else can end it |
| `VirtualCameraService.SlotWorker.Advance` | service/VirtualCameraService.java:96-112 | each step of a queued task does what the executor's lambda does there, for all five kinds of task |
| `VirtualCameraService.SlotWorker.HalEvent` | service/VirtualCameraService.java:90-97 | an event is queued exactly for the slot's current camera, if that is the camera it names and the event is later |
| `VirtualCameraService.Service.Place` | service/VirtualCameraService.java:221-229 | a dead producer is refused; otherwise it is registered and given the lowest free slot |
| `VirtualCameraService.Service.AllocateSlot` | service/VirtualCameraService.java:184-189 | reserves the lowest free slot below the limit and touches no other |
| `VirtualCameraService.Service.Lookup` | service/VirtualCameraService.java:304-311 | removeCamera's snapshot of the camera and its slot |
| `VirtualCameraService.Service.Take` | service/VirtualCameraService.java:312-341 | teardown is queued exactly by the caller whose beginClose succeeded; a camera without a slot is closed by every caller |
| `VirtualCameraService.Service.Advance` | service/VirtualCameraService.java:320-327 | one step of the slot's executor, with the close() call it may make |
| `VirtualCameraService.Service.RecoverSlot` | service/VirtualCameraService.java:151-169 | re-registration is queued only for the slot's current camera |
| `Service.RunInv` | service/VirtualCameraService.java:184-328 | every reachable state of service, slots, queues and running tasks satisfies the invariant |
| `Service.NativeCallsInOrder` | service/VirtualCameraService.java:240-249 | on each slot no new owner is registered natively before the previous owner was removed |
| `Service.ExactlyOneTeardown` | service/VirtualCameraService.java:312-330 | a camera that got a slot is registered, or has exactly one teardown under way, or was closed exactly once |
| `Service.DeadStaysAway` | service/VirtualCameraService.java:209-229 | once a producer's death is handled it is not registered in any later state |
| `Service.CallbackReachesItsCamera` | service/VirtualCameraService.java:90-97 | a producer callback reaches only the camera its event names, while that still holds the slot and is not closed |
| `Service.SpareIsClosedTwice` | service/VirtualCameraService.java:230-233 | witness: a camera that found no slot is closed twice, by its own removal and by its death handler |
| `ServiceHistory.CallbackWasChecked` | service/VirtualCameraService.java:96-112 | behind every producer callback lies an earlier moment at which the very task that makes it passed its last check with its event current |
| `ServiceHistory.StaleTaskStaysSilent` | service/VirtualCameraService.java:96-112 | a queued task gone stale before its last check makes no callback in any later state |
| `ServiceProgress.TasksBalance` | service/VirtualCameraService.java:81-169 | the decisions that ask for a task are exactly as many as the tasks pending or ended: none is lost, none comes from nowhere |
| `ServiceProgress.AskedIsAnswered` | service/VirtualCameraService.java:81-169 | whatever asks for a task gets it pending until it ends with its work done or with its grounds for dropping it |
| `ServiceProgress.TaskIsAnswered` | service/VirtualCameraService.java:96-112 | a pending task ends only by its native call or callback, or because its camera is going, its event stale or a foreign call failed; a teardown only by freeing the slot after the native removal |
| `ServiceProgress.CommittedDoesItsWork` | service/VirtualCameraService.java:96-112 | a task past its checks does its work whatever happens meanwhile |
| `ServiceProgress.OwnerIsRegistered` | service/VirtualCameraService.java:238-249 | in every reachable state the current owner of a slot is natively registered or its registration is pending |
| `ServiceProgress.FirstInFirstOut` | service/VirtualCameraService.java:66-71 | tasks start in the order in which they were handed to the slot's executor |
| `ServiceProgress.PlacedIsRegistered` | service/VirtualCameraService.java:184-236 | a camera placed is registered, and at home in the lowest free slot if there is one |
| `ServiceProgress.RemovalFinds` | service/VirtualCameraService.java:304-311 | a removal finds every registered camera and its slot |
| `ServiceProgress.DeathIsNoticed` | service/VirtualCameraService.java:195-221 | after a death its handler may run, and its camera is placed in no later state |
| `ServiceProgress.DeathEndsRegistration` | service/VirtualCameraService.java:209-229 | once a producer's death has been dealt with it is registered in no later state |
| `ServiceHistory.ClosesCountRemovals` | service/VirtualCameraService.java:230-233 | a camera without a slot is closed, or about to be, once for every removal that found it and ran |
| `ServiceHistory.ClosedAgainIff` | service/VirtualCameraService.java:304-328 | such a camera is closed more than once exactly when a second removal had looked it up before the first one took it away |
| `V2Ring.PendingIsDifference` | v2-shared-memory/SharedBufferPool.h:86-102 | the wrapped difference of the indices is the number of pending entries |
| `V2Ring.ReaderSeesPending` | v2-shared-memory/SharedBufferPool.h:104-117 | the reader's unwrapped comparison sees a pending frame exactly when the write count has not passed a multiple of 2^32 the read count has yet to reach |
| `V2Ring.WrapHidesFrame` | v2-shared-memory/SharedBufferPool.h:104-107 | concrete counts for which a pending frame is invisible |
| `V2Ring.WrapStallsForever` | v2-shared-memory/SharedBufferPool.h:104-107 | past such a multiple the reader never reads again |
| `V2Ring.ControlRing.TryWrite` | v2-shared-memory/SharedBufferPool.h:86-102 | appends exactly one frame, refused exactly when 16 are pending |
| `V2Ring.ControlRing.TryRead` | v2-shared-memory/SharedBufferPool.h:104-117 | takes the oldest frame, exactly when one is visible |
| `V2Ring.ControlRing.TryWriteRelease` | v2-shared-memory/SharedBufferPool.h:139-153 | appends one release and frees its buffer, refused exactly when 16 are pending |
| `V2Ring.ControlRing.TryReadRelease` | v2-shared-memory/SharedBufferPool.h:155-167 | takes the oldest release, exactly when one is visible |
| `V2Ring.ControlRing.AcquireFreeBuffer` | v2-shared-memory/SharedBufferPool.h:374-386 | marks the lowest free buffer, or reports that all are in use |
| `V2Ring.ControlRing.ReleaseBuffer` | v2-shared-memory/SharedBufferPool.h:393-397 | frees that buffer and no other; a bad index does nothing |
| `V2Ring.ControlRing.AcquireLatestFrame` | v2-shared-memory/HalInterface.h:66-115 | keeps the newest visible frame and releases every older one, oldest first, as far as the release ring has room |
| `V2Protocol.RunInv` | v2-shared-memory/RendererInterface.h:158-277 | every interleaving of atomic steps of renderer and HAL keeps placement, order and the release potential |
| `V2Protocol.EveryBufferInOnePlace` | v2-shared-memory/SharedBufferPool.h:374-397 | each buffer is free or in exactly one of: renderer, submit ring, HAL hands, HAL caller; none is lost |
| `V2Protocol.RingsNeverFull` | v2-shared-memory/SharedBufferPool.h:86-153 | neither ring is full when its writer looks: at most n submitted, at most n + 2 releases pending |
| `V2Protocol.FramesReadInOrder` | v2-shared-memory/HalInterface.h:66-151 | frames are read once each, in submission order |
| `V2Progress.SubmitSubmits` | v2-shared-memory/RendererInterface.h:190-223 | a frame handed to submitFrame is the next one submitted when the call returns |
| `V2Progress.BeginClaims` | v2-shared-memory/RendererInterface.h:158-188 | beginFrame returns after seeing the release ring empty, with one more buffer, or having seen every buffer busy |
| `V2Progress.AcquireReturns` | v2-shared-memory/HalInterface.h:66-157 | the caller gets the newest frame taken, and none only if the ring was empty; acquireNextFrame takes just one |
| `V2Progress.ReleaseReturns` | v2-shared-memory/HalInterface.h:159-163 | a released frame is the next entry of the release ring when the call returns |
| `V2Progress.OnlyClaimsMakeBusy` | v2-shared-memory/SharedBufferPool.h:374-386 | a free buffer becomes busy only by the renderer claiming it |
| `Capabilities.Valid` | hal/core/ProducerCapabilities.h:18-33 | the loops accept exactly the valid descriptors |
| `Capabilities.ComputeDefaultRange` | hal/core/ProducerCapabilities.h:35-48 | the loop computes the default range |
| `Capabilities.DefaultRangeMeaning` | hal/core/ProducerCapabilities.h:35-48 | the shared rate nearest 30 if the modes share one, else the narrowest span covering every mode |
| `Capabilities.FpsRanges` | hal/core/ProducerCapabilities.h:49-59 | exactly the advertised rate ranges |
| `Capabilities.Advertised` | hal/core/ProducerCapabilities.h:60-65 | found exactly when some mode declares that size and format |
| `Capabilities.Select` | hal/core/ProducerCapabilities.h:66-86 | the fitting mode least by (area, id), or none exactly when the request is unacceptable or nothing fits |
| `Capabilities.FittingModesShareAspect` | hal/core/ProducerCapabilities.h:76-80 | all modes fitting one request share an aspect ratio |
| `Capabilities.EqualAreaEqualSize` | hal/core/ProducerCapabilities.h:81-82 | fitting modes of equal area have equal size, so the comparison is a total order |
| `Capabilities.SelectedIsSmallest` | hal/core/ProducerCapabilities.h:66-86 | no fitting mode is smaller in either dimension than the selected one, nor has a smaller id at its size |
| `Capabilities.SelectedServesOutputs` | hal/core/ProducerCapabilities.h:72-80 | the selected mode gives every output its format at its size and shape, scaling down only where it may |
| `Capabilities.ExactSizeIsSelected` | hal/core/ProducerCapabilities.h:66-86 | an advertised output alone is served by a mode of exactly its size |
| `Capabilities.TooManyOutputs` | hal/core/ProducerCapabilities.h:69-71 | two JPEG outputs, or three others, are refused whatever the modes |
| `Capabilities.RangesBetweenMarks` | hal/core/ProducerCapabilities.h:50-60 | a mode's advertised ranges are exactly those between its ends and, if it can run at it, 30 |
| `Capabilities.SelectIgnoresModeOrder` | hal/core/ProducerCapabilities.h:66-86 | the result does not depend on the order modes are listed in |
| `Capabilities.DefaultRangeChangesNothing` | hal/core/ProducerCapabilities.h:35-86 | asking for the default range selects what asking for no rate does |
| `Capabilities.NegotiatedRateFits` | hal/aidl-v1/VirtualCameraSession.cpp:503 | with an upper bound of at least 1 the negotiated rate lies in the requested and the mode's range |
| `Capabilities.BuildOutputTable` | hal/core/MetadataBuilder.cpp:43-46 | one entry per advertised output, with its fastest rate |
| `Capabilities.FastestRateIsSelectable` | hal/core/MetadataBuilder.cpp:42-57 | every advertised output is selectable alone at its advertised fastest rate |
| `Capabilities.IsStreamCombinationSupported` | hal/core/MetadataBuilder.cpp:184-192 | supported exactly when all are plain outputs and one mode can feed them together |
| `Packing.Normalize` | service/ProducerCapabilities.java:16-44 | accepts exactly the configurations in bounds and fills in the legacy mode |
| `Packing.NormalizeIsIdempotent` | service/ProducerCapabilities.java:16-44 | normalizing a normalized configuration changes nothing |
| `Packing.AcceptedIsValid` | service/ProducerCapabilities.java:29-42 | what Java accepts is valid for the HAL under any positive registration |
| `Packing.Pack` | service/ProducerCapabilities.java:45-53 | the loops produce the packed array |
| `Packing.Unpack` | platform-jni/VirtualCameraRelayJni.cpp:398-415 | the index walk parses exactly the well-formed arrays |
| `Packing.LegacySourceIsUsable` | service/ProducerCapabilities.java:22-30 | a source that lists no modes can be had at its maximum size and rate in every format it converts to |
| `Packing.LegacySourceIsNoMore` | service/ProducerCapabilities.java:22-30 | and at no other size, and not as JPEG unless it supports it |
| `Packing.JpegNeedsSupport` | service/ProducerCapabilities.java:39-41 | no source advertises JPEG unless it supports it |
| `Packing.ListedModesAreKept` | service/ProducerCapabilities.java:31-42 | a source that lists modes is described by exactly those |
| `Packing.PackedLayout` | service/ProducerCapabilities.java:45-53 | where each number of the descriptor stands in the array |
| `Packing.UnpackPacked` | platform-jni/VirtualCameraRelayJni.cpp:398-415 | unpacking a packed valid descriptor gives it back, within 356 of the 400 allowed numbers |
| `Packing.ConfigurationArrives` | service/ProducerCapabilities.java:16-53 | an accepted configuration reaches the HAL unchanged and valid |
| `Packing.PackUnpacked` | platform-jni/VirtualCameraRelayJni.cpp:398-415 | every accepted array packs back to itself up to the downscale flags |
| `Checksum.ComputeCrc` | platform/apps/VCamE2E/src/com/example/vcamtest/FrameIdentity.java:104-111 | the nested loops compute the checksum |
| `Checksum.CrcIsSerial` | platform/apps/VCamE2E/src/com/example/vcamtest/FrameIdentity.java:104-111 | the byte-wise loop is the bit-serial remainder |
| `Checksum.SerialIsLinear` | platform/apps/VCamE2E/src/com/example/vcamtest/FrameIdentity.java:108 | the register is linear in message and start value |
| `Checksum.StepsAreInjective` | platform/apps/VCamE2E/src/com/example/vcamtest/FrameIdentity.java:108 | a step is invertible: only zero goes to zero |
| `Checksum.MatchesLeavesNoRemainder` | platform/apps/VCamE2E/src/com/example/vcamtest/FrameIdentity.java:61-62 | the stored checksum agrees exactly when the whole marker leaves remainder zero |
| `Checksum.BurstIsDetected` | platform/apps/VCamE2E/src/com/example/vcamtest/FrameIdentity.java:61-62 | two accepted markers that agree outside 16 consecutive cells, payload or checksum, are equal |
| `Checksum.GeneratorGoesUnseen` | platform/apps/VCamE2E/src/com/example/vcamtest/FrameIdentity.java:104-111 | sixteen is the exact limit: a burst of the generator's seventeen cells goes unseen in any marker |
| `Checksum.BlankIsRejected` | platform/apps/VCamE2E/src/com/example/vcamtest/FrameIdentity.java:104-111 | a marker with all cells unset never has a good checksum |
| `Checksum.OddErrorIsDetected` | platform/apps/VCamE2E/src/com/example/vcamtest/FrameIdentity.java:61-62 | an odd number of flipped cells never passes |
| `Marker.Put` | platform/apps/VCamE2E/src/com/example/vcamtest/FrameIdentity.java:100-102 | writes the lowest bytes of the number, most significant first, and nothing else |
| `Marker.ReadUnsigned` | platform/apps/VCamE2E/src/com/example/vcamtest/FrameIdentity.java:94-98 | reads them back as an unsigned number |
| `Marker.Encode` | platform/apps/VCamE2E/src/com/example/vcamtest/FrameIdentity.java:20-30 | encodes exactly the identities in range |
| `Marker.EncodedIsAccepted` | platform/apps/VCamE2E/src/com/example/vcamtest/FrameIdentity.java:20-67 | every identity in range survives encoding and reading |
| `Marker.AcceptedIsEncoded` | platform/apps/VCamE2E/src/com/example/vcamtest/FrameIdentity.java:59-64 | every accepted marker is the encoding of the identity read from it |
| `Marker.DamagedIsRejected` | platform/apps/VCamE2E/src/com/example/vcamtest/FrameIdentity.java:61-62 | a marker damaged within 16 consecutive cells is never taken for another |
| `MarkerImage.AttemptDecode` | platform/apps/VCamE2E/src/com/example/vcamtest/FrameIdentity.java:41-65 | the sampling loops assemble the marker, check contrast, header, checksum and identity for one orientation |
| `MarkerImage.Decode` | platform/apps/VCamE2E/src/com/example/vcamtest/FrameIdentity.java:36-67 | upright first, then turned over; the error cases as the source raises them |
| `MarkerImage.SampleInCell` | platform/apps/VCamE2E/src/com/example/vcamtest/FrameIdentity.java:46-56 | all five sample points of a cell lie inside the cell as painted, from 64x32 up |
| `MarkerImage.UprightDecodes` | platform/apps/VCamE2E/src/com/example/vcamtest/FrameIdentity.java:36-67 | any plane painted upright, with any valid strides, decodes to its identity |
| `MarkerImage.FoundWasEncoded` | platform/apps/VCamE2E/src/com/example/vcamtest/FrameIdentity.java:59-64 | whatever is found is the encoding of an identity in range |
| `MarkerImage.FlippedDecodes` | platform/apps/VCamE2E/src/com/example/vcamtest/FrameIdentity.java:40-65 | a plane painted upside down decodes to its identity exactly unless its rows in reverse order are themselves acceptable, and then to that one, upright |
| `MarkerImage.AmbiguousIsMisread` | platform/apps/VCamE2E/src/com/example/vcamtest/FrameIdentity.java:40-65 | a concrete identity for which that happens at every size |
| `MarkerPath.CellsApart` | platform/apps/VCamProducer/src/com/example/vcamproducer/VCamProducerService.java:216-221 | no pixel is painted by two cells |
| `MarkerPath.CellsCover` | platform/apps/VCamProducer/src/com/example/vcamproducer/VCamProducerService.java:216-221 | every pixel of the frame is painted by a cell |
| `MarkerPath.PaintCells` | platform/apps/VCamProducer/src/com/example/vcamproducer/VCamProducerService.java:216-229 | the scissor loops leave every pixel with the bit of its cell |
| `MarkerPath.RenderThread.DrawMarker` | platform/apps/VCamProducer/src/com/example/vcamproducer/VCamProducerService.java:212-231 | a sequence number is used up exactly when the generation fits an int; the frame is painted exactly when the identity is in range |
| `MarkerPath.MarkerSurvives` | platform/apps/VCamE2E/src/com/example/vcamtest/FrameIdentity.java:36-67 | drawn, converted to YUV and read back, the identity is the one that was drawn |
| `FrameFiller.CodeRanges` | hal/core/FrameFiller.h:27-36 | Y in 16..235, Cb and Cr in 16..240, so the clamps never fire |
| `FrameFiller.Greys` | hal/core/FrameFiller.h:27-36 | greys carry no chroma, keep their order and span the luma range |
| `FrameFiller.FillFromRgba` | hal/core/FrameFiller.cpp:390-436 | every copied luma and chroma sample has its converted value and every other byte is untouched |
| `FrameFiller.WithinOneCode` | hal/core/FrameFiller.h:27-36 | the integer conversion is never a whole code away from section 2.5 of ITU-R BT.601-7 |
| `FrameFiller.FilledFollowsStandard` | hal/core/FrameFiller.cpp:405-441 | every sample of a filled picture is within one code of the standard for its pixel, whose first three bytes are red, green and blue |
| `FrameFiller.LayoutsAgree` | hal/core/FrameFiller.cpp:425-432 | any two chroma layouts end up with the same picture |
| `FrameFiller.PlanarIsSeparate` | hal/core/FrameFiller.cpp:430-431 | planar layouts keep samples apart |
| `FrameFiller.SemiPlanarIsSeparate` | hal/core/FrameFiller.cpp:427-428 | interleaved layouts keep samples apart, in either chroma order |
| `PlaneCopy.CopyFrame` | hal/core/FrameFiller.cpp:302-357 | it leaves the buffers exactly when the shortcut is taken and one of them overruns; otherwise the copy keeps the picture and the padding under a layout condition a caller can check, or the first Cr sample gets a neighbour's value or keeps a stale one |
| `PlaneCopy.BulkInside` | hal/core/FrameFiller.cpp:330-335 | the bulk rows stay inside a buffer exactly if its planes are separate, Cb comes first, there is no chroma row, or there is slack behind the last one |
| `PlaneCopy.OverrunIsOneByte` | hal/core/FrameFiller.cpp:330-335 | an overrun is by exactly one byte |
| `PlaneCopy.TightlyPackedOverruns` | hal/core/FrameFiller.cpp:330-335 | Cr-first chroma packed to the end of the buffer always overruns |
| `Pacer.FramePacer.PaceFrame` | hal/aidl-v1/VirtualCameraSession.cpp:518-535 | the slot aimed for, never handed out early, at most one interval behind the call; cancellation hands out none |
| `Pacer.IntervalIsCeiling` | hal/aidl-v1/VirtualCameraSession.cpp:520 | the interval is the least with fps intervals filling a second |
| `Pacer.SlotsApart` | hal/aidl-v1/VirtualCameraSession.cpp:518-535 | slots are at least one interval apart over any run |
| `Pacer.RateIsBounded` | hal/aidl-v1/VirtualCameraSession.cpp:518-535 | at most fps slots in any second |
| `Pacer.PacerKeepsRate` | hal/aidl-v1/VirtualCameraSession.cpp:518-535 | whatever consecutive `PaceFrame` calls hand out is at most fps slots in any second |
| `Pacer.NoDrift` | hal/aidl-v1/VirtualCameraSession.cpp:518-535 | a client that keeps up gets evenly spaced slots |
| `Session.ReserveFences` | hal/aidl-v1/VirtualCameraSession.cpp:542-561 | every destination fence duplicated, or none kept |
| `Session.AwaitFences` | hal/aidl-v1/VirtualCameraSession.cpp:609-616 | each fence has fired and is closed, or is still held; it fails only when cancelled or when a held fence had not fired (or its wait is faulty) |
| `Session.CaptureSession.ImportBuffer` | hal/aidl-v1/VirtualCameraSession.cpp:336-411 | cached buffers are found; only a supplied handle can add one |
| `Session.CaptureSession.ImportAll` | hal/aidl-v1/VirtualCameraSession.cpp:563-571 | succeeds exactly when every buffer ends up cached; one that is cached or brings a handle fails only if the mapper refuses it |
| `Session.CaptureSession.FailUntouched` | hal/aidl-v1/VirtualCameraSession.cpp:576-605 | one request error and one result with every buffer in error and the held fences attached, in order |
| `Session.CaptureSession.FillOutput` | hal/aidl-v1/VirtualCameraSession.cpp:739-819 | filled exactly when a converter allowed for the format can fill; JPEG is only encoded, the rest falls back to the CPU; the first converter that can is the one counted |
| `Session.CaptureSession.RenderOne` | hal/aidl-v1/VirtualCameraSession.cpp:717-844 | the GPU's fence goes back on the buffer it is for, exactly unless duplicating it failed; a known buffer is tried unless the capture is cancelled or its source stale, and is OK exactly when tried and filled |
| `Session.CaptureSession.RenderAll` | hal/aidl-v1/VirtualCameraSession.cpp:714-846 | one result per buffer in order; one done fence per GPU job; each job's fence on its own buffer, all but as many as duplications failed |
| `Session.CaptureSession.WaitForSource` | hal/aidl-v1/VirtualCameraSession.cpp:670-683 | a lease newer than the last one used; none only when cancelled or past the deadline; it terminates |
| `Session.CaptureSession.WaitSourceFence` | hal/aidl-v1/VirtualCameraSession.cpp:690-705 | success only if the producer's fence fired; each failure names its ground: cancelled, source no longer current, or fence not fired by the deadline |
| `Session.CaptureSession.Publish` | hal/aidl-v1/VirtualCameraSession.cpp:859-907 | a shutter plus a buffer error for exactly the failed buffers if any is filled, else one request error |
| `Session.ErrorsNameFailedStreams` | hal/aidl-v1/VirtualCameraSession.cpp:868-877 | one buffer error for every buffer that failed, naming its stream, in order |
| `Session.WhichSettingsFit` | hal/aidl-v1/VirtualCameraSession.cpp:487-503 | settings without a rate always fit, a rate range exactly if select finds a mode |
| `Session.CaptureSession.ObtainSource` | hal/aidl-v1/VirtualCameraSession.cpp:666-708 | one lease with its sequence used up, or the grounds why there is no usable source |
| `Session.CaptureSession.GiveUp` | hal/aidl-v1/VirtualCameraSession.cpp:636-708 | a borrowed source that is not used is returned once, with its fence, and all buffers go back untouched |
| `Session.RenderedSettles` | hal/aidl-v1/VirtualCameraSession.cpp:714-846 | once the done fences went to the source, what it was given back with is exactly the work of all jobs |
| `Session.AllWorkIsFenced` | hal/aidl-v1/VirtualCameraSession.cpp:822-843 | if no duplication failed, every GPU job's fence is on the buffer it writes to |
| `Session.LostFenceLeavesWork` | hal/aidl-v1/VirtualCameraSession.cpp:822-843 | a job is missing among the fences that come back exactly when a duplication failed |
| `Session.LostFenceGoesUnnoticed` | hal/aidl-v1/VirtualCameraSession.cpp:822-843 | witness: a buffer returned as good, without a fence, while its job has not fired |
| `Session.FencesAreRecorded` | hal/aidl-v1/VirtualCameraSession.cpp:822-843 | whatever an output buffer waits for, the producer's buffer waits for too |
| `Session.OneMoreAnswer` | hal/aidl-v1/VirtualCameraSession.cpp:444-482 | one settled request extends the answers, the leases and the used sequences of a batch by its own |
| `Session.CaptureSession.ProcessSingleRequest` | hal/aidl-v1/VirtualCameraSession.cpp:537-910 | OK: exactly one answer, every fence awaited or returned, no other new fd, every GPU job's fence on its buffer except where duplicating it failed and all of them with the source, the lease given back once, source sequence newer; a picture stamped with the paced slot unless a failure is recorded, and each failure holds its grounds (no early timeout, no untried buffer); otherwise nothing told and nothing kept; at a zero rate it is answered only if cancelled or held up at a destination fence, and fails internally only if a fence could not be duplicated |
| `Session.CaptureSession.AdmitAndProcess` | hal/aidl-v1/VirtualCameraSession.cpp:444-482 | an admitted request traps only if its rate range, or else the rate kept from before, is zero; at a zero rate it traps unless cancelled or held up at a destination fence, and no picture comes back |
| `Session.CaptureSession.UpdateTargetFps` | hal/aidl-v1/VirtualCameraSession.cpp:487-516 | accepted ranges give the best mode at the fastest rate both allow; a change resets the pacer and takes exactly the token the HAL just gave; refusal changes nothing and happens only for malformed or unsupported settings or when the HAL refuses |
| `Session.CaptureSession.ProcessCaptureRequest` | hal/aidl-v1/VirtualCameraSession.cpp:426-485 | numRequestsProcessed counts exactly the requests answered, in order; leases paired; used source sequences strictly increase; a proper request is rejected as illegal only when the HAL or the mapper refused; removed buffers leave the cache first, only buffers brought along enter it, and every answered request was sound and named only buffers it brought or that were there; the first ever answered brought settings; a batch traps only at a request where the rate is zero, and no request answered at a zero rate has a picture |
| `Session.ZeroRateIsAccepted` | hal/aidl-v1/VirtualCameraSession.cpp:499-503 | whatever can be configured also accepts an upper bound of zero, leaving a zero rate |

## Left out

* Binder, sockets, gralloc, EGL/GL/Vulkan, libjpeg and the camera metadata library are foreign
  calls: they return arbitrary results within a stated contract.
* The GPU compositor and its shaders: floating-point GPU work.
* hal/aidl-v2, AidlFrameSource, AvailabilityBridge, renderer-lib and the v1 socket source: older
  or thinner paths of the same ideas.
* The V1-V3 relay branches and setCameraPresent: unreachable behind the version gate and a bound
  provider. Only configuration-token submissions are modelled.
* The negotiation block of the v2 ring: it is not a seqlock, so nothing holds across two updates.
* Weak memory ordering: atomics are taken as sequentially consistent.
* Wall-clock timing: the clock is monotone, waits end at or after their deadline unless cancelled.
* configureStreams, buffer formats and usage bits, result metadata, JPEG quality, statistics
  logging and profiling of the session: they would only add easy members.
* Reference counts of hardware buffers; a buffer pointer identifies its frame while it is held.
* Wrap-around of 64-bit counters (identities stop at their maximum as in the code; frame, event
  and epoch counters are unbounded) and of Java's 32-bit products of image sizes.
* virtual-mic, RenderRequestQueue, VirtualCameraSlots, JpegEncoder resampling, FrameProfile,
  decodeRgba: easy members.
- V2Protocol.FramesReadInOrder: covers fewer than 2^32 writes per index, because `tryRead` compares without wrap; V2Ring.ReaderSeesPending gives the exact condition.
- Handoff.RunInv: follows one slot, one HAL process and one connection (`Relay.EveryConnectionIsARun` strings connections together, each to a fresh HAL process); other slots only move the shared counters, and a session passes only identities it was allocated. The wait of enqueue is always taken as a point where others may run.
- Session.CaptureSession.ProcessSingleRequest: the source is a port with the contract of `StableHal.StableHal.AcquireLatest` and `ReleaseFrame`; configuration currency checks, converters and the buffer mapper return arbitrary answers, of which the model keeps count.
- Session.CaptureSession.UpdateTargetFps: metadata parsing is reduced to "unchanged", "malformed" and an optional list of numbers.
- Relay.SectionIsStep: that each accepted open leads to at most one queue is taken from the service's task queues, not derived from them; likewise a frame's outcome is the one the HAL decided for it.
- Relay.EveryConnectionIsARun: connecting again to the same HAL process, after a failed link, is not covered.
- Service.RunInv: onHalDied's surface releases and the legacy manager interface are not steps; whether a native call succeeds is arbitrary.
- Relay.FrameRelay.Complete: the RPC itself is the caller's; the queue object only records what it gave back.
- PlaneCopy.CopyFrame: chroma steps are 1 or 2 with interleaved planes adjacent, as the formats have them; what a copy that leaves its buffers does next is not defined.
- MarkerPath.MarkerSurvives: the surface is drawn by the marker alone, and the producer's RGBA buffer holds its pixels unchanged.
