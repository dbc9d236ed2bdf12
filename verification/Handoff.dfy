/** The frame hand-off between the platform relay and the vendor HAL, for one slot, as a
    state machine over every interleaving of its locked sections.

    The relay (platform-jni/VirtualCameraRelayJni.cpp) submits buffers over an RPC and gives
    the previous buffer back to its queue with the fence the HAL returns; captures
    (hal/aidl-v1/VirtualCameraSession.cpp) read the newest frame between acquireLatest and
    releaseFrame. Other slots only move the shared counters. */
module Handoff {
  import opened Wrappers
  import opened ReadFences
  import opened HalSpec

  /** One queueFrameForConfiguration call, from its transmission to its result. It outlives
      a transport failure seen by the relay. */
  datatype Rpc =
    | Sent(token: int, desc: Desc)
    | Waiting(token: int, desc: Desc)
    | Done(token: int, outcome: Outcome, sequence: nat)

  /** `held` is the submission whose buffer the HAL may still read. */
  datatype Queue = Queue(token: int, held: Option<nat>)

  /** How a buffer went back to a live queue: with its producer's own fence, or with a
      fence over these points. */
  datatype Return = AsProduced | WithFence(points: set<Point>)

  datatype Sys = Sys(
    // HAL
    cell: Cell, signaled: set<Point>, leases: map<nat, Lease>, rpcs: map<nat, Rpc>,
    // relay: gConfigurations[slot], accepted opens whose Java task is still queued, tokens a
    // task already used, gSlots[slot] and the call made under the slot gate
    gateToken: int, gateClosed: bool, opens: set<int>, used: set<int>,
    queue: Option<Queue>, call: Option<nat>, connected: bool,
    // history: per accepted submission its rpc and all read points its readers recorded;
    // tokens given readiness; submissions whose buffer went back to a live queue
    origin: map<nat, nat>, recorded: map<nat, set<Point>>, readied: set<int>, returned: map<nat, Return>)

  ghost predicate Init(s: Sys) {
    s.cell.slot == EMPTY_SLOT && 0 <= s.cell.next <= MAX_IDENTITY &&
    s == Sys(s.cell, s.signaled, map[], map[], 0, false, {}, {}, None, None, true, map[], map[], {}, map[])
  }

  datatype Step =
    | Signal
    | OtherSlots
    | Configure(owner: int, width: int, height: int, token: int)
    | Close(owner: int, token: int)
    | Ready(token: int, ready: bool, ok: bool)
    | Register(registration: int, ok: bool)
    | Revoked
    | Acquire(id: nat, token: int, after: nat, lease: Option<Lease>)
    | Release(id: nat, fences: seq<set<Point>>)
    | RpcStart(id: nat, res: Option<int>)
    | RpcFail(id: nat, code: int)
    | RpcCommit(id: nat, ahb: nat, timestamp: int, acquire: Option<set<Point>>, outcome: Outcome)
    | Admit(token: int, closed: bool)
    | Create(token: int, abandoned: bool, installed: bool)
    | Discard
    | Submit(id: nat, desc: Desc)
    | Unsent(id: nat)
    | Reply
    | Lost
    | CloseGate
    | Disconnect

  /** A locked section of the HAL: the relay is untouched and fences may fire meanwhile. */
  ghost predicate HalOnly(s: Sys, s': Sys) {
    s.signaled <= s'.signaled && s' == s.(cell := s'.cell, signaled := s'.signaled)
  }

  ghost predicate HalStep(k: nat, s: Sys, s': Sys, step: Step) {
    match step
    case Signal => HalOnly(s, s') && s'.cell == s.cell
    case OtherSlots =>
      HalOnly(s, s') && s.cell.next <= s'.cell.next <= MAX_IDENTITY && s.cell.received <= s'.cell.received &&
      s'.cell.slot == s.cell.slot
    case Configure(owner, width, height, token) => // a session only ever passes an identity it was allocated
      owner <= s.cell.next && HalOnly(s, s') && NotifyConfigured(s.cell, s'.cell, owner, width, height, s'.signaled, token)
    case Close(owner, token) =>
      HalOnly(s, s') && NotifyClosed(s.cell, s'.cell, owner, token, s'.signaled)
    case Ready(token, ready, ok) =>
      HalOnly(s, s'.(readied := s.readied)) && SetReady(s.cell, s'.cell, token, ready, s'.signaled, ok) &&
      s'.readied == if ok && ready then s.readied + {token} else s.readied
    case Register(registration, ok) =>
      HalOnly(s, s') && RegisterProducer(s.cell, s'.cell, registration, ok)
    case Revoked => HalOnly(s, s') && Revoke(s.cell, s'.cell, s'.signaled)
    case Acquire(id, token, after, lease) =>
      id !in s.leases && token > 0 && HalOnly(s, s'.(leases := s.leases)) &&
      AcquireLatest(s.cell, s'.cell, token, after, s'.signaled, lease) &&
      s'.leases == if lease.Some? then s.leases[id := lease.value] else s.leases
    case Release(id, fences) =>
      id in s.leases && |fences| <= k &&
      HalOnly(s, s'.(leases := s.leases, recorded := s.recorded)) &&
      ReleaseFrame(s.cell, s'.cell, s.leases[id].ahb, fences, s'.signaled) &&
      s'.leases == s.leases - {id} &&
      var q := s.leases[id].sequence;
      s'.recorded == if q in s.recorded then s.recorded[q := s.recorded[q] + AllPoints(fences)] else s.recorded
    case RpcStart(id, res) =>
      id in s.rpcs && s.rpcs[id].Sent? && HalOnly(s, s'.(rpcs := s.rpcs)) &&
      var r := s.rpcs[id];
      BeforeWait(s.cell, s'.cell, r.token, r.desc, s'.signaled, res) &&
      s'.rpcs == s.rpcs[id := if res.Some? then Done(r.token, Rejected(res.value), 0) else Waiting(r.token, r.desc)]
    case RpcFail(id, code) => // bad arguments, buffer import or fence duplication
      id in s.rpcs && s.rpcs[id].Sent? && s' == s.(rpcs := s.rpcs[id := Done(s.rpcs[id].token, Rejected(code), 0)])
    case RpcCommit(id, ahb, timestamp, acquire, outcome) =>
      id in s.rpcs && s.rpcs[id].Waiting? && ahb != 0 &&
      HalOnly(s, s'.(rpcs := s.rpcs, origin := s.origin, recorded := s.recorded)) &&
      var r := s.rpcs[id];
      AfterWait(s.cell, s'.cell, r.token, r.desc, ahb, timestamp, acquire, s'.signaled, outcome) &&
      var q := s'.cell.received;
      s'.rpcs == s.rpcs[id := Done(r.token, outcome, q)] &&
      if outcome.Accepted? then s'.origin == s.origin[q := id] && s'.recorded == s.recorded[q := {}]
      else s'.origin == s.origin && s'.recorded == s.recorded
    case _ => false
  }

  /** The relay commits the RPC's result, then releaseHeld. */
  ghost predicate Replied(s: Sys, s': Sys) {
    s.call.Some? && s.queue.Some? && s.call.value in s.rpcs && s.rpcs[s.call.value].Done? &&
    var id, held := s.call.value, s.queue.value.held;
    match s.rpcs[id].outcome
    case Accepted(_) =>
      s' == s.(call := None, queue := Some(s.queue.value.(held := Some(id))),
               returned := if held.None? then s.returned
                           else s.returned[held.value := WithFence(RetiredPoints(s.rpcs[id].outcome))])
    case Rejected(_) => s' == s.(call := None, returned := s.returned[id := AsProduced])
  }

  ghost predicate RelayStep(s: Sys, s': Sys, step: Step) {
    match step
    case Admit(token, closed) => // CallbackImpl::admit
      if token <= 0 || !s.connected || token < s.gateToken || (token == s.gateToken && (!closed || s.gateClosed))
      then s' == s
      else s' == s.(gateToken := token, gateClosed := closed, opens := if closed then s.opens else s.opens + {token})
    case Create(token, abandoned, installed) => // the Java task of an accepted open
      token in s.opens && s.call == None &&
      (installed ==> abandoned && s.connected && s.gateToken == token && !s.gateClosed) &&
      s' == s.(opens := s.opens - {token}, used := s.used + {token},
               queue := if installed then Some(Queue(token, None)) else if abandoned then None else s.queue)
    case Discard => // releaseQueue
      s.call == None && s' == s.(queue := None)
    case Submit(id, desc) => // onFrameAvailable up to the RPC
      s.connected && s.call == None && s.queue.Some? && id !in s.rpcs && id !in s.returned &&
      s' == s.(call := Some(id), rpcs := s.rpcs[id := Sent(s.queue.value.token, desc)])
    case Unsent(id) => // its fence could not be duplicated: no RPC is made
      s.call == None && s.queue.Some? && id !in s.rpcs && id !in s.returned &&
      s' == s.(returned := s.returned[id := AsProduced])
    case Reply => Replied(s, s')
    case Lost => // transport failure: abandonQueueLocked, the call may still be executing
      s.call.Some? && s' == s.(call := None, queue := None)
    case CloseGate => s' == s.(gateClosed := true) // nativeRemoveProducer
    case Disconnect => s' == s.(connected := false)
    case _ => false
  }

  ghost predicate NextStep(k: nat, s: Sys, s': Sys, step: Step) {
    HalStep(k, s, s', step) || RelayStep(s, s', step)
  }

  ghost predicate Next(k: nat, s: Sys, s': Sys) {
    exists step :: NextStep(k, s, s', step)
  }

  ghost predicate Run(k: nat, run: seq<Sys>) {
    run != [] && Init(run[0]) && forall i :: 0 <= i < |run| - 1 ==> Next(k, run[i], run[i + 1])
  }

  // ---------------------------------------------------------------- invariants

  /** Outstanding readers are counted and all of them hold the slot's current frame. */
  ghost predicate ReadersHoldTheFrame(s: Sys) {
    var f := s.cell.slot.frame;
    |s.leases| == f.inflight &&
    forall id :: id in s.leases ==> f.ahb != 0 && s.leases[id] == Lease(f.ahb, f.sequence, f.token, f.desc)
  }

  /** No recorded read of the current frame is forgotten before it fired. */
  ghost predicate FrameAccounts(s: Sys) {
    var f := s.cell.slot.frame;
    && (f.ahb == 0 ==> f == EMPTY_FRAME)
    && (f.ahb != 0 ==> f.token > 0 && f.sequence in s.recorded)
    && (f.ahb != 0 ==> s.recorded[f.sequence] <= AllPoints(f.pending) + s.signaled)
    && (f.ahb != 0 && !f.retiring && s.cell.slot.config != 0 ==> f.token == s.cell.slot.config)
  }

  ghost predicate AcceptedRpc(s: Sys, id: nat) {
    id in s.rpcs && s.rpcs[id].Done? && s.rpcs[id].outcome.Accepted?
  }

  ghost predicate OriginsMatch(s: Sys) {
    && s.origin.Keys == s.recorded.Keys
    && (forall q :: q in s.origin ==> q <= s.cell.received)
    && (forall q :: q in s.origin ==> AcceptedRpc(s, s.origin[q]) && s.rpcs[s.origin[q]].sequence == q)
    && (var f := s.cell.slot.frame;
        f.ahb != 0 && f.sequence in s.origin ==> s.rpcs[s.origin[f.sequence]].token == f.token)
    && (forall id: nat :: AcceptedRpc(s, id) ==> s.rpcs[id].sequence in s.origin && s.origin[s.rpcs[id].sequence] == id)
  }

  /** Every token gets at most one queue, so only that queue's current call can still be
      accepted under it. */
  ghost predicate TokensSingleUse(s: Sys) {
    && (forall t :: t in s.opens ==> 0 < t <= s.gateToken && t !in s.used)
    && (forall t :: t in s.used ==> 0 < t <= s.gateToken)
    && (forall id :: id in s.rpcs ==> s.rpcs[id].token in s.used)
    && (s.queue.Some? ==> s.queue.value.token in s.used)
    && (s.queue.Some? ==> forall id: nat :: Unfinished(s, id, s.queue.value.token) ==> s.call == Some(id))
    && (s.call.Some? ==> CallInFlight(s, s.call.value))
  }

  ghost predicate Unfinished(s: Sys, id: nat, token: int) {
    id in s.rpcs && !s.rpcs[id].Done? && s.rpcs[id].token == token
  }

  ghost predicate CallInFlight(s: Sys, id: nat) {
    s.queue.Some? && id in s.rpcs && id !in s.returned && s.rpcs[id].token == s.queue.value.token &&
    s.queue.value.held != Some(id)
  }

  ghost predicate Reading(s: Sys, q: nat) {
    s.cell.slot.frame.ahb != 0 && s.cell.slot.frame.sequence == q
  }

  /** Nothing reads submission `q` any more and `points` covers all that ever did. */
  ghost predicate Finished(s: Sys, q: nat, points: set<Point>) {
    !Reading(s, q) && q in s.recorded && s.recorded[q] <= points + s.signaled
  }

  /** Submission `q` of the live queue is the slot's frame, or quiescent. */
  ghost predicate InPlace(s: Sys, q: nat)
    requires s.queue.Some?
  {
    (Reading(s, q) && s.cell.slot.frame.token == s.queue.value.token) || Finished(s, q, {})
  }

  ghost predicate CallAccepted(s: Sys) {
    s.call.Some? && AcceptedRpc(s, s.call.value)
  }

  ghost function RetiredPoints(outcome: Outcome): set<Point> {
    if outcome.Accepted? && outcome.retired.Some? then outcome.retired.value else {}
  }

  /** The held buffer is in place until the current call is accepted; from then on that
      call's result carries its fence. */
  ghost predicate HeldIsCovered(s: Sys) {
    s.queue.Some? ==>
      && (s.queue.value.held.Some? ==> Covered(s, s.queue.value.held.value))
      && (CallAccepted(s) ==> InPlace(s, s.rpcs[s.call.value].sequence))
  }

  ghost predicate Covered(s: Sys, id: nat)
    requires s.queue.Some?
  {
    AcceptedRpc(s, id) && id !in s.returned &&
    if CallAccepted(s) then Finished(s, s.rpcs[id].sequence, RetiredPoints(s.rpcs[s.call.value].outcome))
    else InPlace(s, s.rpcs[id].sequence)
  }

  /** A buffer that went back is never read again and its fence covers every read of it. */
  ghost predicate ReturnIsSafe(s: Sys, id: nat)
    requires id in s.returned
  {
    match s.returned[id]
    case AsProduced => forall q :: q in s.origin ==> s.origin[q] != id
    case WithFence(points) => forall q :: q in s.origin && s.origin[q] == id ==> Finished(s, q, points)
  }

  ghost predicate ReturnsAreSafe(s: Sys) {
    forall id :: id in s.returned ==>
      ReturnIsSafe(s, id) && (id in s.rpcs ==> s.rpcs[id].Done?)
  }

  /** kMaxPendingReads holds even when every merge fails. */
  ghost predicate PendingBounded(k: nat, s: Sys) {
    var f := s.cell.slot.frame;
    |f.pending| + k * f.inflight <= k * MAX_PENDING_READS
  }

  /** On a slot with a descriptor a readable frame was submitted after readiness for the live
      token and has the negotiated size and format. */
  ghost predicate NegotiatedFrame(s: Sys) {
    var slot := s.cell.slot;
    slot.caps.Some? && slot.config != 0 ==>
      && (slot.ready ==> slot.config in s.readied)
      && (slot.frame.ahb != 0 && !slot.frame.retiring ==>
            slot.ready && slot.frame.desc == Desc(slot.width, slot.height, RGBA_8888))
  }

  ghost predicate CountersOrdered(s: Sys) {
    0 <= s.cell.slot.config <= s.cell.next <= MAX_IDENTITY && s.cell.slot.owner <= s.cell.next
  }

  /** What the HAL side keeps on its own. */
  ghost predicate HalInv(k: nat, s: Sys) {
    CountersOrdered(s) && ReadersHoldTheFrame(s) && FrameAccounts(s) && PendingBounded(k, s) && NegotiatedFrame(s)
  }

  ghost predicate RelayInv(s: Sys) {
    OriginsMatch(s) && TokensSingleUse(s) && HeldIsCovered(s) && ReturnsAreSafe(s)
  }

  ghost predicate Inv(k: nat, s: Sys) {
    HalInv(k, s) && RelayInv(s)
  }

  lemma InitInv(k: nat, s: Sys)
    requires Init(s)
    ensures Inv(k, s)
  {
  }

  // ---------------------------------------------------------------- HAL steps

  lemma AllPointsConcat(a: seq<set<Point>>, b: seq<set<Point>>)
    ensures AllPoints(a + b) == AllPoints(a) + AllPoints(b)
  {
    forall p | p in AllPoints(a) + AllPoints(b) ensures p in AllPoints(a + b) {
      if i :| 0 <= i < |a| && p in a[i] {
        assert p in (a + b)[i];
      } else {
        var i :| 0 <= i < |b| && p in b[i];
        assert p in (a + b)[|a| + i];
      }
    }
  }

  lemma AllPointsOne(points: set<Point>)
    ensures AllPoints([points]) == points
  {
    assert forall p :: p in points ==> p in [points][0];
  }

  /** Every locked section except an accepted submission leaves the frame's identity alone
      or empties the slot once all reads of it fired. */
  ghost predicate Evolves(s: Sys, s': Sys) {
    var f, f' := s.cell.slot.frame, s'.cell.slot.frame;
    && s' == s.(cell := s'.cell, signaled := s'.signaled, leases := s'.leases, recorded := s'.recorded, readied := s'.readied)
    && s.signaled <= s'.signaled && s.cell.received <= s'.cell.received
    && s'.recorded.Keys == s.recorded.Keys
    && (forall q :: q in s.recorded && !Reading(s, q) ==> s'.recorded[q] == s.recorded[q])
    && (f'.ahb != 0 ==> f.ahb == f'.ahb && f'.sequence == f.sequence && f'.token == f.token)
    && (f.ahb != 0 && f'.ahb == 0 && f.sequence in s.recorded ==> s'.recorded[f.sequence] <= s'.signaled)
  }

  ghost predicate SlotStep(step: Step) {
    step.Signal? || step.OtherSlots? || step.Configure? || step.Close? || step.Ready? || step.Register? || step.Revoked?
  }

  lemma ReapKeepsFrame(f: Frame, f': Frame, signaled: set<Point>)
    requires Reap(f, f', signaled)
    requires f.ahb == 0 ==> f.(retiring := false) == EMPTY_FRAME
    ensures f'.ahb != 0 ==> f' == f.(pending := f'.pending) && AllPoints(f.pending) <= AllPoints(f'.pending) + signaled
    ensures f'.ahb != 0 ==> |f'.pending| <= |f.pending|
    ensures f'.ahb == 0 ==> f' == EMPTY_FRAME && f.inflight == 0 && AllPoints(f.pending) <= signaled
  {
  }

  lemma SlotStepInv(k: nat, s: Sys, s': Sys, step: Step)
    requires HalInv(k, s) && SlotStep(step) && HalStep(k, s, s', step)
    ensures HalInv(k, s') && Evolves(s, s')
  {
    var f, f' := s.cell.slot.frame, s'.cell.slot.frame;
    if f' != f {
      ReapKeepsFrame(f.(retiring := true), f', s'.signaled);
    }
  }

  lemma BoundScales(k: nat, n: nat, m: nat)
    requires k >= 1 && n + m <= MAX_PENDING_READS
    ensures n + k * m <= k * MAX_PENDING_READS
  {
    assert n <= k * n;
    assert k * n + k * m == k * (n + m) <= k * MAX_PENDING_READS;
  }

  lemma AcquireInv(k: nat, s: Sys, s': Sys, step: Step)
    requires k >= 1 && HalInv(k, s) && step.Acquire? && HalStep(k, s, s', step)
    ensures HalInv(k, s') && Evolves(s, s')
  {
    if step.lease == None {
      AcquireNothing(k, s, s', step);
    } else {
      AcquireCounts(k, s, s', step);
      AcquireBounded(k, s, s', step);
    }
  }

  lemma AcquireCounts(k: nat, s: Sys, s': Sys, step: Step)
    requires HalInv(k, s) && step.Acquire? && step.lease.Some? && HalStep(k, s, s', step)
    ensures ReadersHoldTheFrame(s')
  {
    assert s'.leases.Keys == s.leases.Keys + {step.id};
    assert |s'.leases| == |s.leases| + 1;
  }

  lemma AcquireNothing(k: nat, s: Sys, s': Sys, step: Step)
    requires HalInv(k, s) && step.Acquire? && step.lease == None && HalStep(k, s, s', step)
    ensures HalInv(k, s') && Evolves(s, s')
  {
  }

  lemma AcquireBounded(k: nat, s: Sys, s': Sys, step: Step)
    requires k >= 1 && step.Acquire? && step.lease.Some? && HalStep(k, s, s', step)
    ensures PendingBounded(k, s')
  {
    BoundScales(k, |s'.cell.slot.frame.pending|, s'.cell.slot.frame.inflight);
  }

  /** The frame after one reader handed in its fences, before they are consolidated. */
  ghost function Returned(f: Frame, fences: seq<set<Point>>): Frame {
    f.(pending := f.pending + fences, inflight := if f.inflight > 0 then f.inflight - 1 else 0)
  }

  lemma ReleasedFrame(k: nat, s: Sys, s': Sys, step: Step)
    requires HalInv(k, s) && step.Release? && HalStep(k, s, s', step)
    ensures var f, f1, f' := s.cell.slot.frame, Returned(s.cell.slot.frame, step.fences), s'.cell.slot.frame;
            && s'.cell == s.cell.(slot := s.cell.slot.(frame := f'))
            && f.ahb != 0 && f.inflight > 0 && |s'.leases| == f.inflight - 1
            && (f'.ahb != 0 ==> f' == f1.(pending := f'.pending) && |f'.pending| <= |f1.pending| &&
                                AllPoints(f1.pending) <= AllPoints(f'.pending) + s'.signaled)
            && (f'.ahb == 0 ==> f' == EMPTY_FRAME && f.inflight == 1 && AllPoints(f1.pending) <= s'.signaled)
  {
    assert s'.leases.Keys == s.leases.Keys - {step.id};
    assert |s'.leases| == |s.leases| - 1;
  }

  lemma ReleaseInv(k: nat, s: Sys, s': Sys, step: Step)
    requires HalInv(k, s) && step.Release? && HalStep(k, s, s', step)
    ensures HalInv(k, s') && Evolves(s, s')
  {
    ReleasedFrame(k, s, s', step);
    AllPointsConcat(s.cell.slot.frame.pending, step.fences);
    ReleaseBounded(k, s.cell.slot.frame, s'.cell.slot.frame, step.fences);
  }

  lemma ReleaseBounded(k: nat, f: Frame, f': Frame, fences: seq<set<Point>>)
    requires f.inflight > 0 && |fences| <= k && |f.pending| + k * f.inflight <= k * MAX_PENDING_READS
    requires f'.ahb != 0 ==> |f'.pending| <= |f.pending| + |fences| && f'.inflight == f.inflight - 1
    requires f'.ahb == 0 ==> f' == EMPTY_FRAME
    ensures |f'.pending| + k * f'.inflight <= k * MAX_PENDING_READS
  {
    assert k * f.inflight == k * (f.inflight - 1) + k;
  }

  lemma EvolveKeepsRelay(s: Sys, s': Sys)
    requires RelayInv(s) && FrameAccounts(s) && Evolves(s, s')
    ensures RelayInv(s')
  {
    assert forall q :: q in s.recorded && !Reading(s, q) ==> !Reading(s', q);
    assert forall id: nat :: AcceptedRpc(s', id) == AcceptedRpc(s, id);
    assert TokensSingleUse(s') by {
      assert forall id: nat, t :: Unfinished(s', id, t) == Unfinished(s, id, t);
    }
    forall q, points | q in s.recorded && Finished(s, q, points) ensures Finished(s', q, points) {
    }
  }

  // ---------------------------------------------------------------- RPC progress

  ghost predicate RpcAdvanced(s: Sys, s': Sys, id: nat) {
    && id in s.rpcs && !s.rpcs[id].Done?
    && s' == s.(rpcs := s'.rpcs) && id in s'.rpcs
    && s'.rpcs == s.rpcs[id := s'.rpcs[id]]
    && s'.rpcs[id].token == s.rpcs[id].token && (s'.rpcs[id].Done? ==> s'.rpcs[id].outcome.Rejected?)
  }

  lemma RpcAdvanceKeepsRelay(s: Sys, s': Sys, id: nat)
    requires RelayInv(s) && RpcAdvanced(s, s', id)
    ensures RelayInv(s')
  {
    assert forall i: nat :: AcceptedRpc(s', i) == AcceptedRpc(s, i);
    assert forall i: nat, t :: Unfinished(s', i, t) ==> Unfinished(s, i, t);
    assert forall q, points :: q in s.recorded ==> Finished(s', q, points) == Finished(s, q, points);
    assert id !in s.returned;
    assert ReturnsAreSafe(s');
  }

  lemma RpcStartInv(k: nat, s: Sys, s': Sys, step: Step)
    requires Inv(k, s) && step.RpcStart? && HalStep(k, s, s', step)
    ensures Inv(k, s')
  {
    var mid := s'.(rpcs := s.rpcs);
    var f, f' := s.cell.slot.frame, s'.cell.slot.frame;
    if f' != f {
      ReapKeepsFrame(f, f', s'.signaled);
    }
    assert HalInv(k, mid) && Evolves(s, mid);
    EvolveKeepsRelay(s, mid);
    RpcAdvanceKeepsRelay(mid, s', step.id);
  }

  lemma RpcFailInv(k: nat, s: Sys, s': Sys, step: Step)
    requires Inv(k, s) && step.RpcFail? && HalStep(k, s, s', step)
    ensures Inv(k, s')
  {
    RpcAdvanceKeepsRelay(s, s', step.id);
  }

  /** A rejected submission at most reaps or consolidates the frame it leaves in place. */
  lemma CommitRejectedInv(k: nat, s: Sys, s': Sys, step: Step)
    requires Inv(k, s) && step.RpcCommit? && step.outcome.Rejected? && HalStep(k, s, s', step)
    ensures Inv(k, s')
  {
    var mid := s'.(rpcs := s.rpcs);
    var f, f' := s.cell.slot.frame, s'.cell.slot.frame;
    if f' != f && f.retiring {
      ReapKeepsFrame(f, f', s'.signaled);
    }
    assert HalInv(k, mid) && Evolves(s, mid);
    EvolveKeepsRelay(s, mid);
    RpcAdvanceKeepsRelay(mid, s', step.id);
  }

  /** An accepted submission replaces a frame nobody reads; what it hands back covers all
      that was recorded on it. */
  lemma CommitRetires(k: nat, s: Sys, s': Sys, step: Step)
    requires HalInv(k, s) && step.RpcCommit? && step.outcome.Accepted? && HalStep(k, s, s', step)
    ensures s.leases == map[]
    ensures var f, retired := s.cell.slot.frame, step.outcome.retired;
            f.ahb != 0 ==> s.recorded[f.sequence] <= (if retired.Some? then retired.value else {}) + s'.signaled
  {
    var f, retired := s.cell.slot.frame, step.outcome.retired;
    assert f.inflight == 0;
    if retired.Some? {
      AllPointsOne(retired.value);
    }
    assert AllPoints([]) == {};
  }

  lemma CommitAcceptedHal(k: nat, s: Sys, s': Sys, step: Step)
    requires HalInv(k, s) && step.RpcCommit? && step.outcome.Accepted? && HalStep(k, s, s', step)
    requires s.rpcs[step.id].token > 0
    ensures HalInv(k, s')
  {
    CommitRetires(k, s, s', step);
  }

  /** All that an accepted submission changes outside the HAL. */
  ghost predicate Installed(s: Sys, s': Sys, id: nat, q': nat) {
    && s' == s.(cell := s'.cell, signaled := s'.signaled, rpcs := s'.rpcs, origin := s.origin[q' := id], recorded := s.recorded[q' := {}])
    && s.signaled <= s'.signaled
    && q' == s.cell.received + 1 == s'.cell.received
    && id in s.rpcs && !s.rpcs[id].Done? && id in s'.rpcs && s'.rpcs == s.rpcs[id := s'.rpcs[id]]
    && s'.rpcs[id].Done? && s'.rpcs[id].token == s.rpcs[id].token && s'.rpcs[id].outcome.Accepted? && s'.rpcs[id].sequence == q'
    && Reading(s', q') && s'.cell.slot.frame.token == s.rpcs[id].token
  }

  lemma AcceptedInstalls(k: nat, s: Sys, s': Sys, step: Step)
    requires step.RpcCommit? && step.outcome.Accepted? && HalStep(k, s, s', step)
    ensures Installed(s, s', step.id, s'.cell.received)
  {
  }

  lemma FinishedStays(s: Sys, s': Sys, id: nat, q': nat)
    requires OriginsMatch(s) && Installed(s, s', id, q')
    requires s.cell.slot.frame.ahb != 0 ==> s.cell.slot.frame.sequence in s.recorded
    ensures q' !in s.recorded
    ensures forall q, points :: q in s.recorded && Finished(s, q, points) ==> Finished(s', q, points)
  {
  }

  lemma InstalledResults(s: Sys, s': Sys, id: nat, q': nat)
    requires OriginsMatch(s) && Installed(s, s', id, q')
    ensures forall i: nat :: AcceptedRpc(s', i) <==> AcceptedRpc(s, i) || i == id
    ensures forall i: nat :: AcceptedRpc(s, i) ==> i != id && s'.rpcs[i] == s.rpcs[i]
    ensures OriginsMatch(s')
  {
    assert forall i: nat :: AcceptedRpc(s', i) <==> AcceptedRpc(s, i) || i == id;
    assert q' !in s.origin;
  }

  lemma InstalledTokens(s: Sys, s': Sys, id: nat, q': nat)
    requires TokensSingleUse(s) && Installed(s, s', id, q')
    ensures TokensSingleUse(s')
  {
    assert forall i: nat, t :: Unfinished(s', i, t) ==> Unfinished(s, i, t);
  }

  lemma InstalledReturns(s: Sys, s': Sys, id: nat, q': nat)
    requires OriginsMatch(s) && ReturnsAreSafe(s) && Installed(s, s', id, q')
    requires s.cell.slot.frame.ahb != 0 ==> s.cell.slot.frame.sequence in s.recorded
    ensures ReturnsAreSafe(s')
  {
    FinishedStays(s, s', id, q');
    assert id !in s.returned;
    forall i | i in s.returned ensures ReturnIsSafe(s', i) {
      assert ReturnIsSafe(s, i);
    }
  }

  /** While a submission of the live queue is the slot's frame, only that queue's current call
      can replace it, and then the call's result carries its fence. */
  lemma CommitHandsBack(k: nat, s: Sys, s': Sys, step: Step, q: nat)
    requires Inv(k, s) && step.RpcCommit? && step.outcome.Accepted? && HalStep(k, s, s', step)
    requires s.queue.Some? && InPlace(s, q)
    ensures Finished(s', q, {}) || (s.call == Some(step.id) && Finished(s', q, RetiredPoints(step.outcome)))
  {
    AcceptedInstalls(k, s, s', step);
    FinishedStays(s, s', step.id, s'.cell.received);
    if Reading(s, q) {
      CommitRetires(k, s, s', step);
      var f := s.cell.slot.frame;
      if !f.retiring {
        assert s.rpcs[step.id].token == s.cell.slot.config == f.token;
        assert Unfinished(s, step.id, s.queue.value.token);
      }
    }
  }

  lemma CommitAcceptedHeld(k: nat, s: Sys, s': Sys, step: Step)
    requires Inv(k, s) && step.RpcCommit? && step.outcome.Accepted? && HalStep(k, s, s', step)
    ensures HeldIsCovered(s')
  {
    if s.queue.Some? && s.queue.value.held.Some? {
      CommitCoversHeld(k, s, s', step, s.queue.value.held.value);
    }
    if s.queue.Some? {
      CommitPlacesCall(k, s, s', step);
    }
    hide Inv, Covered, InPlace, CallAccepted;
  }

  lemma CommitCoversHeld(k: nat, s: Sys, s': Sys, step: Step, held: nat)
    requires Inv(k, s) && step.RpcCommit? && step.outcome.Accepted? && HalStep(k, s, s', step)
    requires s.queue.Some? && s.queue.value.held == Some(held)
    ensures s'.queue == s.queue && Covered(s', held)
  {
    var q' := s'.cell.received;
    AcceptedInstalls(k, s, s', step);
    InstalledResults(s, s', step.id, q');
    FinishedStays(s, s', step.id, q');
    assert Covered(s, held);
    if !CallAccepted(s) {
      CommitHandsBack(k, s, s', step, s.rpcs[held].sequence);
    }
  }

  lemma CommitPlacesCall(k: nat, s: Sys, s': Sys, step: Step)
    requires Inv(k, s) && step.RpcCommit? && step.outcome.Accepted? && HalStep(k, s, s', step) && s.queue.Some?
    ensures s'.queue == s.queue && (CallAccepted(s') ==> InPlace(s', s'.rpcs[s'.call.value].sequence))
  {
    var q' := s'.cell.received;
    AcceptedInstalls(k, s, s', step);
    InstalledResults(s, s', step.id, q');
    FinishedStays(s, s', step.id, q');
    if CallAccepted(s) {
      CommitHandsBack(k, s, s', step, s.rpcs[s.call.value].sequence);
    }
  }

  lemma CommitAcceptedInv(k: nat, s: Sys, s': Sys, step: Step)
    requires Inv(k, s) && step.RpcCommit? && step.outcome.Accepted? && HalStep(k, s, s', step)
    ensures Inv(k, s')
  {
    var q' := s'.cell.received;
    assert s.rpcs[step.id].token in s.used;
    CommitAcceptedHal(k, s, s', step);
    AcceptedInstalls(k, s, s', step);
    InstalledResults(s, s', step.id, q');
    InstalledTokens(s, s', step.id, q');
    InstalledReturns(s, s', step.id, q');
    CommitAcceptedHeld(k, s, s', step);
  }

  lemma HalStepInv(k: nat, s: Sys, s': Sys, step: Step)
    requires k >= 1 && Inv(k, s) && HalStep(k, s, s', step)
    ensures Inv(k, s')
  {
    if SlotStep(step) {
      SlotStepInv(k, s, s', step);
      EvolveKeepsRelay(s, s');
    } else if step.Acquire? {
      AcquireInv(k, s, s', step);
      EvolveKeepsRelay(s, s');
    } else if step.Release? {
      ReleaseInv(k, s, s', step);
      EvolveKeepsRelay(s, s');
    } else if step.RpcStart? {
      RpcStartInv(k, s, s', step);
    } else if step.RpcFail? {
      RpcFailInv(k, s, s', step);
    } else if step.outcome.Rejected? {
      CommitRejectedInv(k, s, s', step);
    } else {
      CommitAcceptedInv(k, s, s', step);
    }
  }

  // ---------------------------------------------------------------- relay steps

  lemma RelayStepInv(k: nat, s: Sys, s': Sys, step: Step)
    requires Inv(k, s) && RelayStep(s, s', step)
    ensures Inv(k, s')
  {
    RelayKeepsHal(k, s, s', step);
    match step
    case Admit(_, _) => GateStepInv(s, s', step);
    case Create(_, _, _) => GateStepInv(s, s', step);
    case Discard => GateStepInv(s, s', step);
    case Lost => GateStepInv(s, s', step);
    case CloseGate => GateStepInv(s, s', step);
    case Disconnect => GateStepInv(s, s', step);
    case Submit(_, _) => SubmitInv(s, s', step);
    case Unsent(_) => SubmitInv(s, s', step);
    case Reply => ReplyInv(s, s');
    case _ =>
  }

  /** A relay step that leaves every RPC result and every earlier return alone. */
  ghost predicate KeepsResults(s: Sys, s': Sys) {
    && s'.cell == s.cell && s'.signaled == s.signaled && s'.origin == s.origin && s'.recorded == s.recorded
    && (forall id: nat :: AcceptedRpc(s', id) == AcceptedRpc(s, id))
    && (forall id: nat :: id in s.rpcs ==> id in s'.rpcs && s'.rpcs[id] == s.rpcs[id])
    && (forall id :: id in s.returned ==> id in s'.returned && (s'.returned[id] == s.returned[id]))
  }

  lemma ReturnsStay(s: Sys, s': Sys)
    requires ReturnsAreSafe(s) && KeepsResults(s, s')
    ensures forall id :: id in s.returned ==> ReturnIsSafe(s', id) && (id in s'.rpcs && id in s.rpcs ==> s'.rpcs[id].Done?)
  {
    forall id | id in s.returned ensures ReturnIsSafe(s', id) {
      assert ReturnIsSafe(s, id);
    }
  }

  lemma RelayKeepsHal(k: nat, s: Sys, s': Sys, step: Step)
    requires HalInv(k, s) && RelayStep(s, s', step)
    ensures HalInv(k, s')
    ensures s'.cell == s.cell && s'.signaled == s.signaled && s'.leases == s.leases && s'.origin == s.origin && s'.recorded == s.recorded
  {
    hide RetiredPoints;
  }

  lemma GateStepInv(s: Sys, s': Sys, step: Step)
    requires RelayInv(s) && RelayStep(s, s', step)
    requires step.Admit? || step.Create? || step.Discard? || step.Lost? || step.CloseGate? || step.Disconnect?
    ensures RelayInv(s')
  {
    GateResults(s, s', step);
    ReturnsStay(s, s');
    GateTokens(s, s', step);
    GateHeld(s, s', step);
    hide HeldIsCovered, TokensSingleUse, OriginsMatch;
    assert s'.returned == s.returned;
  }

  lemma GateResults(s: Sys, s': Sys, step: Step)
    requires OriginsMatch(s) && RelayStep(s, s', step)
    requires step.Admit? || step.Create? || step.Discard? || step.Lost? || step.CloseGate? || step.Disconnect?
    ensures KeepsResults(s, s') && OriginsMatch(s')
  {
  }

  lemma GateHeld(s: Sys, s': Sys, step: Step)
    requires HeldIsCovered(s) && RelayStep(s, s', step)
    requires step.Admit? || step.Create? || step.Discard? || step.Lost? || step.CloseGate? || step.Disconnect?
    ensures HeldIsCovered(s')
  {
    assert (s'.queue == s.queue && s'.call == s.call) || s'.call == None;
  }

  lemma GateTokens(s: Sys, s': Sys, step: Step)
    requires TokensSingleUse(s) && RelayStep(s, s', step)
    requires step.Admit? || step.Create? || step.Discard? || step.Lost? || step.CloseGate? || step.Disconnect?
    ensures TokensSingleUse(s')
  {
    assert forall id: nat, t :: Unfinished(s', id, t) == Unfinished(s, id, t);
    if step.Create? && step.installed {
      assert step.token !in s.used;
    }
  }

  lemma SubmitInv(s: Sys, s': Sys, step: Step)
    requires RelayInv(s) && RelayStep(s, s', step) && (step.Submit? || step.Unsent?)
    ensures RelayInv(s')
  {
    SubmitResults(s, s', step);
    SubmitHeld(s, s', step);
    SubmitTokens(s, s', step);
    SubmitReturns(s, s', step);
    hide OriginsMatch, TokensSingleUse, HeldIsCovered, ReturnsAreSafe, RelayStep;
  }

  lemma SubmitResults(s: Sys, s': Sys, step: Step)
    requires OriginsMatch(s) && RelayStep(s, s', step) && (step.Submit? || step.Unsent?)
    ensures KeepsResults(s, s') && OriginsMatch(s')
  {
  }

  lemma SubmitHeld(s: Sys, s': Sys, step: Step)
    requires HeldIsCovered(s) && OriginsMatch(s) && RelayStep(s, s', step) && (step.Submit? || step.Unsent?)
    ensures HeldIsCovered(s')
  {
  }

  lemma SubmitTokens(s: Sys, s': Sys, step: Step)
    requires TokensSingleUse(s) && HeldIsCovered(s) && RelayStep(s, s', step) && (step.Submit? || step.Unsent?)
    ensures TokensSingleUse(s')
  {
    assert forall id: nat, t :: Unfinished(s', id, t) ==> Unfinished(s, id, t) || id == step.id;
  }

  lemma SubmitReturns(s: Sys, s': Sys, step: Step)
    requires ReturnsAreSafe(s) && OriginsMatch(s) && KeepsResults(s, s') && RelayStep(s, s', step) && (step.Submit? || step.Unsent?)
    ensures ReturnsAreSafe(s')
  {
    ReturnsStay(s, s');
    assert step.Unsent? ==> ReturnIsSafe(s', step.id);
    hide ReturnIsSafe;
  }

  lemma ReplyInv(s: Sys, s': Sys)
    requires RelayInv(s) && Replied(s, s')
    ensures RelayInv(s')
  {
    ReplyKeeps(s, s');
    ReplyReturns(s, s');
    ReplyTokens(s, s');
    ReplyHolds(s, s');
  }

  lemma ReplyKeeps(s: Sys, s': Sys)
    requires OriginsMatch(s) && ReturnsAreSafe(s) && HeldIsCovered(s) && TokensSingleUse(s) && Replied(s, s')
    ensures OriginsMatch(s')
    ensures forall id :: id in s.returned ==> id in s'.returned && ReturnIsSafe(s', id) && (id in s'.rpcs ==> s'.rpcs[id].Done?)
  {
    assert KeepsResults(s, s') by {
      if s.queue.value.held.Some? {
        assert Covered(s, s.queue.value.held.value);
      }
    }
    ReturnsStay(s, s');
  }

  lemma ReplyHolds(s: Sys, s': Sys)
    requires RelayInv(s) && Replied(s, s')
    ensures HeldIsCovered(s')
  {
    if s.rpcs[s.call.value].outcome.Accepted? {
      assert AcceptedRpc(s, s.call.value);
    } else if s.queue.value.held.Some? {
      assert Covered(s, s.queue.value.held.value);
    }
  }

  /** Rejected: its own buffer goes back untouched. Accepted: the buffer held so far goes
      back with the retired fence. */
  lemma ReplyReturns(s: Sys, s': Sys)
    requires RelayInv(s) && Replied(s, s')
    ensures forall id :: id in s'.returned && id !in s.returned ==> ReturnIsSafe(s', id) && id in s'.rpcs && s'.rpcs[id].Done?
  {
    var id := s.call.value;
    if s.rpcs[id].outcome.Accepted? && s.queue.value.held.Some? {
      var held := s.queue.value.held.value;
      assert AcceptedRpc(s, id) && Covered(s, held);
      assert ReturnIsSafe(s', held);
    }
  }

  lemma ReplyTokens(s: Sys, s': Sys)
    requires TokensSingleUse(s) && Replied(s, s')
    ensures TokensSingleUse(s')
  {
    assert forall i: nat, t :: Unfinished(s', i, t) == Unfinished(s, i, t);
  }

  // ---------------------------------------------------------------- one step of a run

  lemma StepInv(k: nat, s: Sys, s': Sys, step: Step)
    requires k >= 1 && Inv(k, s) && NextStep(k, s, s', step)
    ensures Inv(k, s')
  {
    if HalStep(k, s, s', step) {
      HalStepInv(k, s, s', step);
    } else {
      RelayStepInv(k, s, s', step);
    }
  }

  /** `identity` can no longer configure the slot. */
  ghost predicate Barred(s: Sys, identity: int) {
    identity < s.cell.slot.owner || s.cell.next == MAX_IDENTITY
  }

  /** Known to the HAL, but neither held nor being submitted nor ever given back. */
  ghost predicate Stray(s: Sys, id: nat) {
    id in s.rpcs && id !in s.returned && s.call != Some(id) && (s.queue.Some? ==> s.queue.value.held != Some(id))
  }

  /** What every step respects. */
  ghost predicate Monotone(s: Sys, s': Sys) {
    && s.signaled <= s'.signaled
    && s.cell.next <= s'.cell.next <= MAX_IDENTITY
    && (s'.cell.slot.config == s.cell.slot.config || s'.cell.slot.config == 0 || s'.cell.slot.config > s.cell.next)
    && s.cell.slot.owner <= s'.cell.slot.owner
    && (forall q :: q in s.origin ==> q in s'.origin && s'.origin[q] == s.origin[q])
    && (forall q :: q in s.origin && q in s.recorded && !Reading(s, q) ==>
          !Reading(s', q) && q in s'.recorded && s'.recorded[q] == s.recorded[q])
    && (forall q :: q in s'.origin && q !in s.origin ==> s'.origin[q] !in s.returned)
    && (forall q :: Reading(s, q) && !Reading(s', q) ==> s'.leases == map[])
    && (forall id :: id in s.returned ==> id in s'.returned && s'.returned[id] == s.returned[id])
    && (forall id: nat :: Stray(s, id) ==> Stray(s', id))
  }

  lemma StepMonotone(k: nat, s: Sys, s': Sys, step: Step)
    requires k >= 1 && Inv(k, s) && NextStep(k, s, s', step)
    ensures Monotone(s, s')
  {
    if !HalStep(k, s, s', step) {
      RelayMonotone(k, s, s', step);
    } else if SlotStep(step) {
      SlotMonotone(k, s, s', step);
    } else if step.Acquire? || step.Release? {
      CaptureMonotone(k, s, s', step);
    } else {
      RpcMonotone(k, s, s', step);
    }
  }

  lemma EvolvesMonotone(k: nat, s: Sys, s': Sys)
    requires Inv(k, s) && HalInv(k, s') && Evolves(s, s')
    ensures forall q :: q in s.origin && !Reading(s, q) ==> !Reading(s', q) && s'.recorded[q] == s.recorded[q]
    ensures forall q :: Reading(s, q) && !Reading(s', q) ==> s'.leases == map[]
  {
    if s'.cell.slot.frame.ahb == 0 {
      assert |s'.leases| == 0;
    }
  }

  lemma SlotCounters(k: nat, s: Sys, s': Sys, step: Step)
    requires CountersOrdered(s) && SlotStep(step) && HalStep(k, s, s', step)
    ensures s.cell.next <= s'.cell.next <= MAX_IDENTITY && s.cell.slot.owner <= s'.cell.slot.owner
    ensures s'.cell.slot.config == s.cell.slot.config || s'.cell.slot.config == 0 || s'.cell.slot.config > s.cell.next
  {
  }

  lemma SlotMonotone(k: nat, s: Sys, s': Sys, step: Step)
    requires Inv(k, s) && SlotStep(step) && HalStep(k, s, s', step)
    ensures Monotone(s, s')
  {
    SlotCounters(k, s, s', step);
    SlotStepInv(k, s, s', step);
    SlotEvolvesMonotone(k, s, s');
  }

  lemma SlotEvolvesMonotone(k: nat, s: Sys, s': Sys)
    requires Inv(k, s) && HalInv(k, s') && Evolves(s, s')
    requires s.cell.next <= s'.cell.next <= MAX_IDENTITY && s.cell.slot.owner <= s'.cell.slot.owner
    requires s'.cell.slot.config == s.cell.slot.config || s'.cell.slot.config == 0 || s'.cell.slot.config > s.cell.next
    ensures Monotone(s, s')
  {
    EvolvesMonotone(k, s, s');
  }

  lemma CaptureMonotone(k: nat, s: Sys, s': Sys, step: Step)
    requires k >= 1 && Inv(k, s) && (step.Acquire? || step.Release?) && HalStep(k, s, s', step)
    ensures Monotone(s, s')
  {
    CaptureKeepsCounters(k, s, s', step);
    if step.Acquire? {
      AcquireInv(k, s, s', step);
    } else {
      ReleaseInv(k, s, s', step);
    }
    SlotEvolvesMonotone(k, s, s');
  }

  lemma CaptureKeepsCounters(k: nat, s: Sys, s': Sys, step: Step)
    requires (step.Acquire? || step.Release?) && HalStep(k, s, s', step)
    ensures s'.cell == s.cell.(slot := s.cell.slot.(frame := s'.cell.slot.frame))
  {
  }

  lemma RpcMonotone(k: nat, s: Sys, s': Sys, step: Step)
    requires k >= 1 && Inv(k, s) && HalStep(k, s, s', step) && (step.RpcStart? || step.RpcFail? || step.RpcCommit?)
    ensures Monotone(s, s')
  {
    hide HeldIsCovered, TokensSingleUse, Evolves, RpcAdvanced, Installed, ReadersHoldTheFrame;
    if step.RpcCommit? && step.outcome.Accepted? {
      AcceptedInstalls(k, s, s', step);
      CommitRetires(k, s, s', step);
      InstalledMonotone(s, s', step.id, s'.cell.received);
    } else if step.RpcFail? {
      RejectedMonotone(s, s, s', step.id);
    } else {
      RejectedEvolves(k, s, s', step);
      EvolvesMonotone(k, s, s'.(rpcs := s.rpcs));
      RejectedMonotone(s, s'.(rpcs := s.rpcs), s', step.id);
    }
  }

  lemma InstalledMonotone(s: Sys, s': Sys, id: nat, q': nat)
    requires OriginsMatch(s) && ReturnsAreSafe(s) && CountersOrdered(s) && Installed(s, s', id, q')
    requires s'.leases == map[] && s'.cell == s.cell.(received := q', slot := s.cell.slot.(frame := s'.cell.slot.frame))
    ensures Monotone(s, s')
  {
    assert id !in s.returned;
  }

  lemma RejectedMonotone(s: Sys, mid: Sys, s': Sys, id: nat)
    requires mid == s || (Evolves(s, mid) && forall q :: Reading(s, q) && !Reading(mid, q) ==> mid.leases == map[])
    requires OriginsMatch(s) && CountersOrdered(s) && RpcAdvanced(mid, s', id)
    requires s'.cell == s.cell.(slot := s.cell.slot.(frame := s'.cell.slot.frame))
    ensures Monotone(s, s')
  {
  }

  lemma RejectedEvolves(k: nat, s: Sys, s': Sys, step: Step)
    requires Inv(k, s) && HalStep(k, s, s', step) && (step.RpcStart? || (step.RpcCommit? && step.outcome.Rejected?))
    ensures HalInv(k, s'.(rpcs := s.rpcs)) && Evolves(s, s'.(rpcs := s.rpcs))
  {
    var f, f' := s.cell.slot.frame, s'.cell.slot.frame;
    if f' != f && f.retiring {
      ReapKeepsFrame(f, f', s'.signaled);
    }
  }

  lemma RelayMonotone(k: nat, s: Sys, s': Sys, step: Step)
    requires Inv(k, s) && RelayStep(s, s', step)
    ensures Monotone(s, s')
  {
    RelayKeepsHal(k, s, s', step);
    RelayReturnsGrow(s, s', step);
    RelayStrays(s, s', step);
  }

  lemma RelayReturnsGrow(s: Sys, s': Sys, step: Step)
    requires RelayInv(s) && RelayStep(s, s', step)
    ensures forall id :: id in s.returned ==> id in s'.returned && s'.returned[id] == s.returned[id]
  {
    if step.Reply? && s.queue.value.held.Some? {
      assert Covered(s, s.queue.value.held.value);
    }
  }

  lemma RelayStrays(s: Sys, s': Sys, step: Step)
    requires RelayStep(s, s', step)
    ensures forall id: nat :: Stray(s, id) ==> Stray(s', id)
  {
  }

  // ---------------------------------------------------------------- whole runs

  lemma {:induction false} RunInv(k: nat, run: seq<Sys>, i: nat)
    requires k >= 1 && Run(k, run) && i < |run|
    ensures Inv(k, run[i])
  {
    if i == 0 {
      InitInv(k, run[0]);
    } else {
      RunInv(k, run, i - 1);
      NextInv(k, run[i - 1], run[i]);
    }
  }

  lemma NextInv(k: nat, s: Sys, s': Sys)
    requires k >= 1 && Inv(k, s) && Next(k, s, s')
    ensures Inv(k, s') && Monotone(s, s')
  {
    var step :| NextStep(k, s, s', step);
    StepInv(k, s, s', step);
    StepMonotone(k, s, s', step);
  }

  lemma RunStep(k: nat, run: seq<Sys>, i: nat)
    requires k >= 1 && Run(k, run) && i + 1 < |run|
    ensures Inv(k, run[i]) && Inv(k, run[i + 1]) && Monotone(run[i], run[i + 1])
  {
    RunInv(k, run, i);
    NextInv(k, run[i], run[i + 1]);
  }

  /** Nothing reads the buffer of `id`, which went back as `how`; a fence it went back with
      covers all that was ever recorded on it, but for what is in `fired`. */
  ghost predicate GoneForGood(s: Sys, id: nat, how: Return, fired: set<Point>) {
    && id in s.returned && s.returned[id] == how
    && (forall q :: q in s.origin && s.origin[q] == id ==>
          && how.WithFence? && !Reading(s, q)
          && q in s.recorded && s.recorded[q] <= how.points + fired)
  }

  lemma GoneStaysGone(s: Sys, s': Sys, id: nat, how: Return, fired: set<Point>)
    requires OriginsMatch(s) && Monotone(s, s') && GoneForGood(s, id, how, fired)
    ensures GoneForGood(s', id, how, fired)
  {
  }

  lemma ReturnedIsGone(s: Sys, id: nat)
    requires ReturnsAreSafe(s) && id in s.returned
    ensures GoneForGood(s, id, s.returned[id], s.signaled)
  {
    assert ReturnIsSafe(s, id);
  }

  lemma InvHasSafeReturns(k: nat, s: Sys)
    requires Inv(k, s)
    ensures OriginsMatch(s) && ReturnsAreSafe(s)
  {
  }

  lemma GoneHasNoReader(k: nat, s: Sys, id: nat, how: Return, fired: set<Point>)
    requires Inv(k, s) && GoneForGood(s, id, how, fired)
    ensures forall reader :: reader in s.leases ==>
              s.leases[reader].sequence in s.origin && s.origin[s.leases[reader].sequence] != id
  {
  }

  /** Safety of the hand-off. Once a buffer went back to a live queue, from then on no capture
      holds it, the HAL never serves it again, and the fence it went back with covers every
      read its captures ever record, except what had already fired at that moment. */
  lemma {:induction false} ReturnedBufferIsNeverRead(k: nat, run: seq<Sys>, i: nat, j: nat, id: nat)
    requires k >= 1 && Run(k, run) && i <= j < |run| && id in run[i].returned
    ensures GoneForGood(run[j], id, run[i].returned[id], run[i].signaled)
    ensures forall reader :: reader in run[j].leases ==>
              run[j].leases[reader].sequence in run[j].origin && run[j].origin[run[j].leases[reader].sequence] != id
    decreases j
  {
    hide *;
    RunInv(k, run, j);
    InvHasSafeReturns(k, run[j]);
    if i == j {
      ReturnedIsGone(run[i], id);
    } else {
      ReturnedBufferIsNeverRead(k, run, i, j - 1, id);
      RunStep(k, run, j - 1);
      InvHasSafeReturns(k, run[j - 1]);
      GoneStaysGone(run[j - 1], run[j], id, run[i].returned[id], run[i].signaled);
    }
    GoneHasNoReader(k, run[j], id, run[i].returned[id], run[i].signaled);
  }

  /** A frame leaves the slot only while no capture holds it. */
  lemma FrameLeavesUnread(k: nat, run: seq<Sys>, i: nat, q: nat)
    requires k >= 1 && Run(k, run) && i + 1 < |run| && Reading(run[i], q) && !Reading(run[i + 1], q)
    ensures run[i + 1].leases == map[]
  {
    RunStep(k, run, i);
  }

  /** Every capture still out holds the slot's current frame, so what it hands in is recorded
      on the frame it read. */
  lemma ReleaseRecordsOnItsOwnFrame(k: nat, run: seq<Sys>, i: nat, id: nat, fences: seq<set<Point>>)
    requires k >= 1 && Run(k, run) && i + 1 < |run| && HalStep(k, run[i], run[i + 1], Release(id, fences))
    ensures var q := run[i].leases[id].sequence;
            && Reading(run[i], q) && run[i].leases[id].ahb == run[i].cell.slot.frame.ahb
            && |run[i].leases| == run[i].cell.slot.frame.inflight > 0
            && q in run[i].recorded && run[i + 1].recorded == run[i].recorded[q := run[i].recorded[q] + AllPoints(fences)]
  {
    RunInv(k, run, i);
    assert id in run[i].leases;
    assert |run[i].leases| > 0;
  }

  lemma LostLeavesStrays(k: nat, s: Sys, s': Sys, id: nat)
    requires Inv(k, s) && RelayStep(s, s', Lost)
    requires s.queue.Some? && (s.call == Some(id) || s.queue.value.held == Some(id))
    ensures Stray(s', id)
  {
    assert s.queue.value.held == Some(id) ==> Covered(s, id);
  }

  lemma StrayStays(s: Sys, s': Sys, id: nat)
    requires Monotone(s, s') && Stray(s, id)
    ensures Stray(s', id)
  {
  }

  /** Neither the submitted nor the held buffer of a call that failed in transport is ever
      recycled, although the HAL may still be executing that call. */
  lemma {:induction false} LostBuffersNeverReturn(k: nat, run: seq<Sys>, i: nat, j: nat, id: nat)
    requires k >= 1 && Run(k, run) && i + 1 <= j < |run| && RelayStep(run[i], run[i + 1], Lost)
    requires run[i].queue.Some? && (run[i].call == Some(id) || run[i].queue.value.held == Some(id))
    ensures Stray(run[j], id)
    decreases j
  {
    hide *;
    RunStep(k, run, j - 1);
    if j == i + 1 {
      LostLeavesStrays(k, run[i], run[i + 1], id);
    } else {
      LostBuffersNeverReturn(k, run, i, j - 1, id);
      StrayStays(run[j - 1], run[j], id);
    }
  }

  /** However often merging fails, a frame never carries more than 16 captures' worth of
      fences, counting captures still to come back. */
  lemma PendingReadsBounded(k: nat, run: seq<Sys>, i: nat)
    requires k >= 1 && Run(k, run) && i < |run|
    ensures |run[i].cell.slot.frame.pending| + k * |run[i].leases| <= k * MAX_PENDING_READS
  {
    RunInv(k, run, i);
  }

  /** A capture asking under token t gets a frame submitted under t while t is live, and with a
      descriptor only after readiness for t and with the negotiated geometry. */
  lemma LeaseIsLiveAndNegotiated(k: nat, run: seq<Sys>, i: nat, id: nat, token: int, after: nat, lease: Lease)
    requires k >= 1 && Run(k, run) && i + 1 < |run|
    requires HalStep(k, run[i], run[i + 1], Acquire(id, token, after, Some(lease)))
    ensures lease.token == token == run[i].cell.slot.config && lease.sequence > after
    ensures lease.sequence in run[i].origin && run[i].origin[lease.sequence] in run[i].rpcs
    ensures run[i].rpcs[run[i].origin[lease.sequence]].token == token
    ensures run[i].cell.slot.caps.Some? ==>
              token in run[i].readied && lease.desc == Desc(run[i].cell.slot.width, run[i].cell.slot.height, RGBA_8888)
  {
    RunInv(k, run, i);
  }

  /** Not current, and already handed out. */
  ghost predicate Superseded(s: Sys, token: int) {
    0 < token <= s.cell.next && s.cell.slot.config != token
  }

  lemma SupersededStays(s: Sys, s': Sys, token: int)
    requires Monotone(s, s') && Superseded(s, token)
    ensures Superseded(s', token)
  {
  }

  /** A configuration token that stopped being the slot's current one never is again. */
  lemma {:induction false} TokenNeverReturns(k: nat, run: seq<Sys>, i: nat, j: nat, token: int)
    requires k >= 1 && Run(k, run) && i <= j < |run| && Superseded(run[i], token)
    ensures Superseded(run[j], token)
    decreases j
  {
    hide *;
    if i < j {
      TokenNeverReturns(k, run, i, j - 1, token);
      RunStep(k, run, j - 1);
      SupersededStays(run[j - 1], run[j], token);
    }
  }

  lemma ConfigureMovesCounter(k: nat, s: Sys, s': Sys, step: Step)
    requires step.Configure? && step.token != 0 && HalStep(k, s, s', step)
    ensures s.cell.next < step.token == s'.cell.next
  {
  }

  /** Every token handed out is new. */
  lemma TokensAreFresh(k: nat, run: seq<Sys>, i: nat, j: nat, first: Step, second: Step)
    requires k >= 1 && Run(k, run) && i < j && j + 1 < |run|
    requires first.Configure? && second.Configure? && first.token != 0 && second.token != 0
    requires HalStep(k, run[i], run[i + 1], first) && HalStep(k, run[j], run[j + 1], second)
    ensures first.token < second.token
  {
    hide *;
    ConfigureMovesCounter(k, run[i], run[i + 1], first);
    NextGrows(k, run, i + 1, j);
    ConfigureMovesCounter(k, run[j], run[j + 1], second);
  }

  lemma CounterGrows(s: Sys, s': Sys)
    requires Monotone(s, s')
    ensures s.cell.next <= s'.cell.next
  {
  }

  lemma {:induction false} NextGrows(k: nat, run: seq<Sys>, i: nat, j: nat)
    requires k >= 1 && Run(k, run) && i <= j < |run|
    ensures run[i].cell.next <= run[j].cell.next
    decreases j
  {
    hide *;
    if i < j {
      NextGrows(k, run, i, j - 1);
      RunStep(k, run, j - 1);
      CounterGrows(run[j - 1], run[j]);
    }
  }

  lemma RevokeBars(k: nat, s: Sys, s': Sys, identity: int)
    requires Inv(k, s) && HalStep(k, s, s', Revoked) && identity <= s.cell.next
    ensures Barred(s', identity)
  {
  }

  lemma BarredStays(s: Sys, s': Sys, identity: int)
    requires Monotone(s, s') && Barred(s, identity)
    ensures Barred(s', identity)
  {
  }

  /** After removeProducer or a replaced callback, no session identity allocated before it ever
      configures the slot again, also when the counter is exhausted. */
  lemma {:induction false} RevokedIdentityIsBarred(k: nat, run: seq<Sys>, i: nat, j: nat, identity: int)
    requires k >= 1 && Run(k, run) && i + 1 <= j < |run|
    requires HalStep(k, run[i], run[i + 1], Revoked) && identity <= run[i].cell.next
    ensures Barred(run[j], identity)
    decreases j
  {
    hide *;
    RunStep(k, run, j - 1);
    if j == i + 1 {
      RevokeBars(k, run[i], run[i + 1], identity);
    } else {
      RevokedIdentityIsBarred(k, run, i, j - 1, identity);
      BarredStays(run[j - 1], run[j], identity);
    }
  }

  /** A barred identity is refused and changes nothing. */
  lemma BarredConfiguresNothing(k: nat, s: Sys, s': Sys, identity: int, width: int, height: int, token: int)
    requires Barred(s, identity) && HalStep(k, s, s', Configure(identity, width, height, token))
    ensures token == 0 && s'.cell == s.cell
  {
  }
}
