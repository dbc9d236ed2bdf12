/** The platform side of the native relay (platform-jni/VirtualCameraRelayJni.cpp): connection
    epochs, the lifecycle gate and the per-slot buffer queues. Every method is one section under
    gLock or a slot gate; the RPCs between them may take any time and let others in. Seen from one
    slot every section is an Op, and every Op is a relay step of the hand-off. */
module Relay {
  import opened Wrappers
  import opened ReadFences
  import opened HalSpec
  import opened Lifecycle
  import H = Handoff

  const MAX_SLOTS: nat := 4

  /** gConfigurations of one slot. */
  datatype Gate = Gate(token: int, closed: bool)

  predicate Passes(g: Gate, token: int, closed: bool) {
    token > g.token || (token == g.token && closed && !g.closed)
  }

  /** What the call for one frame came to. */
  datatype RpcResult = Accepted(retired: Option<set<Point>>) | Rejected | TransportFailure

  /** One slot on the newest connection: whether that is up, the lifecycle gate, the producer, the
      queue built for this connection and what it gave back. */
  datatype SlotView = SlotView(epoch: nat, up: bool, gate: Gate, registration: int, queue: Option<H.Queue>,
                               returned: map<nat, H.Return>)

  /** A section as one slot sees it. */
  datatype Op =
    | Connect
    | Disconnect
    | Enrol(registration: int)
    | Offer(event: Event, registration: int)
    | Remove(registration: int)
    | Install(connection: nat, token: int)
    | Discard
    | Unsent(item: nat)
    | Reply(item: nat, result: RpcResult)

  predicate Admits(v: SlotView, e: Event, registration: int) {
    && v.up && e.connection == v.epoch && registration > 0 && v.registration == registration
    && e.token > 0 && Passes(v.gate, e.token, e.closed)
  }

  function AfterOp(v: SlotView, op: Op): SlotView {
    match op
    case Connect => SlotView(v.epoch + 1, true, Gate(0, false), 0, None, map[])
    case Disconnect => v.(up := false)
    case Enrol(registration) => v.(registration := registration)
    case Offer(e, registration) => if Admits(v, e, registration) then v.(gate := Gate(e.token, e.closed)) else v
    case Remove(registration) =>
      if v.up && v.registration == registration then v.(registration := 0, gate := v.gate.(closed := true)) else v
    case Install(connection, token) =>
      v.(queue := if v.up && v.epoch == connection && v.gate == Gate(token, false) then Some(H.Queue(token, None)) else None)
    case Discard => v.(queue := None)
    case Unsent(item) => if v.queue.None? then v else v.(returned := v.returned[item := H.AsProduced])
    case Reply(item, result) => if v.queue.None? then v else Completed(v, item, result)
  }

  function Completed(v: SlotView, item: nat, result: RpcResult): SlotView
    requires v.queue.Some?
  {
    match result
    case Accepted(retired) =>
      var held := v.queue.value.held;
      v.(queue := Some(v.queue.value.(held := Some(item))),
         returned := if held.None? then v.returned
                     else v.returned[held.value := H.WithFence(if retired.Some? then retired.value else {})])
    case Rejected => v.(returned := v.returned[item := H.AsProduced])
    case TransportFailure => v.(queue := None)
  }

  /** What a queue holding `held` gives back on this outcome, and how. */
  function GivenBack(held: Option<nat>, item: nat, result: RpcResult): seq<(nat, H.Return)> {
    match result
    case Accepted(retired) =>
      if held.None? then [] else [(held.value, H.WithFence(if retired.Some? then retired.value else {}))]
    case Rejected => [(item, H.AsProduced)]
    case TransportFailure => []
  }

  /** A BufferQueue consumer; what it gave back, and how, is its history. An item is one
      submission, even where buffers are used again. */
  class RelayQueue {
    const connection: nat
    const configurationToken: int
    var held: Option<nat>
    var framesPushed: nat
    var abandoned: bool
    var returned: seq<(nat, H.Return)>

    constructor (connection: nat, configurationToken: int)
      ensures this.connection == connection && this.configurationToken == configurationToken
      ensures held == None && framesPushed == 0 && !abandoned && returned == []
    {
      this.connection, this.configurationToken := connection, configurationToken;
      held, framesPushed, abandoned, returned := None, 0, false, [];
    }

    /** BufferItemConsumer::releaseBuffer */
    method ReleaseBuffer(item: nat, how: H.Return)
      modifies this`returned
      ensures returned == old(returned) + [(item, how)]
    {
      returned := returned + [(item, how)];
    }

    /** releaseHeld: the buffer the HAL held goes back with the fence the HAL returned. */
    method ReleaseHeld(releaseFence: Option<set<Point>>)
      modifies this`returned, this`held
      ensures held == None
      ensures returned == if old(held).None? then old(returned)
        else old(returned) + [(old(held).value, H.WithFence(if releaseFence.Some? then releaseFence.value else {}))]
    {
      if held.None? {
        return;
      }
      ReleaseBuffer(held.value, H.WithFence(if releaseFence.Some? then releaseFence.value else {}));
      held := None;
    }

    /** The producer can no longer recycle through this queue, so nothing is given back. */
    method Abandon()
      modifies this`abandoned, this`held
      ensures abandoned && held == None
    {
      abandoned := true;
      held := None;
    }
  }

  class FrameRelay {
    var halUp: bool
    var connectionEpoch: nat
    var nextConnectionEpoch: nat
    var connectionReady: bool
    var configurations: seq<Gate>
    var registrations: seq<int>
    var slots: seq<RelayQueue?>
    ghost var returned: seq<map<nat, H.Return>>   // what each slot's queues gave back on this connection

    ghost function View(i: nat): SlotView
      requires Valid() && i < MAX_SLOTS
      reads this, slots[i]
    {
      var queue := slots[i];
      SlotView(nextConnectionEpoch, halUp, configurations[i], registrations[i],
               if queue != null && queue.connection == nextConnectionEpoch then Some(H.Queue(queue.configurationToken, queue.held)) else None,
               returned[i])
    }

    ghost predicate Valid()
      reads this
    {
      && |configurations| == |registrations| == |slots| == |returned| == MAX_SLOTS
      && (if halUp then connectionEpoch == nextConnectionEpoch != 0 else connectionEpoch == 0)
      && (forall i, j :: 0 <= i < j < MAX_SLOTS && slots[i] != null ==> slots[i] != slots[j])
      && (forall i :: 0 <= i < MAX_SLOTS && slots[i] != null ==> slots[i].connection <= nextConnectionEpoch)
    }

    constructor ()
      ensures Valid() && !halUp && nextConnectionEpoch == 0
    {
      halUp, connectionEpoch, nextConnectionEpoch, connectionReady := false, 0, 0, false;
      configurations := [Gate(0, false), Gate(0, false), Gate(0, false), Gate(0, false)];
      registrations := [0, 0, 0, 0];
      slots := [null, null, null, null];
      returned := [map[], map[], map[], map[]];
    }

    /** hal(): a new epoch, before the death link and setCallback. */
    method BeginConnect() returns (epoch: nat)
      requires Valid()
      modifies this
      ensures Valid() && halUp && !connectionReady && slots == old(slots)
      ensures epoch == connectionEpoch == nextConnectionEpoch == old(nextConnectionEpoch) + 1
      ensures forall i: nat :: i < MAX_SLOTS ==> View(i) == AfterOp(old(View(i)), Connect)
    {
      nextConnectionEpoch := nextConnectionEpoch + 1;
      epoch := nextConnectionEpoch;
      halUp, connectionEpoch, connectionReady := true, epoch, false;
      configurations := [Gate(0, false), Gate(0, false), Gate(0, false), Gate(0, false)];
      registrations := [0, 0, 0, 0];
      returned := [map[], map[], map[], map[]];
    }

    /** hal(): ready if this connection is still the current one. */
    method FinishConnect(epoch: nat, linked: bool) returns (ok: bool)
      requires Valid() && epoch != 0
      modifies this`halUp, this`connectionEpoch, this`connectionReady
      ensures Valid()
      ensures ok <==> linked && old(connectionEpoch) == epoch
      ensures ok ==> connectionReady && connectionEpoch == epoch
      ensures !linked && old(connectionEpoch) == epoch ==> !connectionReady
      ensures old(connectionEpoch) != epoch ==> connectionReady == old(connectionReady)
      ensures forall i: nat :: i < MAX_SLOTS ==>
        View(i) == if !linked && old(connectionEpoch) == epoch then AfterOp(old(View(i)), Disconnect) else old(View(i))
    {
      if !linked {
        if connectionEpoch == epoch {
          halUp, connectionEpoch, connectionReady := false, 0, false;
        }
        return false;
      }
      if connectionEpoch != epoch {
        return false;
      }
      connectionReady := true;
      return true;
    }

    /** onHalDiedCb: only the current connection's death counts; its queues are abandoned. */
    method OnHalDied(cookie: nat) returns (handled: bool)
      requires Valid()
      modifies this, set i | 0 <= i < |slots| && slots[i] != null :: slots[i]
      ensures Valid() && nextConnectionEpoch == old(nextConnectionEpoch)
      ensures handled <==> cookie != 0 && cookie == old(connectionEpoch)
      ensures connectionReady == if handled then false else old(connectionReady)
      ensures forall i: nat :: i < MAX_SLOTS ==>
        View(i) == if handled then AfterOp(AfterOp(old(View(i)), Disconnect), Discard) else old(View(i))
      ensures forall i :: 0 <= i < MAX_SLOTS ==> SlotReleased(i, old(slots)[i], handled && old(slots)[i] != null && old(slots)[i].connection == cookie)
    {
      if cookie == 0 || cookie != connectionEpoch || !halUp {
        return false;
      }
      halUp, connectionEpoch, connectionReady := false, 0, false;
      for slot := 0 to MAX_SLOTS
        invariant Valid() && nextConnectionEpoch == old(nextConnectionEpoch)
        invariant !halUp && connectionEpoch == 0 && !connectionReady
        invariant configurations == old(configurations) && registrations == old(registrations) && returned == old(returned)
        invariant forall i :: 0 <= i < MAX_SLOTS ==>
          SlotReleased(i, old(slots)[i], i < slot && old(slots)[i] != null && old(slots)[i].connection == cookie)
      {
        assert slots[slot] == old(slots)[slot];
        ReleaseQueue(slot, cookie, 0);
      }
      return true;
    }

    /** Either the slot's queue was abandoned with nothing given back, or it is untouched. */
    twostate predicate SlotReleased(i: nat, queue: RelayQueue?, released: bool)
      requires |slots| == MAX_SLOTS && i < MAX_SLOTS
      reads this, queue
    {
      && slots[i] == (if released then null else queue)
      && (queue != null ==>
            && queue.returned == old(queue.returned)
            && (released ==> queue.abandoned && queue.held == None)
            && (!released ==> queue.abandoned == old(queue.abandoned) && queue.held == old(queue.held) && queue.framesPushed == old(queue.framesPushed)))
    }

    /** releaseQueue: zero stands for any connection or configuration. */
    method ReleaseQueue(slot: int, expected: nat, configurationToken: int)
      requires Valid()
      modifies this`slots, if 0 <= slot < |slots| && slots[slot] != null then {slots[slot]} else {}
      ensures Valid() && |slots| == |old(slots)|
      ensures forall i :: 0 <= i < MAX_SLOTS ==> SlotReleased(i, old(slots)[i], i == slot && old(slots)[i] != null &&
        (expected == 0 || old(slots)[i].connection == expected) &&
        (configurationToken == 0 || old(slots)[i].configurationToken == configurationToken))
      ensures forall i: nat :: i < MAX_SLOTS ==> View(i) == old(View(i)) || (i == slot && View(i) == AfterOp(old(View(i)), Discard))
    {
      if slot < 0 || slot >= MAX_SLOTS {
        return;
      }
      var queue := slots[slot];
      if queue == null || (expected != 0 && queue.connection != expected) {
        return;
      }
      if configurationToken != 0 && queue.configurationToken != configurationToken {
        return;
      }
      AbandonQueue(slot);
    }

    method AbandonQueue(slot: nat)
      requires Valid() && slot < MAX_SLOTS
      modifies this`slots, if slots[slot] != null then {slots[slot]} else {}
      ensures Valid() && slots == old(slots)[slot := null]
      ensures old(slots)[slot] != null ==> var queue := old(slots)[slot];
        queue.abandoned && queue.held == None && queue.returned == old(queue.returned)
      ensures forall i: nat :: i < MAX_SLOTS ==> View(i) == if i == slot then AfterOp(old(View(i)), Discard) else old(View(i))
    {
      var queue := slots[slot];
      slots := slots[slot := null];
      if queue != null {
        queue.Abandon();
      }
    }

    /** CallbackImpl::admit on the callback object of one connection. */
    method Admit(connection: nat, slot: int, token: int, closed: bool, registration: int) returns (ok: bool)
      requires Valid() && connection != 0
      modifies this`configurations
      ensures Valid()
      ensures ok <==> 0 <= slot < MAX_SLOTS && Admits(old(View(slot)), Event(connection, token, closed), registration)
      ensures forall i: nat :: i < MAX_SLOTS ==>
        View(i) == if i == slot then AfterOp(old(View(i)), Offer(Event(connection, token, closed), registration)) else old(View(i))
    {
      if slot < 0 || slot >= MAX_SLOTS || token <= 0 || !halUp || connectionEpoch != connection {
        return false;
      }
      if registration <= 0 || registrations[slot] != registration {
        return false;
      }
      var state := configurations[slot];
      if token < state.token || (token == state.token && (!closed || state.closed)) {
        return false;
      }
      configurations := configurations[slot := Gate(token, closed)];
      return true;
    }

    /** createRelayQueue, first section: the connection a task may build a queue for. */
    method MayCreate(slot: int, width: int, height: int, callbackEpoch: nat, token: int) returns (epoch: Option<nat>)
      requires Valid()
      ensures epoch == if 0 <= slot < MAX_SLOTS && width > 0 && height > 0 && halUp &&
          (callbackEpoch == 0 || callbackEpoch == connectionEpoch) && token > 0 && configurations[slot] == Gate(token, false)
        then Some(connectionEpoch) else None
    {
      if slot < 0 || slot >= MAX_SLOTS || width <= 0 || height <= 0 {
        return None;
      }
      if !halUp || (callbackEpoch != 0 && callbackEpoch != connectionEpoch) {
        return None;
      }
      if token <= 0 || configurations[slot].token != token || configurations[slot].closed {
        return None;
      }
      return Some(connectionEpoch);
    }

    /** createRelayQueue, last section: the old queue is abandoned first; the new one is installed
        only if its connection and configuration are still the current ones. */
    method Install(slot: nat, queue: RelayQueue) returns (installed: bool)
      requires Valid() && slot < MAX_SLOTS && queue !in slots && queue.connection <= nextConnectionEpoch && queue.held == None
      modifies this`slots, if slots[slot] != null then {slots[slot]} else {}, queue
      ensures Valid()
      ensures installed <==> halUp && connectionEpoch == queue.connection && configurations[slot] == Gate(queue.configurationToken, false)
      ensures slots == old(slots)[slot := if installed then queue else null]
      ensures queue.held == None && (!installed ==> queue.abandoned)
      ensures old(slots)[slot] != null ==> var previous := old(slots)[slot];
        previous.abandoned && previous.held == None && previous.returned == old(previous.returned)
      ensures forall i: nat :: i < MAX_SLOTS ==>
        View(i) == if i == slot then AfterOp(old(View(i)), Op.Install(queue.connection, queue.configurationToken)) else old(View(i))
    {
      AbandonQueue(slot);
      installed := halUp && connectionEpoch == queue.connection &&
                   configurations[slot].token == queue.configurationToken && !configurations[slot].closed;
      if installed {
        slots := slots[slot := queue];
      } else {
        queue.Abandon();
      }
    }

    /** onFrameAvailable, before the RPC: an old listener or a dead connection submits nothing, and
        a queue of an earlier connection never will. */
    method MaySubmit(slot: nat, queue: RelayQueue) returns (ok: bool)
      requires Valid() && slot < MAX_SLOTS && queue.connection != 0
      ensures ok ==> View(slot).up && View(slot).queue == Some(H.Queue(queue.configurationToken, queue.held))
      ensures !ok && slots[slot] == queue ==> !View(slot).up || queue.connection < View(slot).epoch
      ensures queue.connection < View(slot).epoch ==> !ok
    {
      ok := slots[slot] == queue && halUp && connectionEpoch == queue.connection;
    }

    /** onFrameAvailable, after the RPC or without one when the fence could not be duplicated. */
    method Complete(slot: nat, item: nat, result: RpcResult)
      requires Valid() && slot < MAX_SLOTS && slots[slot] != null
      modifies this`slots, this`returned, slots[slot]
      ensures Valid()
      ensures forall i: nat :: i < MAX_SLOTS ==> View(i) == if i == slot then AfterOp(old(View(i)), Reply(item, result)) else old(View(i))
      ensures var queue := old(slots)[slot];
        match result
        case Accepted(retired) =>
          && slots == old(slots) && queue.held == Some(item) && queue.framesPushed == old(queue.framesPushed) + 1
          && queue.abandoned == old(queue.abandoned)
        case Rejected =>
          slots == old(slots) && queue.held == old(queue.held) && queue.abandoned == old(queue.abandoned)
        case TransportFailure =>
          slots == old(slots)[slot := null] && queue.abandoned && queue.held == None
      ensures var queue := old(slots)[slot]; queue.returned == old(queue.returned) + GivenBack(old(queue.held), item, result)
      ensures old(slots)[slot].connection < nextConnectionEpoch ==> forall i: nat :: i < MAX_SLOTS ==> View(i) == old(View(i))
    {
      var queue := slots[slot];
      ghost var after := AfterOp(View(slot), Reply(item, result));
      match result {
        case Accepted(retired) =>
          queue.ReleaseHeld(retired);
          queue.held := Some(item);
          queue.framesPushed := queue.framesPushed + 1;
        case Rejected =>
          queue.ReleaseBuffer(item, H.AsProduced);
        case TransportFailure =>
          AbandonQueue(slot);
      }
      returned := returned[slot := after.returned];
    }

    /** nativeRegisterProducer around its RPC; a failed one restores what it replaced. */
    method BeginRegister(slot: nat, registration: int) returns (previous: int)
      requires Valid() && slot < MAX_SLOTS && halUp
      modifies this`registrations
      ensures Valid() && previous == old(registrations)[slot]
      ensures forall i: nat :: i < MAX_SLOTS ==> View(i) == if i == slot then AfterOp(old(View(i)), Enrol(registration)) else old(View(i))
    {
      previous := registrations[slot];
      registrations := registrations[slot := registration];
    }

    method EndRegister(connection: nat, slot: nat, registration: int, previous: int, ok: bool)
      requires Valid() && slot < MAX_SLOTS
      modifies this`registrations
      ensures Valid()
      ensures forall i: nat :: i < MAX_SLOTS ==>
        View(i) == if i == slot && !ok && connection == connectionEpoch && old(View(i)).registration == registration
                   then AfterOp(old(View(i)), Enrol(previous)) else old(View(i))
    {
      if !ok && connectionEpoch == connection && registrations[slot] == registration {
        registrations := registrations[slot := previous];
      }
    }

    /** nativeRemoveProducer up to its RPC: the gate closes with the registration. */
    method BeginRemove(slot: int, registration: int) returns (ok: bool)
      requires Valid()
      modifies this`registrations, this`configurations
      ensures Valid()
      ensures ok <==> 0 <= slot < MAX_SLOTS && old(View(slot)).up && old(View(slot)).registration == registration
      ensures forall i: nat :: i < MAX_SLOTS ==> View(i) == if i == slot then AfterOp(old(View(i)), Remove(registration)) else old(View(i))
    {
      if !halUp || slot < 0 || slot >= MAX_SLOTS || registrations[slot] != registration {
        return false;
      }
      registrations := registrations[slot := 0];
      configurations := configurations[slot := configurations[slot].(closed := true)];
      return true;
    }
  }

  // ---------------------------------------------------------------- the gate over whole runs

  function AdmittedEvents(v: SlotView, ops: seq<Op>): seq<Event>
    decreases |ops|
  {
    if ops == [] then []
    else
      var rest := AdmittedEvents(AfterOp(v, ops[0]), ops[1..]);
      if ops[0].Offer? && Admits(v, ops[0].event, ops[0].registration) then [ops[0].event] + rest else rest
  }

  function LastAdmitted(v: SlotView): Event {
    Event(v.epoch, v.gate.token, v.gate.closed)
  }

  /** Whatever order callbacks arrive in, admitted events are strictly increasing, across
      removals, deaths and reconnections. */
  lemma {:induction false} AdmittedEventsIncrease(v: SlotView, ops: seq<Op>)
    ensures forall e :: e in AdmittedEvents(v, ops) ==> Later(LastAdmitted(v), e)
    ensures forall i, j :: 0 <= i < j < |AdmittedEvents(v, ops)| ==> Later(AdmittedEvents(v, ops)[i], AdmittedEvents(v, ops)[j])
    decreases |ops|
  {
    if ops != [] {
      var v' := AfterOp(v, ops[0]);
      AdmittedEventsIncrease(v', ops[1..]);
      assert NotLater(LastAdmitted(v), LastAdmitted(v'));
    }
  }

  /** An event gets through exactly if it comes on the current connection, from the current
      producer, for a real token, and is later than the last one that did. */
  lemma AdmitsExactlyLater(v: SlotView, e: Event, registration: int)
    ensures Admits(v, e, registration) <==>
              && v.up && e.connection == v.epoch && registration > 0 && v.registration == registration
              && e.token > 0 && Later(LastAdmitted(v), e)
  {
  }

  function AfterAll(v: SlotView, ops: seq<Op>): SlotView
    decreases |ops|
  {
    if ops == [] then v else AfterAll(AfterOp(v, ops[0]), ops[1..])
  }

  /** The connection and the producer stay, and no later event comes. */
  predicate LeavesOpen(op: Op, open: Event) {
    !op.Connect? && !op.Disconnect? && !op.Enrol? && !op.Remove? && (op.Offer? ==> !Later(open, op.event))
  }

  /** Once an open of a token is admitted its close will be, and a queue can be built for it. */
  lemma {:induction false} CloseFollowsOpen(v: SlotView, ops: seq<Op>, token: int, registration: int)
    requires Admits(v, Event(v.epoch, token, false), registration)
    requires forall op :: op in ops ==> LeavesOpen(op, Event(v.epoch, token, false))
    ensures var v' := AfterAll(AfterOp(v, Offer(Event(v.epoch, token, false), registration)), ops);
            Admits(v', Event(v.epoch, token, true), registration) && AfterOp(v', Install(v.epoch, token)).queue == Some(H.Queue(token, None))
  {
    OpenStaysOpen(AfterOp(v, Offer(Event(v.epoch, token, false), registration)), ops, token, registration);
  }

  ghost predicate IsOpen(v: SlotView, token: int, registration: int) {
    v.up && v.registration == registration > 0 && v.gate == Gate(token, false) && token > 0
  }

  lemma {:induction false} OpenStaysOpen(v: SlotView, ops: seq<Op>, token: int, registration: int)
    requires IsOpen(v, token, registration) && forall op :: op in ops ==> LeavesOpen(op, Event(v.epoch, token, false))
    ensures IsOpen(AfterAll(v, ops), token, registration) && AfterAll(v, ops).epoch == v.epoch
    decreases |ops|
  {
    if ops != [] {
      assert LeavesOpen(ops[0], Event(v.epoch, token, false));
      OpenStaysOpen(AfterOp(v, ops[0]), ops[1..], token, registration);
    }
  }

  /** After the close of a token, or its producer's removal, no queue is built for it again on that
      connection, nor is its open admitted. */
  lemma {:induction false} ClosedStaysClosed(v: SlotView, ops: seq<Op>, connection: nat, token: int, registration: int)
    requires v.epoch > connection || (v.epoch == connection && (v.gate.token > token || v.gate == Gate(token, true)))
    ensures var v' := AfterAll(v, ops);
            AfterOp(v', Install(connection, token)).queue == None && !Admits(v', Event(connection, token, false), registration)
    decreases |ops|
  {
    if ops != [] {
      ClosedStaysClosed(AfterOp(v, ops[0]), ops[1..], connection, token, registration);
    }
  }

  lemma CloseShutsGate(v: SlotView, token: int, registration: int)
    requires Admits(v, Event(v.epoch, token, true), registration)
    ensures AfterOp(v, Offer(Event(v.epoch, token, true), registration)).gate == Gate(token, true)
  {
  }

  /** A removed producer is heard no more unless it registers again; the gate is shut for the
      configuration it had. */
  lemma RemovalSilences(v: SlotView, ops: seq<Op>, e: Event, registration: int)
    requires v.up && v.registration == registration > 0 && forall op :: op in ops ==> op != Enrol(registration)
    ensures AfterOp(v, Remove(registration)).gate == Gate(v.gate.token, true)
    ensures !Admits(AfterAll(AfterOp(v, Remove(registration)), ops), e, registration)
  {
    Unheard(AfterOp(v, Remove(registration)), ops, registration);
  }

  lemma {:induction false} Unheard(v: SlotView, ops: seq<Op>, registration: int)
    requires v.registration != registration && registration > 0 && forall op :: op in ops ==> op != Enrol(registration)
    ensures AfterAll(v, ops).registration != registration
    decreases |ops|
  {
    if ops != [] {
      assert ops[0] in ops && forall op :: op in ops[1..] ==> op in ops;
      Unheard(AfterOp(v, ops[0]), ops[1..], registration);
    }
  }

  /** A newly registered producer is heard; any other no more. */
  lemma RegistrationIsHeard(v: SlotView, e: Event, registration: int, other: int)
    requires v.up && e.connection == v.epoch && registration > 0 && e.token > 0 && Later(LastAdmitted(v), e)
    ensures Admits(AfterOp(v, Enrol(registration)), e, registration)
    ensures other != registration ==> !Admits(AfterOp(v, Enrol(registration)), e, other)
  {
  }

  /** A new connection hears its producers from the first token on, and nothing of the old one. */
  lemma ConnectionIsHeard(v: SlotView, token: int, closed: bool, registration: int, e: Event)
    requires token > 0 && registration > 0
    ensures var v' := AfterOp(AfterOp(v, Connect), Enrol(registration));
            Admits(v', Event(v'.epoch, token, closed), registration) && v'.epoch > v.epoch &&
            (e.connection <= v.epoch ==> !Admits(v', e, registration))
  {
  }

  /** While the connection is down nothing is admitted and no queue is built. */
  lemma {:induction false} DownIsSilent(v: SlotView, ops: seq<Op>, e: Event, registration: int)
    requires !v.up && forall op :: op in ops ==> op != Connect
    ensures var v' := AfterAll(v, ops);
            !v'.up && !Admits(v', e, registration) && AfterOp(v', Install(e.connection, e.token)).queue == None
    decreases |ops|
  {
    if ops != [] {
      assert ops[0] in ops && forall op :: op in ops[1..] ==> op in ops;
      DownIsSilent(AfterOp(v, ops[0]), ops[1..], e, registration);
    }
  }

  // ---------------------------------------------------------------- the relay in the hand-off

  /** The hand-off state with this as its relay side. */
  ghost function Shown(s: H.Sys, v: SlotView): H.Sys {
    s.(gateToken := v.gate.token, gateClosed := v.gate.closed, queue := v.queue, connected := v.up, returned := v.returned)
  }

  /** What has to go before a section: a queue is built once for an accepted open, and a frame's
      outcome belongs to the call under way. */
  ghost predicate InTurn(s: H.Sys, v: SlotView, op: Op) {
    match op
    case Connect => false
    case Install(connection, token) => token in s.opens && s.call == None
    case Discard => s.call == None
    case Unsent(item) => v.queue.Some? && s.call == None && item !in s.rpcs && item !in s.returned
    case Reply(item, result) =>
      && v.queue.Some? && s.call == Some(item) && item in s.rpcs
      && (result.TransportFailure? || (s.rpcs[item].Done? && ResultOf(s.rpcs[item].outcome) == result))
    case _ => true
  }

  function ResultOf(outcome: Outcome): RpcResult {
    if outcome.Accepted? then RpcResult.Accepted(outcome.retired) else RpcResult.Rejected
  }

  ghost function Moved(s: H.Sys, v: SlotView, op: Op): H.Sys {
    var t := Shown(s, AfterOp(v, op));
    match op
    case Offer(e, registration) => if Admits(v, e, registration) && !e.closed then t.(opens := s.opens + {e.token}) else t
    case Install(connection, token) => t.(opens := s.opens - {token}, used := s.used + {token})
    case Reply(item, result) => t.(call := None)
    case _ => t
  }

  function StepOf(v: SlotView, op: Op): H.Step {
    match op
    case Disconnect => H.Disconnect
    case Offer(e, _) => H.Admit(e.token, e.closed)
    case Remove(_) => H.CloseGate
    case Install(_, token) => H.Create(token, true, AfterOp(v, op).queue.Some?)
    case Discard => H.Discard
    case Unsent(item) => H.Unsent(item)
    case Reply(_, result) => if result.TransportFailure? then H.Lost else H.Reply
    case _ => H.Signal
  }

  /** Every section of the relay is a relay step of the hand-off or leaves its state alone. */
  lemma SectionIsStep(s: H.Sys, v: SlotView, op: Op)
    requires s == Shown(s, v) && InTurn(s, v, op)
    ensures var s' := Moved(s, v, op); s' == Shown(s', AfterOp(v, op)) && (s' == s || H.RelayStep(s, s', StepOf(v, op)))
  {
  }

  /** A new connection to a new HAL starts a new hand-off. */
  lemma ConnectionStartsAfresh(s: H.Sys, v: SlotView)
    requires H.Init(s)
    ensures s == Shown(s, AfterOp(v, Connect))
  {
  }

  datatype Joint = Joint(sys: H.Sys, view: SlotView)

  /** A section of the relay, a frame on its way, or a step of the HAL. */
  ghost predicate JointStep(k: nat, a: Joint, b: Joint) {
    || (exists op :: InTurn(a.sys, a.view, op) && b == Joint(Moved(a.sys, a.view, op), AfterOp(a.view, op)))
    || (b.view == a.view && exists step :: H.HalStep(k, a.sys, b.sys, step) || (step.Submit? && H.RelayStep(a.sys, b.sys, step)))
  }

  ghost predicate Reconnected(a: Joint, b: Joint) {
    H.Init(b.sys) && b.view == AfterOp(a.view, Connect)
  }

  /** The relay and its successive HALs, over any number of connections. */
  ghost predicate JointRun(k: nat, run: seq<Joint>) {
    && run != [] && H.Init(run[0].sys) && run[0].sys == Shown(run[0].sys, run[0].view)
    && forall i :: 0 <= i < |run| - 1 ==> JointStep(k, run[i], run[i + 1]) || Reconnected(run[i], run[i + 1])
  }

  lemma JointStepIsNext(k: nat, a: Joint, b: Joint)
    requires JointStep(k, a, b) && a.sys == Shown(a.sys, a.view)
    ensures H.Next(k, a.sys, b.sys) && b.sys == Shown(b.sys, b.view) && b.view.epoch == a.view.epoch
  {
    hide H.HalStep, H.RelayStep, Moved, AfterOp, InTurn;
    if op :| InTurn(a.sys, a.view, op) && b == Joint(Moved(a.sys, a.view, op), AfterOp(a.view, op)) {
      SectionIsStep(a.sys, a.view, op);
      SameEpoch(a.sys, a.view, op);
      if b.sys == a.sys {
        StandingStill(k, a.sys);
        assert H.NextStep(k, a.sys, b.sys, H.Signal);
      } else {
        assert H.NextStep(k, a.sys, b.sys, StepOf(a.view, op));
      }
    } else {
      var step :| H.HalStep(k, a.sys, b.sys, step) || (step.Submit? && H.RelayStep(a.sys, b.sys, step));
      assert H.NextStep(k, a.sys, b.sys, step);
      RelaySideStays(k, a.sys, b.sys, step);
    }
  }

  lemma StandingStill(k: nat, s: H.Sys)
    ensures H.HalStep(k, s, s, H.Signal)
  {
  }

  lemma SameEpoch(s: H.Sys, v: SlotView, op: Op)
    requires InTurn(s, v, op)
    ensures AfterOp(v, op).epoch == v.epoch
  {
  }

  lemma RelaySideStays(k: nat, s: H.Sys, s': H.Sys, step: H.Step)
    requires H.HalStep(k, s, s', step) || (step.Submit? && H.RelayStep(s, s', step))
    ensures s'.gateToken == s.gateToken && s'.gateClosed == s.gateClosed && s'.queue == s.queue
    ensures s'.connected == s.connected && s'.returned == s.returned
  {
  }

  function Systems(run: seq<Joint>): (systems: seq<H.Sys>)
    ensures |systems| == |run| && forall i :: 0 <= i < |run| ==> systems[i] == run[i].sys
  {
    seq(|run|, i requires 0 <= i < |run| => run[i].sys)
  }

  /** Since its connection began, what happened to a slot is a run of the hand-off. */
  lemma {:induction false} EveryConnectionIsARun(k: nat, run: seq<Joint>, i: nat) returns (start: nat)
    requires JointRun(k, run) && i < |run|
    ensures start <= i && H.Run(k, Systems(run[start..i + 1])) && run[i].sys == Shown(run[i].sys, run[i].view)
    ensures forall j :: start <= j <= i ==> run[j].view.epoch == run[i].view.epoch
    ensures forall j :: 0 <= j < start ==> run[j].view.epoch < run[i].view.epoch
  {
    hide H.Init, H.Next, JointStep, Shown;
    if i == 0 {
      start := 0;
    } else {
      start := EveryConnectionIsARun(k, run, i - 1);
      assert JointStep(k, run[i - 1], run[i - 1 + 1]) || Reconnected(run[i - 1], run[i - 1 + 1]);
      if JointStep(k, run[i - 1], run[i]) {
        JointStepIsNext(k, run[i - 1], run[i]);
        OneMoreSystem(k, run[start..i], run[i]);
        assert run[start..i + 1] == run[start..i] + [run[i]];
      } else {
        ConnectionStartsAfresh(run[i].sys, run[i - 1].view);
        start := i;
      }
    }
  }

  lemma OneMoreSystem(k: nat, run: seq<Joint>, next: Joint)
    requires H.Run(k, Systems(run)) && H.Next(k, run[|run| - 1].sys, next.sys)
    ensures H.Run(k, Systems(run + [next]))
  {
    hide H.Init, H.Next;
    var before, after := Systems(run), Systems(run + [next]);
    forall i | 0 <= i < |after| - 1 ensures H.Next(k, after[i], after[i + 1]) {
      if i < |before| - 1 {
        assert H.Next(k, before[i], before[i + 1]);
      }
    }
  }

  /** What a slot's queue gave back on a connection is never read again, and its fence covers
      every read of it, for as long as that connection lasts. */
  lemma GivenBackIsNeverRead(k: nat, run: seq<Joint>, i: nat, j: nat, item: nat)
    requires k >= 1 && JointRun(k, run) && i <= j < |run| && run[i].view.epoch == run[j].view.epoch
    requires item in run[i].view.returned
    ensures H.GoneForGood(run[j].sys, item, run[i].view.returned[item], run[i].sys.signaled)
    ensures forall reader :: reader in run[j].sys.leases ==>
              run[j].sys.leases[reader].sequence in run[j].sys.origin &&
              run[j].sys.origin[run[j].sys.leases[reader].sequence] != item
  {
    hide H.Run, H.GoneForGood, JointStep, Reconnected;
    var start := EveryConnectionIsARun(k, run, j);
    var before := EveryConnectionIsARun(k, run, i);
    var systems := Systems(run[start..j + 1]);
    assert systems[i - start] == run[i].sys && systems[j - start] == run[j].sys;
    H.ReturnedBufferIsNeverRead(k, systems, i - start, j - start, item);
  }

  /** A reply may come after its connection was left, when the queue is no longer in view. What it
      makes the old queue give back is never read again by the HAL it was lent to, and its fence
      covers every read of it. */
  lemma LateReplyIsCovered(k: nat, run: seq<Joint>, i: nat, item: nat, result: RpcResult, n: nat)
    requires k >= 1 && JointRun(k, run) && i < |run| && InTurn(run[i].sys, run[i].view, Reply(item, result))
    requires n < |GivenBack(run[i].view.queue.value.held, item, result)|
    ensures var (back, how) := GivenBack(run[i].view.queue.value.held, item, result)[n];
            var s := Moved(run[i].sys, run[i].view, Reply(item, result));
            && H.GoneForGood(s, back, how, run[i].sys.signaled)
            && forall reader :: reader in s.leases ==>
                 s.leases[reader].sequence in s.origin && s.origin[s.leases[reader].sequence] != back
  {
    hide H.GoneForGood;
    var (back, how) := GivenBack(run[i].view.queue.value.held, item, result)[n];
    var last := Joint(Moved(run[i].sys, run[i].view, Reply(item, result)), AfterOp(run[i].view, Reply(item, result)));
    assert back in last.view.returned && last.view.returned[back] == how;
    ReplyAppended(k, run, i, item, result, last);
    var longer := run[..i + 1] + [last];
    GivenBackIsNeverRead(k, longer, i + 1, i + 1, back);
  }

  lemma ReplyAppended(k: nat, run: seq<Joint>, i: nat, item: nat, result: RpcResult, last: Joint)
    requires JointRun(k, run) && i < |run| && InTurn(run[i].sys, run[i].view, Reply(item, result))
    requires last == Joint(Moved(run[i].sys, run[i].view, Reply(item, result)), AfterOp(run[i].view, Reply(item, result)))
    ensures JointRun(k, run[..i + 1] + [last])
  {
    hide H.Init, H.HalStep, H.RelayStep, Moved, AfterOp, InTurn, Reconnected;
    var longer := run[..i + 1] + [last];
    assert JointStep(k, run[i], last);
    hide JointStep;
    forall j | 0 <= j < |longer| - 1 ensures JointStep(k, longer[j], longer[j + 1]) || Reconnected(longer[j], longer[j + 1]) {
      if j < i {
        assert JointStep(k, run[j], run[j + 1]) || Reconnected(run[j], run[j + 1]);
      }
    }
  }
}
