/** The platform service as objects: camera maps under one lock, a LifecycleSlot and a
    single-threaded executor per slot (service/VirtualCameraService.java). Every method is one
    step of ServiceSpec. */
module VirtualCameraService {
  import opened Wrappers
  import opened Lifecycle
  import opened ServiceSpec

  ghost function Torn(r: Rec, camera: int): Rec {
    r.(state := ClosingBegun(r.state, camera), outbox := r.outbox + multiset{Teardown(camera)})
  }

  ghost function Booked(r: Rec, camera: int): Rec {
    r.(state := Lifecycle.Reserved(r.state, camera), outbox := r.outbox + multiset{Register(camera)})
  }

  class SlotWorker {
    const slot: LifecycleSlot<int>
    var outbox: multiset<Task>
    var queue: seq<Task>
    var running: Option<Running>
    var native: seq<Call>
    var callbacks: seq<Callback>

    function View(): Rec
      reads this, slot
    {
      Rec(slot.View(), outbox, queue, running, native, callbacks)
    }

    constructor ()
      ensures View() == EMPTY_REC && fresh(slot)
    {
      slot := new LifecycleSlot<int>();
      outbox, queue, running, native, callbacks := multiset{}, [], None, [], [];
    }

    method Post(task: Task)
      modifies this`outbox
      ensures View() == old(View()).(outbox := old(View()).outbox + multiset{task})
    {
      outbox := outbox + multiset{task};
    }

    method BeginTeardown(camera: int) returns (begun: bool)
      modifies this`outbox, slot
      ensures begun == Owning(old(View()).state, camera)
      ensures var r := old(View());
              View() == if begun then r.(state := ClosingBegun(r.state, camera), outbox := r.outbox + multiset{Teardown(camera)}) else r
    {
      begun := slot.BeginClose(camera);
      if begun {
        Post(Teardown(camera));
      }
    }

    method RecoverOwner()
      modifies this`outbox
      ensures var r := old(View()); var owner := CurrentOwner(r.state);
              View() == if owner.Some? then r.(outbox := r.outbox + multiset{Recover(owner.value)}) else r
    {
      var owner := slot.Current();
      if owner.Some? {
        Post(Recover(owner.value));
      }
    }

    /** Executor.execute */
    method Execute(task: Task)
      requires task in outbox
      modifies this`outbox, this`queue
      ensures View() == old(View()).(outbox := old(View()).outbox - multiset{task}, queue := old(View()).queue + [task])
    {
      outbox := outbox - multiset{task};
      queue := queue + [task];
    }

    method Start()
      requires running.None? && queue != []
      modifies this`running, this`queue
      ensures View() == old(View()).(queue := old(View()).queue[1..], running := Some(Running(old(View()).queue[0], 0)))
    {
      running := Some(Running(queue[0], 0));
      queue := queue[1..];
    }

    method Proceed(holds: bool)
      requires running.Some?
      modifies this`running
      ensures running == if holds then Some(Running(old(running).value.task, old(running).value.pc + 1)) else None
    {
      running := if holds then Some(Running(running.value.task, running.value.pc + 1)) else None;
    }

    /** The next step of the running task; `closed` is the camera whose close() it calls. */
    method Advance(ok: bool) returns (closed: Option<int>)
      requires running.Some?
      modifies this, slot
      ensures View() == Advanced(old(View()), ok) && closed == Closing(old(View()))
    {
      closed := None;
      var task, pc := running.value.task, running.value.pc;
      match task
      case Register(camera) =>
        if pc == 0 {
          var owned := slot.Owns(camera);
          Proceed(owned);
        } else {
          native := native + [Registered(camera)];
          Proceed(false);
        }
      case Recover(camera) =>
        if pc == 0 {
          var owned := slot.Owns(camera);
          Proceed(ok && owned);
        } else {
          native := native + [Registered(camera)];
          Proceed(false);
        }
      case Teardown(camera) =>
        if pc == 0 {
          native := native + [Removed(camera)];
          Proceed(true);
        } else if pc < 3 {
          closed := if pc == 2 then Some(camera) else None;
          Proceed(true);
        } else {
          var _ := slot.FinishClose(camera);
          Proceed(false);
        }
      case Open(camera, number, named) =>
        if pc <= 1 {
          var current := slot.IsCurrentEvent(camera, number);
          Proceed(current && (pc == 1 || ok));
        } else {
          callbacks := callbacks + [Callback(camera, named)];
          Proceed(false);
        }
      case Shut(camera, number, named) =>
        if pc == 0 {
          var current := slot.IsCurrentEvent(camera, number);
          Proceed(current && ok);
        } else {
          callbacks := callbacks + [Callback(camera, named)];
          Proceed(false);
        }
    }

    /** onHalStreamsConfigured and onHalCameraClosed, up to handing the task over. */
    method HalEvent(named: int, e: Event)
      modifies this`outbox, slot
      ensures View() == ServiceSpec.EventTaken(old(View()), named, e)
    {
      var owner := slot.Current();
      if owner.None? || owner.value != named {
        return;
      }
      var number := slot.NextConfigurationEvent(owner.value, e.connection, e.token, e.closed);
      if number == 0 {
        return;
      }
      Post(if e.closed then Shut(owner.value, number, named) else Open(owner.value, number, named));
    }
  }

  lemma TakenIs(s: Svc, op: nat, begun: bool, s': Svc)
    requires |s.slots| == MAX_SLOTS && op in s.removals && s.removals[op].slot.Some? && s.removals[op].slot.value < MAX_SLOTS
    requires var r, slot := s.removals[op], s.removals[op].slot.value;
             && begun == (r.camera in s.cameras && Owning(s.slots[slot].state, r.camera))
             && s' == s.(removals := s.removals - {op}, handled := if r.death then s.handled + {r.camera} else s.handled,
                         cameras := if begun then s.cameras - {r.camera} else s.cameras,
                         slotOf := if begun then s.slotOf - {r.camera} else s.slotOf,
                         slots := if begun then s.slots[slot := Torn(s.slots[slot], r.camera)] else s.slots)
    ensures s' == Taken(s, op)
  {
    hide ClosingBegun, Owning;
  }

  class Service {
    const workers: seq<SlotWorker>
    var nextCameraId: int
    var linked: set<int>
    var cameras: set<int>
    var slotByCameraId: map<int, nat>
    var dead: set<int>
    var dying: set<int>
    var handled: set<int>
    var removals: map<nat, Removal>
    var unclosed: multiset<int>
    var closes: multiset<int>
    ghost var home: map<int, nat>

    ghost function Repr(): set<object> {
      (set i | 0 <= i < |workers| :: workers[i]) + (set i | 0 <= i < |workers| :: workers[i].slot)
    }

    ghost predicate Valid() {
      |workers| == MAX_SLOTS &&
      forall i, j :: 0 <= i < j < MAX_SLOTS ==> workers[i] != workers[j] && workers[i].slot != workers[j].slot
    }

    ghost function View(): Svc
      requires Valid()
      reads this, Repr()
    {
      Svc(nextCameraId, linked, cameras, slotByCameraId, Recs(), dead, dying, handled, removals, unclosed, closes, home)
    }

    ghost function Recs(): (recs: seq<Rec>)
      requires Valid()
      reads Repr()
      ensures |recs| == MAX_SLOTS && forall i: nat :: i < MAX_SLOTS ==> recs[i] == workers[i].View()
    {
      [workers[0].View(), workers[1].View(), workers[2].View(), workers[3].View()]
    }

    /** Only one slot changed. */
    twostate lemma OneSlot(slot: nat)
      requires Valid() && slot < MAX_SLOTS
      requires forall i: nat :: i < MAX_SLOTS && i != slot ==> workers[i].View() == old(workers[i].View())
      ensures Recs() == old(Recs())[slot := workers[slot].View()]
    {
    }

    constructor ()
      ensures Valid() && View() == INITIAL
    {
      nextCameraId, linked, cameras, slotByCameraId := FIRST_ID, {}, {}, map[];
      dead, dying, handled, removals := {}, {}, {}, map[];
      unclosed, closes, home := multiset{}, multiset{}, map[];
      var a := new SlotWorker();
      var b := new SlotWorker();
      var c := new SlotWorker();
      var d := new SlotWorker();
      workers := [a, b, c, d];
    }

    /** registerCamera: a new id and a death link. */
    method Link() returns (id: int)
      requires Valid()
      modifies this
      ensures View() == Effect(old(View()), Step.Link) && id == old(nextCameraId)
    {
      id := nextCameraId;
      nextCameraId := nextCameraId + 1;
      linked := linked + {id};
    }

    /** The death recipient sets its flag. */
    method Die(camera: int)
      requires Valid() && Enabled(View(), Step.Die(camera))
      modifies this
      ensures View() == Effect(old(View()), Step.Die(camera))
    {
      dead, dying := dead + {camera}, dying + {camera};
    }

    /** registerCamera under the lock; `alive` is isBinderAlive. */
    method Place(camera: int, max: nat, alive: bool) returns (slot: Option<nat>)
      requires Valid() && camera in linked && 1 <= max <= MAX_SLOTS
      modifies this`linked, this`cameras, this`slotByCameraId, this`home, Repr()
      ensures View() == if camera in old(dead) || !alive then Effect(old(View()), Refuse(camera))
                        else Effect(old(View()), Step.Place(camera, max))
      ensures slot.Some? <==> camera !in old(dead) && alive && FreeSlot(old(View()).slots, 0, max).Some?
    {
      hide Recs, FreeSlot;
      slot := None;
      var refused := camera in dead || !alive;
      if !refused {
        slot := BookSlot(camera, max);
      }
      Admit(camera, refused, slot);
    }

    method Admit(camera: int, refused: bool, slot: Option<nat>)
      modifies this`linked, this`cameras, this`slotByCameraId, this`home
      ensures linked == old(linked) - {camera}
      ensures cameras == if refused then old(cameras) else old(cameras) + {camera}
      ensures slotByCameraId == if slot.Some? then old(slotByCameraId)[camera := slot.value] else old(slotByCameraId)
      ensures home == if slot.Some? then old(home)[camera := slot.value] else old(home)
    {
      linked := linked - {camera};
      cameras := if refused then cameras else cameras + {camera};
      slotByCameraId := if slot.Some? then slotByCameraId[camera := slot.value] else slotByCameraId;
      home := if slot.Some? then home[camera := slot.value] else home;
    }

    method BookSlot(camera: int, max: nat) returns (slot: Option<nat>)
      requires Valid() && max <= MAX_SLOTS
      modifies Repr()
      ensures slot == FreeSlot(old(Recs()), 0, max)
      ensures Recs() == if slot.Some? then old(Recs())[slot.value := Booked(old(Recs())[slot.value], camera)] else old(Recs())
    {
      hide Recs, FreeSlot;
      slot := AllocateSlot(camera, max);
      if slot.Some? {
        workers[slot.value].Post(Register(camera));
        OneSlot(slot.value);
      } else {
        OneSlot(0);
      }
    }

    /** allocateSlotLocked: only the slot it reserves changes. */
    method AllocateSlot(camera: int, max: nat) returns (slot: Option<nat>)
      requires Valid() && max <= MAX_SLOTS
      modifies set i | 0 <= i < |workers| :: workers[i].slot
      ensures slot == FreeSlot(old(Recs()), 0, max)
      ensures forall i: nat :: i < MAX_SLOTS && slot != Some(i) ==> workers[i].View() == old(workers[i].View())
      ensures slot.Some? ==> var r := old(workers[slot.value].View());
                             workers[slot.value].View() == r.(state := Lifecycle.Reserved(r.state, camera))
    {
      var s := 0;
      while s < max
        invariant 0 <= s <= max
        invariant forall i: nat :: i < MAX_SLOTS ==> workers[i].View() == old(workers[i].View())
        invariant FreeSlot(old(Recs()), 0, max) == FreeSlot(old(Recs()), s, max)
      {
        var ok := workers[s].slot.Reserve(camera);
        if ok {
          return Some(s);
        }
        s := s + 1;
      }
      return None;
    }

    /** removeCamera's first locked section. */
    method Lookup(op: nat, camera: int, death: bool)
      requires Valid() && Enabled(View(), Step.Lookup(op, camera, death))
      modifies this
      ensures View() == Effect(old(View()), Step.Lookup(op, camera, death))
    {
      if death {
        dying := dying - {camera};
      }
      if camera !in cameras {
        handled := if death then handled + {camera} else handled;
        return;
      }
      var found := if camera in slotByCameraId then Some(slotByCameraId[camera]) else None;
      removals := removals[op := Removal(camera, found, death)];
    }

    /** The slot's part of the second locked section; cameras and the slot map follow. */
    method BeginTeardown(slot: nat, camera: int) returns (begun: bool)
      requires Valid() && slot < MAX_SLOTS
      modifies workers[slot], workers[slot].slot
      ensures begun == Owning(old(Recs())[slot].state, camera)
      ensures !begun ==> Recs() == old(Recs())
      ensures begun ==> Recs() == old(Recs())[slot := Torn(old(Recs())[slot], camera)]
    {
      hide Recs, ClosingBegun, Owning;
      begun := workers[slot].BeginTeardown(camera);
      OneSlot(slot);
    }

    /** removeCamera's second locked section. */
    method Take(op: nat)
      requires Valid() && Enabled(View(), Step.Take(op))
      modifies this, Repr()
      ensures View() == Effect(old(View()), Step.Take(op))
    {
      if removals[op].slot.None? {
        Forget(op, removals[op], true);
      } else {
        TakeFromSlot(op);
      }
    }

    method TakeFromSlot(op: nat)
      requires Valid() && op in removals && removals[op].slot.Some? && removals[op].slot.value < MAX_SLOTS
      modifies this`removals, this`handled, this`cameras, this`slotByCameraId, this`unclosed, Repr()
      ensures View() == Taken(old(View()), op)
    {
      hide Recs, ClosingBegun, Owning, Torn, Taken;
      var removal := removals[op];
      ghost var before := View();
      var begun := false;
      if removal.camera in cameras {
        begun := BeginTeardown(removal.slot.value, removal.camera);
      }
      Forget(op, removal, begun);
      TakenIs(before, op, begun, View());
    }

    method Forget(op: nat, removal: Removal, begun: bool)
      modifies this`removals, this`handled, this`cameras, this`slotByCameraId, this`unclosed
      ensures removals == old(removals) - {op}
      ensures handled == if removal.death then old(handled) + {removal.camera} else old(handled)
      ensures cameras == if begun then old(cameras) - {removal.camera} else old(cameras)
      ensures slotByCameraId == if begun && removal.slot.Some? then old(slotByCameraId) - {removal.camera} else old(slotByCameraId)
      ensures unclosed == if removal.slot.None? then old(unclosed) + multiset{removal.camera} else old(unclosed)
    {
      removals := removals - {op};
      handled := if removal.death then handled + {removal.camera} else handled;
      cameras := if begun then cameras - {removal.camera} else cameras;
      slotByCameraId := if begun && removal.slot.Some? then slotByCameraId - {removal.camera} else slotByCameraId;
      unclosed := if removal.slot.None? then unclosed + multiset{removal.camera} else unclosed;
    }

    /** camera.close() on the removing thread, for a camera without a slot. */
    method CloseDirect(camera: int)
      requires Valid() && camera in unclosed
      modifies this
      ensures View() == Effect(old(View()), Step.CloseDirect(camera))
    {
      unclosed, closes := unclosed - multiset{camera}, closes + multiset{camera};
    }

    method Submit(slot: nat, task: Task)
      requires Valid() && Enabled(View(), Step.Submit(slot, task))
      modifies workers[slot]
      ensures View() == Effect(old(View()), Step.Submit(slot, task))
    {
      hide Recs;
      workers[slot].Execute(task);
      OneSlot(slot);
    }

    method Start(slot: nat)
      requires Valid() && Enabled(View(), Step.Start(slot))
      modifies workers[slot]
      ensures View() == Effect(old(View()), Step.Start(slot))
    {
      hide Recs;
      workers[slot].Start();
      OneSlot(slot);
    }

    method Advance(slot: nat, ok: bool)
      requires Valid() && Enabled(View(), Step.Advance(slot, ok))
      modifies this`closes, workers[slot], workers[slot].slot
      ensures View() == Effect(old(View()), Step.Advance(slot, ok))
    {
      hide Recs, Advanced;
      var closed := workers[slot].Advance(ok);
      OneSlot(slot);
      if closed.Some? {
        closes := closes + multiset{closed.value};
      }
    }

    method HalEvent(slot: nat, named: int, event: Event)
      requires Valid() && slot < MAX_SLOTS
      modifies workers[slot], workers[slot].slot
      ensures View() == Effect(old(View()), Step.HalEvent(slot, named, event))
    {
      hide Recs, ServiceSpec.EventTaken;
      workers[slot].HalEvent(named, event);
      OneSlot(slot);
    }

    /** recoverHal, for one slot. */
    method RecoverSlot(slot: nat)
      requires Valid() && slot < MAX_SLOTS
      modifies workers[slot]
      ensures View() == Effect(old(View()), Step.RecoverSlot(slot))
    {
      hide Recs, CurrentOwner;
      workers[slot].RecoverOwner();
      OneSlot(slot);
      assert CurrentOwner(old(workers[slot].View()).state).None? ==> Recs() == old(Recs());
    }
  }
}
