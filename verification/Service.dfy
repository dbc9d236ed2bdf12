/** Safety of the platform service over all its runs. */
module Service {
  import opened Wrappers
  import opened Lifecycle
  import opened ServiceSpec

  // ---------------------------------------------------------------- one slot's steps

  /** What a step of one slot may do to who owns it. */
  ghost predicate OwnerKept(r: Rec, r': Rec) {
    && (r'.state.owner.Some? ==> r'.state.owner == r.state.owner)
    && (r'.state.owner.Some? ==> r'.state.closing == r.state.closing)
    && (r'.state.owner.None? && r.state.owner.Some? ==> Past(r, Teardown(r.state.owner.value), 3) && r.state.closing)
  }

  /** A step that makes no native call and leaves ownership and teardowns alone. */
  lemma QuietStep(r: Rec, r': Rec)
    requires RecInv(r) && r'.native == r.native
    requires r'.state.owner == r.state.owner && r'.state.closing == r.state.closing
    requires forall c :: Pending(r')[Teardown(c)] == Pending(r)[Teardown(c)]
    requires forall c :: Past(r', Teardown(c), 1) ==> Past(r, Teardown(c), 1)
    requires CheckedOwner(r') && EventsNamed(r')
    ensures RecInv(r') && OwnerKept(r, r')
  {
    hide Pending, Outstanding, OneOwnerAtATime;
  }

  /** Moving tasks around changes nothing about them. */
  lemma SameTasks(r: Rec, r': Rec)
    requires RecInv(r) && Pending(r') == Pending(r) && r'.callbacks == r.callbacks
    ensures EventsNamed(r') && forall c :: Pending(r')[Teardown(c)] == Pending(r)[Teardown(c)]
  {
    hide Pending, NativeInv;
  }

  lemma SubmitKeepsRec(r: Rec, task: Task)
    requires RecInv(r) && task in r.outbox
    ensures var r' := r.(outbox := r.outbox - multiset{task}, queue := r.queue + [task]);
            RecInv(r') && OwnerKept(r, r')
  {
    hide NativeInv, OneTeardown, EventsNamed;
    var r' := r.(outbox := r.outbox - multiset{task}, queue := r.queue + [task]);
    assert Pending(r') == Pending(r);
    SameTasks(r, r');
    QuietStep(r, r');
  }

  lemma StartKeepsRec(r: Rec)
    requires RecInv(r) && r.running.None? && r.queue != []
    ensures var r' := r.(queue := r.queue[1..], running := Some(Running(r.queue[0], 0)));
            RecInv(r') && OwnerKept(r, r')
  {
    hide NativeInv, OneTeardown, EventsNamed;
    var r' := r.(queue := r.queue[1..], running := Some(Running(r.queue[0], 0)));
    assert r.queue == [r.queue[0]] + r.queue[1..];
    assert Pending(r') == Pending(r);
    SameTasks(r, r');
    QuietStep(r, r');
  }

  /** One more task that is no teardown. */
  lemma OneMoreTask(r: Rec, r': Rec, task: Task)
    requires RecInv(r) && !task.Teardown? && (task.Open? || task.Shut? ==> task.camera == task.named)
    requires Pending(r') == Pending(r) + multiset{task} && r'.callbacks == r.callbacks
    ensures EventsNamed(r') && forall c :: Pending(r')[Teardown(c)] == Pending(r)[Teardown(c)]
  {
    hide Pending, NativeInv;
  }

  lemma EventKeepsRec(r: Rec, named: int, e: Event)
    requires RecInv(r)
    ensures var r' := ServiceSpec.EventTaken(r, named, e);
            RecInv(r') && OwnerKept(r, r') && r'.running == r.running && r'.state.owner == r.state.owner
  {
    hide NativeInv, OneTeardown, EventsNamed;
    var r' := ServiceSpec.EventTaken(r, named, e);
    if r' != r {
      var c := r.state.owner.value;
      var task := if e.closed then Shut(c, r'.state.event, named) else Open(c, r'.state.event, named);
      assert Pending(r') == Pending(r) + multiset{task};
      OneMoreTask(r, r', task);
      QuietStep(r, r');
    }
  }

  lemma RecoverKeepsRec(r: Rec, c: int)
    requires RecInv(r)
    ensures var r' := r.(outbox := r.outbox + multiset{ServiceSpec.Recover(c)}); RecInv(r') && OwnerKept(r, r')
  {
    hide NativeInv, OneTeardown, EventsNamed;
    var r' := r.(outbox := r.outbox + multiset{ServiceSpec.Recover(c)});
    assert Pending(r') == Pending(r) + multiset{ServiceSpec.Recover(c)};
    OneMoreTask(r, r', ServiceSpec.Recover(c));
    QuietStep(r, r');
  }

  /** The call log after one more registration by the slot's owner. */
  lemma RegistrationInOrder(log: seq<Call>, c: int)
    requires OneOwnerAtATime(log) && forall d :: Outstanding(log, d) ==> d == c
    ensures OneOwnerAtATime(log + [Registered(c)])
    ensures forall d :: Outstanding(log + [Registered(c)], d) ==> d == c
  {
    var log' := log + [Registered(c)];
    forall a, b | 0 <= a < b < |log'| && log'[a].Registered? && log'[b].Registered? && log'[a].camera != log'[b].camera
      ensures RemovedBetween(log', a, b)
    {
      if b < |log| {
        assert RemovedBetween(log, a, b);
        var m :| a < m < b && log[m] == Removed(log[a].camera);
        assert log'[m] == Removed(log'[a].camera);
      } else {
        assert !Outstanding(log, log[a].camera);
        var m :| a < m < |log| && log[m] == Removed(log[a].camera);
        assert log'[m] == Removed(log'[a].camera);
      }
    }
    forall d | Outstanding(log', d) ensures d == c {
      var a :| 0 <= a < |log'| && log'[a] == Registered(d) && forall m :: a < m < |log'| ==> log'[m] != Removed(d);
      if a < |log| {
        assert forall m :: a < m < |log| ==> log[m] == log'[m];
        assert Outstanding(log, d);
      }
    }
  }

  lemma RemovalInOrder(log: seq<Call>, c: int)
    requires OneOwnerAtATime(log) && forall d :: Outstanding(log, d) ==> d == c
    ensures OneOwnerAtATime(log + [Removed(c)])
    ensures forall d :: !Outstanding(log + [Removed(c)], d)
  {
    var log' := log + [Removed(c)];
    forall a, b | 0 <= a < b < |log'| && log'[a].Registered? && log'[b].Registered? && log'[a].camera != log'[b].camera
      ensures RemovedBetween(log', a, b)
    {
      assert RemovedBetween(log, a, b);
      var m :| a < m < b && log[m] == Removed(log[a].camera);
      assert log'[m] == Removed(log'[a].camera);
    }
    forall d ensures !Outstanding(log', d) {
      if d == c {
        assert log'[|log|] == Removed(d);
      } else {
        StaysSettled(log, Removed(c), d);
      }
    }
  }

  lemma StaysSettled(log: seq<Call>, call: Call, d: int)
    requires !Outstanding(log, d) && call != Registered(d)
    ensures !Outstanding(log + [call], d)
  {
    var log' := log + [call];
    forall a | 0 <= a < |log'| && log'[a] == Registered(d) ensures exists m :: a < m < |log'| && log'[m] == Removed(d) {
      assert log[a] == Registered(d);
      var m :| a < m < |log| && log[m] == Removed(d);
      assert log'[m] == Removed(d);
    }
  }

  lemma AdvanceKeepsRec(r: Rec, ok: bool)
    requires RecInv(r) && r.running.Some?
    ensures RecInv(Advanced(r, ok)) && OwnerKept(r, Advanced(r, ok))
  {
    var r' := Advanced(r, ok);
    var task, pc := r.running.value.task, r.running.value.pc;
    match task
    case Register(c) => AdvanceRegistration(r, ok, c);
    case Recover(c) => AdvanceRegistration(r, ok, c);
    case Teardown(c) => AdvanceTeardown(r, ok, c);
    case Open(c, number, named) => AdvanceCallback(r, ok, c);
    case Shut(c, number, named) => AdvanceCallback(r, ok, c);
  }

  lemma AdvanceRegistration(r: Rec, ok: bool, c: int)
    requires RecInv(r) && r.running.Some?
    requires r.running.value.task == Register(c) || r.running.value.task == ServiceSpec.Recover(c)
    ensures RecInv(Advanced(r, ok)) && OwnerKept(r, Advanced(r, ok))
  {
    hide NativeInv, OneTeardown;
    var r' := Advanced(r, ok);
    FewerTasks(r, r');
    assert EventsNamed(r');
    hide EventsNamed, Pending;
    if r.running.value.pc > 0 {
      RegistrationMade(r, r', c);
    } else {
      QuietStep(r, r');
    }
  }

  lemma RegistrationMade(r: Rec, r': Rec, c: int)
    requires RecInv(r) && r.state.owner == Some(c)
    requires r' == r.(running := None, native := r.native + [Registered(c)])
    requires EventsNamed(r') && forall d :: Pending(r')[Teardown(d)] == Pending(r)[Teardown(d)]
    ensures RecInv(r') && OwnerKept(r, r')
  {
    hide Pending, EventsNamed;
    RegistrationInOrder(r.native, c);
    hide Outstanding, OneOwnerAtATime;
  }

  lemma AdvanceCallback(r: Rec, ok: bool, c: int)
    requires RecInv(r) && r.running.Some? && (r.running.value.task.Open? || r.running.value.task.Shut?) && r.running.value.task.camera == c
    ensures RecInv(Advanced(r, ok)) && OwnerKept(r, Advanced(r, ok))
  {
    hide NativeInv, OneTeardown;
    var r' := Advanced(r, ok);
    assert r.running.value.task in Pending(r);
    FewerTasks(r, r');
    assert EventsNamed(r');
    hide EventsNamed, Pending;
    QuietStep(r, r');
  }

  /** The running task goes on or is done. */
  lemma FewerTasks(r: Rec, r': Rec)
    requires r.running.Some? && !r.running.value.task.Teardown? && r'.outbox == r.outbox && r'.queue == r.queue
    requires RunningTask(r') == RunningTask(r) || r'.running == None
    ensures forall c :: Pending(r')[Teardown(c)] == Pending(r)[Teardown(c)]
    ensures forall t :: t in Pending(r') ==> t in Pending(r)
  {
  }

  lemma AdvanceTeardown(r: Rec, ok: bool, c: int)
    requires RecInv(r) && r.running.Some? && r.running.value.task == Teardown(c)
    ensures RecInv(Advanced(r, ok)) && OwnerKept(r, Advanced(r, ok))
  {
    var r' := Advanced(r, ok);
    assert Pending(r)[Teardown(c)] >= 1;
    assert r.state.owner == Some(c) && r.state.closing;
    if r.running.value.pc == 0 {
      RemovalInOrder(r.native, c);
    }
    assert forall d :: d != c ==> Pending(r')[Teardown(d)] == Pending(r)[Teardown(d)];
    assert forall t :: t in Pending(r') ==> t in Pending(r);
  }

  // ---------------------------------------------------------------- the whole service

  predicate RecClosed(r: Rec, c: int) {
    r.state.owner != Some(c) || Past(r, Teardown(c), 3)
  }

  /** A step inside one slot, with the close() call it may make. */
  lemma SlotStepKeepsInv(s: Svc, s': Svc, slot: nat)
    requires |s.slots| == MAX_SLOTS && Inv(s) && slot < MAX_SLOTS
    requires |s'.slots| == MAX_SLOTS && s' == WithSlot(s.(closes := s'.closes), slot, s'.slots[slot])
    requires var r, r' := s.slots[slot], s'.slots[slot];
             && RecInv(r') && OwnerKept(r, r')
             && (forall c :: RecClosed(r, c) ==> RecClosed(r', c))
             && (forall c :: s'.closes[c] == s.closes[c] + if RecClosed(r', c) && !RecClosed(r, c) then 1 else 0)
    ensures Inv(s')
  {
    hide RecInv;
    var r, r' := s.slots[slot], s'.slots[slot];
    assert forall other: nat :: other < MAX_SLOTS && other != slot ==> s'.slots[other] == s.slots[other];
    forall c | c in s'.home ensures CameraInv(s', c) {
      assert CameraInv(s, c);
      if s.home[c] == slot {
        assert Closed(s, c) == RecClosed(r, c) && Closed(s', c) == RecClosed(r', c);
      } else {
        assert r.state.owner != Some(c);
        assert Closed(s, c) == Closed(s', c);
      }
    }
    assert OwnersAtHome(s');
  }

  lemma PlaceKeepsRec(r: Rec, c: int)
    requires RecInv(r) && r.state.owner.None?
    ensures RecInv(r.(state := Lifecycle.Reserved(r.state, c), outbox := r.outbox + multiset{Register(c)}))
  {
    hide Outstanding, OneOwnerAtATime;
    var r' := r.(state := Lifecycle.Reserved(r.state, c), outbox := r.outbox + multiset{Register(c)});
    assert Pending(r') == Pending(r) + multiset{Register(c)};
    OneMoreTask(r, r', Register(c));
    hide Pending;
    assert OneTeardown(r');
  }

  lemma TakeKeepsRec(r: Rec, c: int)
    requires RecInv(r) && Owning(r.state, c)
    ensures RecInv(r.(state := ClosingBegun(r.state, c), outbox := r.outbox + multiset{Teardown(c)}))
  {
    hide Outstanding, OneOwnerAtATime;
    var r' := r.(state := ClosingBegun(r.state, c), outbox := r.outbox + multiset{Teardown(c)});
    assert Pending(r') == Pending(r) + multiset{Teardown(c)};
    hide Pending;
    assert Pending(r)[Teardown(c)] == 0;
    assert OneTeardown(r');
  }

  lemma PlaceKeepsInv(s: Svc, c: int, max: nat)
    requires |s.slots| == MAX_SLOTS && Inv(s) && Enabled(s, Place(c, max))
    ensures Inv(Placed(s, c, max))
  {
    var s' := Placed(s, c, max);
    var free := FreeSlot(s.slots, 0, max);
    hide FreeSlot, RecInv;
    if free.Some? {
      PlaceInSlot(s, c, free.value);
    } else {
      PlaceWithoutSlot(s, c);
    }
  }

  lemma PlaceWithoutSlot(s: Svc, c: int)
    requires |s.slots| == MAX_SLOTS && Inv(s) && c in s.linked && c !in s.dead
    ensures Inv(s.(cameras := s.cameras + {c}, linked := s.linked - {c}))
  {
    hide RecInv;
    var s' := s.(cameras := s.cameras + {c}, linked := s.linked - {c});
    forall d | d in s'.home ensures CameraInv(s', d) {
      assert CameraInv(s, d);
    }
  }

  lemma PlaceInSlot(s: Svc, c: int, slot: nat)
    requires |s.slots| == MAX_SLOTS && Inv(s) && c in s.linked && c !in s.dead
    requires slot < MAX_SLOTS && s.slots[slot].state.owner.None?
    ensures var r := s.slots[slot];
            Inv(WithSlot(s.(cameras := s.cameras + {c}, linked := s.linked - {c}, slotOf := s.slotOf[c := slot], home := s.home[c := slot]),
                slot, r.(state := Lifecycle.Reserved(r.state, c), outbox := r.outbox + multiset{Register(c)})))
  {
    var r := s.slots[slot];
    var r' := r.(state := Lifecycle.Reserved(r.state, c), outbox := r.outbox + multiset{Register(c)});
    var s' := WithSlot(s.(cameras := s.cameras + {c}, linked := s.linked - {c}, slotOf := s.slotOf[c := slot], home := s.home[c := slot]), slot, r');
    PlaceKeepsRec(r, c);
    assert RecInv(r) && !r.state.closing && !Past(r, Teardown(c), 3);
    hide RecInv;
    NeverClosed(s, c);
    assert c !in s.home by {
      assert c in s.home ==> CameraInv(s, c);
    }
    CamerasAfterPlace(s, s', c, slot);
    RestAfterPlace(s, s', c, slot);
    hide CameraInv, IdsInv, RemovalInv, DeathsHandled, OwnersAtHome;
  }

  lemma RestAfterPlace(s: Svc, s': Svc, c: int, slot: nat)
    requires |s.slots| == |s'.slots| == MAX_SLOTS && slot < MAX_SLOTS && IdsInv(s) && DeathsHandled(s) && OwnersAtHome(s)
    requires forall op :: op in s.removals ==> RemovalInv(s, s.removals[op])
    requires c in s.linked && c !in s.dead && c !in s.home
    requires s'.slots == s.slots[slot := s'.slots[slot]] && s'.slots[slot].state.owner == Some(c)
    requires s' == s.(slots := s'.slots, cameras := s.cameras + {c}, linked := s.linked - {c}, slotOf := s.slotOf[c := slot], home := s.home[c := slot])
    ensures IdsInv(s') && DeathsHandled(s') && OwnersAtHome(s')
    ensures forall op :: op in s'.removals ==> RemovalInv(s', s'.removals[op])
  {
    hide RecInv;
    forall op | op in s'.removals ensures RemovalInv(s', s'.removals[op]) {
      assert RemovalInv(s, s.removals[op]);
    }
  }

  ghost predicate CamerasInv(s: Svc)
    requires |s.slots| == MAX_SLOTS
  {
    forall c :: c in s.home ==> CameraInv(s, c)
  }

  lemma CamerasAfterPlace(s: Svc, s': Svc, c: int, slot: nat)
    requires |s.slots| == |s'.slots| == MAX_SLOTS && slot < MAX_SLOTS && CamerasInv(s)
    requires c in s.linked && s.closes[c] == 0 && s.slots[slot].state.owner.None? && FIRST_ID <= c < s.nextId
    requires s'.slots == s.slots[slot := s'.slots[slot]] && Owning(s'.slots[slot].state, c)
    requires s'.slots[slot].running == s.slots[slot].running && !Past(s.slots[slot], Teardown(c), 3)
    requires s'.home == s.home[c := slot] && s'.slotOf == s.slotOf[c := slot] && s'.cameras == s.cameras + {c}
    requires s'.linked == s.linked - {c} && s'.closes == s.closes && s'.nextId == s.nextId
    ensures CamerasInv(s')
  {
    forall d | d in s'.home ensures CameraInv(s', d) {
      if d != c {
        assert CameraInv(s, d);
      }
    }
  }

  /** A camera without a slot so far has not been torn down. */
  lemma NeverClosed(s: Svc, c: int)
    requires |s.slots| == MAX_SLOTS && Inv(s) && c in s.linked
    ensures s.closes[c] == 0
  {
  }

  lemma LinkKeepsInv(s: Svc)
    requires |s.slots| == MAX_SLOTS && Inv(s)
    ensures Inv(Effect(s, Link))
  {
    hide RecInv;
    var s' := Effect(s, Link);
    forall c | c in s'.home ensures CameraInv(s', c) {
      assert CameraInv(s, c);
    }
  }

  /** Steps that touch neither slots nor cameras. */
  lemma BookkeepingKeepsInv(s: Svc, s': Svc)
    requires |s.slots| == MAX_SLOTS && Inv(s)
    requires s' == s.(linked := s'.linked, dead := s'.dead, dying := s'.dying, handled := s'.handled, removals := s'.removals)
    requires s'.linked <= s.linked && DeathsHandled(s')
    requires forall op :: op in s'.removals ==> RemovalInv(s, s'.removals[op])
    ensures Inv(s')
  {
    hide RecInv, DeathsHandled;
    forall c | c in s'.home ensures CameraInv(s', c) {
      assert CameraInv(s, c);
    }
  }

  lemma LookupKeepsInv(s: Svc, op: nat, c: int, death: bool)
    requires |s.slots| == MAX_SLOTS && Inv(s) && Enabled(s, Lookup(op, c, death))
    ensures Inv(LookedUp(s, op, c, death))
  {
    hide RecInv;
    if c in s.home {
      assert CameraInv(s, c);
    }
    BookkeepingKeepsInv(s, LookedUp(s, op, c, death));
  }

  lemma CloseDirectKeepsInv(s: Svc, c: int)
    requires |s.slots| == MAX_SLOTS && Inv(s) && c in s.unclosed
    ensures Inv(Effect(s, CloseDirect(c)))
  {
    hide RecInv;
    var s' := Effect(s, CloseDirect(c));
    forall d | d in s'.home ensures CameraInv(s', d) {
      assert CameraInv(s, d);
    }
  }

  lemma TakeKeepsInv(s: Svc, op: nat)
    requires |s.slots| == MAX_SLOTS && Inv(s) && Enabled(s, Take(op))
    ensures Inv(Taken(s, op))
  {
    hide RecInv;
    var removal := s.removals[op];
    var c := removal.camera;
    assert RemovalInv(s, removal);
    if removal.slot.None? {
      TakeUnassigned(s, op);
    } else {
      assert CameraInv(s, c);
      var s1 := s.(removals := s.removals - {op});
      if c in s.cameras {
        TakeFromSlot(s, c, removal.slot.value);
        var s2 := Detached(s, c, removal.slot.value);
        BookkeepingKeepsInv(s2, Taken(s, op));
      } else {
        BookkeepingKeepsInv(s, Taken(s, op));
      }
    }
  }

  function Detached(s: Svc, c: int, slot: nat): Svc
    requires slot < |s.slots|
  {
    var r := s.slots[slot];
    WithSlot(s.(cameras := s.cameras - {c}, slotOf := s.slotOf - {c}), slot,
             r.(state := ClosingBegun(r.state, c), outbox := r.outbox + multiset{Teardown(c)}))
  }

  lemma TakeFromSlot(s: Svc, c: int, slot: nat)
    requires |s.slots| == MAX_SLOTS && Inv(s) && c in s.home && s.home[c] == slot && c in s.cameras && slot < MAX_SLOTS
    ensures Inv(Detached(s, c, slot)) && Owning(s.slots[slot].state, c)
  {
    var r := s.slots[slot];
    var s' := Detached(s, c, slot);
    assert CameraInv(s, c);
    TakeKeepsRec(r, c);
    hide RecInv;
    CamerasAfterTake(s, s', c, slot);
    hide CameraInv;
    RestAfterTake(s, s', c, slot);
    hide IdsInv, RemovalInv, DeathsHandled, OwnersAtHome;
  }

  lemma RestAfterTake(s: Svc, s': Svc, c: int, slot: nat)
    requires |s.slots| == |s'.slots| == MAX_SLOTS && slot < MAX_SLOTS && IdsInv(s) && DeathsHandled(s) && OwnersAtHome(s)
    requires forall op :: op in s.removals ==> RemovalInv(s, s.removals[op])
    requires s'.slots == s.slots[slot := s'.slots[slot]] && s'.slots[slot].state.owner == s.slots[slot].state.owner
    requires s' == s.(slots := s'.slots, cameras := s.cameras - {c}, slotOf := s.slotOf - {c})
    ensures IdsInv(s') && DeathsHandled(s') && OwnersAtHome(s')
    ensures forall op :: op in s'.removals ==> RemovalInv(s', s'.removals[op])
  {
    hide RecInv;
    forall op | op in s'.removals ensures RemovalInv(s', s'.removals[op]) {
      assert RemovalInv(s, s.removals[op]);
    }
  }

  lemma CamerasAfterTake(s: Svc, s': Svc, c: int, slot: nat)
    requires |s.slots| == |s'.slots| == MAX_SLOTS && slot < MAX_SLOTS && CamerasInv(s) && c in s.home && s.home[c] == slot
    requires s'.slots == s.slots[slot := s'.slots[slot]] && Owning(s.slots[slot].state, c)
    requires s'.slots[slot].state.owner == Some(c) && s'.slots[slot].state.closing && s'.slots[slot].running == s.slots[slot].running
    requires s'.home == s.home && s'.slotOf == s.slotOf - {c} && s'.cameras == s.cameras - {c}
    requires s'.linked == s.linked && s'.closes == s.closes && s'.nextId == s.nextId
    ensures CamerasInv(s')
  {
    forall d | d in s'.home ensures CameraInv(s', d) {
      assert CameraInv(s, d);
      assert Closed(s', d) == Closed(s, d);
    }
  }

  lemma TakeUnassigned(s: Svc, op: nat)
    requires |s.slots| == MAX_SLOTS && Inv(s) && op in s.removals && s.removals[op].slot.None?
    ensures Inv(Taken(s, op))
  {
    hide RecInv;
    var s', c := Taken(s, op), s.removals[op].camera;
    assert RemovalInv(s, s.removals[op]);
    forall d | d in s'.home ensures CameraInv(s', d) {
      assert CameraInv(s, d);
    }
    forall other | other in s'.removals ensures RemovalInv(s', s'.removals[other]) {
      assert RemovalInv(s, s.removals[other]);
    }
  }

  lemma InitInv()
    ensures Inv(INITIAL)
  {
    assert RecInv(EMPTY_REC) by {
      assert forall c :: !Outstanding(EMPTY_REC.native, c);
    }
    assert forall slot: nat :: slot < MAX_SLOTS ==> INITIAL.slots[slot] == EMPTY_REC;
  }

  /** Only the close() step of a teardown closes its camera. */
  lemma AdvanceCloses(r: Rec, ok: bool, c: int)
    requires RecInv(r) && r.running.Some?
    ensures RecClosed(r, c) ==> RecClosed(Advanced(r, ok), c)
    ensures Closing(r) == Some(c) <==> RecClosed(Advanced(r, ok), c) && !RecClosed(r, c)
  {
    hide NativeInv, EventsNamed;
    if r.running.value.task.Teardown? {
      assert Pending(r)[r.running.value.task] >= 1;
    }
  }

  lemma AdvanceKeepsInv(s: Svc, slot: nat, ok: bool)
    requires |s.slots| == MAX_SLOTS && Inv(s) && Enabled(s, Advance(slot, ok))
    ensures Inv(Effect(s, Advance(slot, ok)))
  {
    hide RecInv;
    var r, s' := s.slots[slot], Effect(s, Advance(slot, ok));
    AdvanceKeepsRec(r, ok);
    forall c ensures (RecClosed(r, c) ==> RecClosed(Advanced(r, ok), c)) && (Closing(r) == Some(c) <==> RecClosed(Advanced(r, ok), c) && !RecClosed(r, c)) {
      AdvanceCloses(r, ok, c);
    }
    assert forall c :: s'.closes[c] == s.closes[c] + if Closing(r) == Some(c) then 1 else 0;
    hide Closing, Advanced;
    SlotStepKeepsInv(s, s', slot);
  }

  /** A step of a slot that closes nothing. */
  lemma OtherSlotStep(s: Svc, slot: nat, r': Rec)
    requires |s.slots| == MAX_SLOTS && Inv(s) && slot < MAX_SLOTS && RecInv(r') && OwnerKept(s.slots[slot], r')
    requires r'.state.owner == s.slots[slot].state.owner
    requires forall c :: Past(r', Teardown(c), 3) <==> Past(s.slots[slot], Teardown(c), 3)
    ensures Inv(WithSlot(s, slot, r'))
  {
    hide RecInv;
    SlotStepKeepsInv(s, WithSlot(s, slot, r'), slot);
  }

  lemma SubmitInv(s: Svc, slot: nat, task: Task)
    requires |s.slots| == MAX_SLOTS && Inv(s) && Enabled(s, Submit(slot, task))
    ensures Inv(Effect(s, Submit(slot, task)))
  {
    var r := s.slots[slot];
    assert RecInv(r);
    hide RecInv, Inv;
    SubmitKeepsRec(r, task);
    OtherSlotStep(s, slot, r.(outbox := r.outbox - multiset{task}, queue := r.queue + [task]));
  }

  lemma StartInv(s: Svc, slot: nat)
    requires |s.slots| == MAX_SLOTS && Inv(s) && Enabled(s, Start(slot))
    ensures Inv(Effect(s, Start(slot)))
  {
    var r := s.slots[slot];
    assert RecInv(r);
    hide RecInv, Inv;
    StartKeepsRec(r);
    OtherSlotStep(s, slot, r.(queue := r.queue[1..], running := Some(Running(r.queue[0], 0))));
  }

  lemma HalEventInv(s: Svc, slot: nat, named: int, event: Event)
    requires |s.slots| == MAX_SLOTS && Inv(s) && slot < MAX_SLOTS
    ensures Inv(Effect(s, HalEvent(slot, named, event)))
  {
    var r := s.slots[slot];
    assert RecInv(r);
    hide RecInv, Inv, OwnerKept, ServiceSpec.EventTaken;
    EventKeepsRec(r, named, event);
    OtherSlotStep(s, slot, ServiceSpec.EventTaken(r, named, event));
  }

  lemma RecoverInv(s: Svc, slot: nat)
    requires |s.slots| == MAX_SLOTS && Inv(s) && slot < MAX_SLOTS
    ensures Inv(Effect(s, RecoverSlot(slot)))
  {
    var r := s.slots[slot];
    assert RecInv(r);
    hide RecInv, Inv;
    if CurrentOwner(r.state).Some? {
      var c := CurrentOwner(r.state).value;
      RecoverKeepsRec(r, c);
      OtherSlotStep(s, slot, r.(outbox := r.outbox + multiset{ServiceSpec.Recover(c)}));
    }
  }

  lemma NextInv(s: Svc, step: Step)
    requires |s.slots| == MAX_SLOTS && Inv(s) && Enabled(s, step)
    ensures Inv(Effect(s, step))
  {
    hide RecInv;
    match step
    case Link => LinkKeepsInv(s);
    case Die(c) => BookkeepingKeepsInv(s, Effect(s, step));
    case Place(c, max) => PlaceKeepsInv(s, c, max);
    case Refuse(c) => BookkeepingKeepsInv(s, Effect(s, step));
    case Lookup(op, c, death) => LookupKeepsInv(s, op, c, death);
    case Take(op) => TakeKeepsInv(s, op);
    case CloseDirect(c) => CloseDirectKeepsInv(s, c);
    case Advance(slot, ok) => AdvanceKeepsInv(s, slot, ok);
    case Submit(slot, task) => SubmitInv(s, slot, task);
    case Start(slot) => StartInv(s, slot);
    case HalEvent(slot, named, event) => HalEventInv(s, slot, named, event);
    case RecoverSlot(slot) => RecoverInv(s, slot);
  }

  lemma {:induction false} RunInv(run: seq<Svc>, i: nat)
    requires Run(run) && i < |run|
    ensures Inv(run[i])
  {
    hide Inv, Enabled, Effect;
    if i == 0 {
      InitInv();
    } else {
      RunInv(run, i - 1);
      assert Next(run[i - 1], run[i - 1 + 1]);
      var step :| Enabled(run[i - 1], step) && run[i] == Effect(run[i - 1], step);
      NextInv(run[i - 1], step);
    }
  }

  // ---------------------------------------------------------------- what holds on every run

  /** No slot's native layer ever sees a new owner registered before the old one was removed. */
  lemma NativeCallsInOrder(run: seq<Svc>, i: nat, slot: nat, a: nat, b: nat)
    requires Run(run) && i < |run| && slot < MAX_SLOTS
    requires var log := run[i].slots[slot].native;
             a < b < |log| && log[a].Registered? && log[b].Registered? && log[a].camera != log[b].camera
    ensures RemovedBetween(run[i].slots[slot].native, a, b)
  {
    RunInv(run, i);
    assert RecInv(run[i].slots[slot]);
  }

  function Count(holds: bool): nat {
    if holds then 1 else 0
  }

  /** A camera that got a slot is in exactly one phase: registered, with its one teardown under
      way, or closed. */
  lemma ExactlyOneTeardown(run: seq<Svc>, i: nat, c: int)
    requires Run(run) && i < |run| && c in run[i].home
    ensures run[i].home[c] < MAX_SLOTS
    ensures var s := run[i]; var r := s.slots[s.home[c]];
            && Count(c in s.cameras) + Pending(r)[Teardown(c)] - Count(Past(r, Teardown(c), 3)) + s.closes[c] == 1
            && Pending(r)[Teardown(c)] <= 1
  {
    hide Pending, NativeInv, EventsNamed;
    RunInv(run, i);
    var s := run[i];
    assert CameraInv(s, c);
    var r := s.slots[s.home[c]];
    assert RecInv(r);
    assert Pending(r)[Teardown(c)] == if r.state.owner == Some(c) && r.state.closing then 1 else 0;
  }

  /** Once its death is handled a producer is not registered in any later state. */
  lemma DeadStaysAway(run: seq<Svc>, i: nat, j: nat, c: int)
    requires Run(run) && i <= j < |run| && c in run[i].handled
    ensures c in run[j].handled && c !in run[j].cameras
    decreases j - i
  {
    RunInv(run, j);
    if i < j {
      DeadStaysAway(run, i, j - 1, c);
      assert Next(run[j - 1], run[j - 1 + 1]);
      HandledGrows(run[j - 1], run[j]);
    }
  }

  lemma HandledGrows(s: Svc, s': Svc)
    requires |s.slots| == MAX_SLOTS && Next(s, s')
    ensures s.handled <= s'.handled
  {
  }

  /** When a producer callback is made, it is for the event's own camera, which still holds the
      slot and has not been closed. */
  lemma CallbackReachesItsCamera(run: seq<Svc>, i: nat, slot: nat)
    requires Run(run) && i + 1 < |run| && slot < MAX_SLOTS
    requires |run[i + 1].slots[slot].callbacks| > |run[i].slots[slot].callbacks|
    ensures var s := run[i]; var made := run[i + 1].slots[slot].callbacks;
            && made[|made| - 1].camera == made[|made| - 1].named
            && s.slots[slot].state.owner == Some(made[|made| - 1].named)
            && s.closes[made[|made| - 1].named] == 0
  {
    RunInv(run, i);
    RunInv(run, i + 1);
    var s, s' := run[i], run[i + 1];
    assert Next(s, s');
    var step :| Enabled(s, step) && s' == Effect(s, step);
    CallbackStep(s, step, slot);
    assert RecInv(s'.slots[slot]);
    assert RecInv(s.slots[slot]);
    var c := s.slots[slot].running.value.task.camera;
    assert CameraInv(s, c);
  }

  lemma CallbackStep(s: Svc, step: Step, slot: nat)
    requires |s.slots| == MAX_SLOTS && Enabled(s, step) && slot < MAX_SLOTS
    requires |Effect(s, step).slots[slot].callbacks| > |s.slots[slot].callbacks|
    ensures var r := s.slots[slot];
            && r.running.Some? && (r.running.value.task.Open? || r.running.value.task.Shut?)
            && r.running.value.pc >= (if r.running.value.task.Open? then 2 else 1)
            && Effect(s, step).slots[slot].callbacks == r.callbacks + [Callback(r.running.value.task.camera, r.running.value.task.named)]
  {
    if !step.Advance? {
      NoCallback(s, step, slot);
    }
  }

  lemma NoCallback(s: Svc, step: Step, slot: nat)
    requires |s.slots| == MAX_SLOTS && Enabled(s, step) && slot < MAX_SLOTS && !step.Advance?
    ensures Effect(s, step).slots[slot].callbacks == s.slots[slot].callbacks
  {
    hide FreeSlot, Advanced, Lifecycle.Reserved, ClosingBegun, ConfigurationTaken, AcceptsConfiguration, CurrentOwner, Owning;
  }

  // ---------------------------------------------------------------- a camera without a slot

  const SPARE: int := FIRST_ID + 1

  /** The states passed through by consecutive steps. */
  ghost predicate Played(run: seq<Svc>, steps: seq<Step>) {
    |run| == |steps| + 1 && run[0] == INITIAL && (forall i :: 0 <= i < |run| ==> |run[i].slots| == MAX_SLOTS) &&
    forall i :: 0 <= i < |steps| ==> Enabled(run[i], steps[i]) && run[i + 1] == Effect(run[i], steps[i])
  }

  ghost predicate ClosedTwice(run: seq<Svc>) {
    Run(run) && run[|run| - 1].closes[SPARE] == 2 && SPARE !in run[|run| - 1].home
  }

  lemma PlayedIsRun(run: seq<Svc>, steps: seq<Step>)
    requires Played(run, steps)
    ensures Run(run)
  {
    hide Enabled, Effect;
    forall i | 0 <= i < |run| - 1 ensures Next(run[i], run[i + 1]) {
      assert Enabled(run[i], steps[i]) && run[i + 1] == Effect(run[i], steps[i]);
    }
  }

  lemma OneMoreStep(run: seq<Svc>, steps: seq<Step>, step: Step)
    requires Played(run, steps) && Enabled(run[|run| - 1], step)
    ensures Played(run + [Effect(run[|run| - 1], step)], steps + [step])
  {
    hide Enabled, Effect;
  }

  /** With one HAL slot taken, a second registration gets none and removes itself; its death
      handler may do the same at the same time, and close() is called twice. */
  lemma SpareIsClosedTwice()
    ensures exists run: seq<Svc> :: ClosedTwice(run)
  {
    var s1 := Effect(INITIAL, Link);
    OneMoreStep([INITIAL], [], Link);
    var s2 := Placed(s1, FIRST_ID, 1);
    assert s2.slots[0].state.owner == Some(FIRST_ID);
    OneMoreStep([INITIAL, s1], [Link], Place(FIRST_ID, 1));
    var run, steps := [INITIAL, s1] + [s2], [Link] + [Place(FIRST_ID, 1)];
    var s3 := s2.(nextId := SPARE + 1, linked := {SPARE});
    assert Effect(s2, Link) == s3;
    OneMoreStep(run, steps, Link);
    run, steps := run + [s3], steps + [Link];
    var s4 := s3.(cameras := {FIRST_ID, SPARE}, linked := {});
    assert FreeSlot(s3.slots, 0, 1) == None;
    assert Placed(s3, SPARE, 1) == s4;
    OneMoreStep(run, steps, Place(SPARE, 1));
    run, steps := run + [s4], steps + [Place(SPARE, 1)];
    TwoRemovals(run, steps, s4);
  }

  lemma TwoRemovals(run: seq<Svc>, steps: seq<Step>, s: Svc)
    requires Played(run, steps) && run[|run| - 1] == s
    requires s.nextId > SPARE && SPARE !in s.dead && SPARE in s.cameras && s.removals == map[] && SPARE !in s.home && SPARE !in s.slotOf
    requires s.unclosed == multiset{} && s.closes == multiset{}
    ensures exists run': seq<Svc> :: ClosedTwice(run')
  {
    var s1 := Effect(s, Die(SPARE));
    OneMoreStep(run, steps, Die(SPARE));
    var run1, steps1 := run + [s1], steps + [Die(SPARE)];
    var s2 := Effect(s1, Lookup(0, SPARE, true));
    OneMoreStep(run1, steps1, Lookup(0, SPARE, true));
    var run2, steps2 := run1 + [s2], steps1 + [Lookup(0, SPARE, true)];
    var s3 := Effect(s2, Lookup(1, SPARE, false));
    OneMoreStep(run2, steps2, Lookup(1, SPARE, false));
    var run3, steps3 := run2 + [s3], steps2 + [Lookup(1, SPARE, false)];
    assert s3.removals[0] == Removal(SPARE, None, true) && s3.removals[1] == Removal(SPARE, None, false);
    CloseTwice(run3, steps3, s3);
  }

  lemma CloseTwice(run: seq<Svc>, steps: seq<Step>, s: Svc)
    requires Played(run, steps) && run[|run| - 1] == s && SPARE !in s.home
    requires 0 in s.removals && 1 in s.removals && s.removals[0] == Removal(SPARE, None, true) && s.removals[1] == Removal(SPARE, None, false)
    requires s.unclosed == multiset{} && s.closes == multiset{}
    ensures exists run': seq<Svc> :: ClosedTwice(run')
  {
    var s1 := Effect(s, Take(0));
    OneMoreStep(run, steps, Take(0));
    var run1, steps1 := run + [s1], steps + [Take(0)];
    var s2 := Effect(s1, Take(1));
    OneMoreStep(run1, steps1, Take(1));
    var run2, steps2 := run1 + [s2], steps1 + [Take(1)];
    assert s2.unclosed == multiset{SPARE, SPARE};
    CloseBoth(run2, steps2, s2);
  }

  lemma CloseBoth(run2: seq<Svc>, steps2: seq<Step>, s2: Svc)
    requires Played(run2, steps2) && run2[|run2| - 1] == s2 && SPARE !in s2.home
    requires s2.unclosed == multiset{SPARE, SPARE} && s2.closes == multiset{}
    ensures exists run': seq<Svc> :: ClosedTwice(run')
  {
    var s3 := Effect(s2, CloseDirect(SPARE));
    OneMoreStep(run2, steps2, CloseDirect(SPARE));
    var run3, steps3 := run2 + [s3], steps2 + [CloseDirect(SPARE)];
    var s4 := Effect(s3, CloseDirect(SPARE));
    OneMoreStep(run3, steps3, CloseDirect(SPARE));
    var run4 := run3 + [s4];
    PlayedIsRun(run4, steps3 + [CloseDirect(SPARE)]);
    assert ClosedTwice(run4);
  }
}
