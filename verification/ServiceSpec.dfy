/** The platform service (service/VirtualCameraService.java) as a machine of locked sections,
    one task queue per slot and the steps of the task each queue runs. Cameras are known by
    their ids, which are never reused. */
module ServiceSpec {
  import opened Wrappers
  import opened Lifecycle

  const MAX_SLOTS: nat := 4
  const FIRST_ID: int := 1000

  /** Work for a slot's executor. Open and Shut name the camera the HAL event was for. */
  datatype Task =
    | Register(camera: int)
    | Recover(camera: int)
    | Teardown(camera: int)
    | Open(camera: int, number: nat, named: int)
    | Shut(camera: int, number: nat, named: int)

  datatype Running = Running(task: Task, pc: nat)

  /** Calls into the native layer, as they are made for a slot. */
  datatype Call = Registered(camera: int) | Removed(camera: int)

  /** Producer callbacks for one HAL event. */
  datatype Callback = Callback(camera: int, named: int)

  /** One slot; `outbox` are tasks decided on under the lock but not yet handed to the executor. */
  datatype Rec = Rec(state: SlotState<int>, outbox: multiset<Task>, queue: seq<Task>, running: Option<Running>,
                     native: seq<Call>, callbacks: seq<Callback>)

  /** removeCamera between its two locked sections. */
  datatype Removal = Removal(camera: int, slot: Option<nat>, death: bool)

  /** `linked` cameras have an id and a death link but are not registered yet; `dying` ones have
      their death noticed; `handled` ones have their death handler done. `home` remembers slots. */
  datatype Svc = Svc(nextId: int, linked: set<int>, cameras: set<int>, slotOf: map<int, nat>, slots: seq<Rec>,
                     dead: set<int>, dying: set<int>, handled: set<int>, removals: map<nat, Removal>,
                     unclosed: multiset<int>, closes: multiset<int>, home: map<int, nat>)

  const EMPTY_REC: Rec := Rec(NewSlot(), multiset{}, [], None, [], [])

  const INITIAL: Svc := Svc(FIRST_ID, {}, {}, map[], [EMPTY_REC, EMPTY_REC, EMPTY_REC, EMPTY_REC],
                            {}, {}, {}, map[], multiset{}, multiset{}, map[])

  datatype Step =
    | Link
    | Die(camera: int)
    | Place(camera: int, max: nat)
    | Refuse(camera: int)
    | Lookup(op: nat, camera: int, death: bool)
    | Take(op: nat)
    | CloseDirect(camera: int)
    | Submit(slot: nat, task: Task)
    | Start(slot: nat)
    | Advance(slot: nat, ok: bool)
    | HalEvent(slot: nat, named: int, event: Event)
    | RecoverSlot(slot: nat)

  predicate Enabled(s: Svc, step: Step)
    requires |s.slots| == MAX_SLOTS
  {
    match step
    case Link => true
    case Die(c) => FIRST_ID <= c < s.nextId && c !in s.dead
    case Place(c, max) => c in s.linked && c !in s.dead && 1 <= max <= MAX_SLOTS
    case Refuse(c) => c in s.linked
    case Lookup(op, c, death) => op !in s.removals && (death ==> c in s.dying)
    case Take(op) => op in s.removals && (s.removals[op].slot.Some? ==> s.removals[op].slot.value < MAX_SLOTS)
    case CloseDirect(c) => c in s.unclosed
    case Submit(slot, task) => slot < MAX_SLOTS && task in s.slots[slot].outbox
    case Start(slot) => slot < MAX_SLOTS && s.slots[slot].running.None? && s.slots[slot].queue != []
    case Advance(slot, ok) => slot < MAX_SLOTS && s.slots[slot].running.Some?
    case HalEvent(slot, named, event) => slot < MAX_SLOTS
    case RecoverSlot(slot) => slot < MAX_SLOTS
  }

  function WithSlot(s: Svc, slot: nat, r: Rec): Svc
    requires slot < |s.slots|
  {
    s.(slots := s.slots[slot := r])
  }

  /** The lowest free slot below max. */
  function FreeSlot(slots: seq<Rec>, from: nat, max: nat): (r: Option<nat>)
    requires max <= |slots|
    ensures r.Some? ==> r.value < max && slots[r.value].state.owner.None?
    decreases max - from
  {
    if from >= max then None
    else if slots[from].state.owner.None? then Some(from)
    else FreeSlot(slots, from + 1, max)
  }

  function Placed(s: Svc, c: int, max: nat): Svc
    requires max <= |s.slots|
  {
    var s' := s.(cameras := s.cameras + {c}, linked := s.linked - {c});
    match FreeSlot(s.slots, 0, max)
    case None => s'
    case Some(slot) =>
      var r := s.slots[slot];
      WithSlot(s'.(slotOf := s.slotOf[c := slot], home := s.home[c := slot]), slot,
               r.(state := Lifecycle.Reserved(r.state, c), outbox := r.outbox + multiset{Register(c)}))
  }

  function LookedUp(s: Svc, op: nat, c: int, death: bool): Svc {
    var s' := s.(dying := if death then s.dying - {c} else s.dying);
    if c !in s.cameras then s'.(handled := if death then s.handled + {c} else s.handled)
    else s'.(removals := s.removals[op := Removal(c, if c in s.slotOf then Some(s.slotOf[c]) else None, death)])
  }

  function Taken(s: Svc, op: nat): Svc
    requires op in s.removals && (s.removals[op].slot.Some? ==> s.removals[op].slot.value < |s.slots|)
  {
    var r := s.removals[op];
    var c := r.camera;
    var s' := s.(removals := s.removals - {op}, handled := if r.death then s.handled + {c} else s.handled);
    match r.slot
    case None => s'.(cameras := s.cameras - {c}, unclosed := s.unclosed + multiset{c})
    case Some(slot) =>
      var before := s.slots[slot];
      if c !in s.cameras || !Owning(before.state, c) then s'
      else WithSlot(s'.(cameras := s.cameras - {c}, slotOf := s.slotOf - {c}), slot,
                    before.(state := ClosingBegun(before.state, c), outbox := before.outbox + multiset{Teardown(c)}))
  }

  /** One step of the running task; `ok` is the outcome of whatever foreign call it makes. */
  function Advanced(r: Rec, ok: bool): Rec
    requires r.running.Some?
  {
    var task, pc := r.running.value.task, r.running.value.pc;
    var next, done := r.(running := Some(Running(task, pc + 1))), r.(running := None);
    match task
    case Register(c) =>
      if pc == 0 then (if Owning(r.state, c) then next else done)
      else done.(native := r.native + [Registered(c)])
    case Recover(c) =>
      if pc == 0 then (if ok && Owning(r.state, c) then next else done)
      else done.(native := r.native + [Registered(c)])
    case Teardown(c) =>
      if pc == 0 then next.(native := r.native + [Removed(c)])
      else if pc < 3 then next // releaseSurface, then camera.close
      else done.(state := CloseFinished(r.state, c))
    case Open(c, number, named) =>
      if pc == 0 then (if EventCurrent(r.state, c, number) && ok then next else done)
      else if pc == 1 then (if EventCurrent(r.state, c, number) then next else done)
      else done.(callbacks := r.callbacks + [Callback(c, named)])
    case Shut(c, number, named) =>
      if pc == 0 then (if EventCurrent(r.state, c, number) && ok then next else done)
      else done.(callbacks := r.callbacks + [Callback(c, named)])
  }

  /** The camera whose close() this step calls, if it is that step of a teardown. */
  function Closing(r: Rec): Option<int> {
    if r.running.Some? && r.running.value.task.Teardown? && r.running.value.pc == 2 then Some(r.running.value.task.camera) else None
  }

  function EventTaken(r: Rec, named: int, e: Event): Rec {
    match CurrentOwner(r.state)
    case None => r
    case Some(c) =>
      if c != named || !AcceptsConfiguration(r.state, c, e.connection, e.token, e.closed) then r
      else
        var state := ConfigurationTaken(r.state, c, e.connection, e.token, e.closed);
        r.(state := state,
           outbox := r.outbox + multiset{if e.closed then Shut(c, state.event, named) else Open(c, state.event, named)})
  }

  function Effect(s: Svc, step: Step): (s': Svc)
    requires |s.slots| == MAX_SLOTS && Enabled(s, step)
    ensures |s'.slots| == MAX_SLOTS
  {
    match step
    case Link => s.(nextId := s.nextId + 1, linked := s.linked + {s.nextId})
    case Die(c) => s.(dead := s.dead + {c}, dying := s.dying + {c})
    case Place(c, max) => Placed(s, c, max)
    case Refuse(c) => s.(linked := s.linked - {c})
    case Lookup(op, c, death) => LookedUp(s, op, c, death)
    case Take(op) => Taken(s, op)
    case CloseDirect(c) => s.(unclosed := s.unclosed - multiset{c}, closes := s.closes + multiset{c})
    case Submit(slot, task) =>
      var r := s.slots[slot];
      WithSlot(s, slot, r.(outbox := r.outbox - multiset{task}, queue := r.queue + [task]))
    case Start(slot) =>
      var r := s.slots[slot];
      WithSlot(s, slot, r.(queue := r.queue[1..], running := Some(Running(r.queue[0], 0))))
    case Advance(slot, ok) =>
      var r := s.slots[slot];
      WithSlot(s.(closes := if Closing(r).Some? then s.closes + multiset{Closing(r).value} else s.closes), slot, Advanced(r, ok))
    case HalEvent(slot, named, event) => WithSlot(s, slot, EventTaken(s.slots[slot], named, event))
    case RecoverSlot(slot) =>
      var r := s.slots[slot];
      (match CurrentOwner(r.state)
       case None => s
       case Some(c) => WithSlot(s, slot, r.(outbox := r.outbox + multiset{Recover(c)})))
  }

  ghost predicate Next(s: Svc, s': Svc)
    requires |s.slots| == MAX_SLOTS
  {
    exists step :: Enabled(s, step) && s' == Effect(s, step)
  }

  ghost predicate Run(run: seq<Svc>) {
    run != [] && run[0] == INITIAL && (forall i :: 0 <= i < |run| ==> |run[i].slots| == MAX_SLOTS) &&
    forall i :: 0 <= i < |run| - 1 ==> Next(run[i], run[i + 1])
  }

  // ---------------------------------------------------------------- what every state keeps

  /** A registration that no removal has followed yet. */
  ghost predicate Outstanding(log: seq<Call>, c: int) {
    exists a :: 0 <= a < |log| && log[a] == Registered(c) && forall m :: a < m < |log| ==> log[m] != Removed(c)
  }

  /** Between registrations of two different owners the first one's removal was made. */
  ghost predicate OneOwnerAtATime(log: seq<Call>) {
    forall a, b :: 0 <= a < b < |log| && log[a].Registered? && log[b].Registered? && log[a].camera != log[b].camera ==>
      RemovedBetween(log, a, b)
  }

  ghost predicate RemovedBetween(log: seq<Call>, a: nat, b: nat)
    requires a < b < |log|
  {
    exists m :: a < m < b && log[m] == Removed(log[a].camera)
  }

  function RunningTask(r: Rec): multiset<Task> {
    if r.running.Some? then multiset{r.running.value.task} else multiset{}
  }

  function Pending(r: Rec): multiset<Task> {
    r.outbox + multiset(r.queue) + RunningTask(r)
  }

  predicate Past(r: Rec, task: Task, pc: nat) {
    r.running.Some? && r.running.value.task == task && r.running.value.pc >= pc
  }

  /** A teardown is under way exactly for the owner that is closing, and only one. */
  ghost predicate OneTeardown(r: Rec) {
    forall c :: Pending(r)[Teardown(c)] == if r.state.owner == Some(c) && r.state.closing then 1 else 0
  }

  ghost predicate NativeInv(r: Rec) {
    OneOwnerAtATime(r.native) &&
    forall c :: Outstanding(r.native, c) ==> r.state.owner == Some(c) && !Past(r, Teardown(c), 1)
  }

  /** A task past its check still has its camera as the slot's owner. */
  ghost predicate CheckedOwner(r: Rec) {
    r.running.Some? && r.running.value.pc >= 1 ==> r.state.owner == Some(r.running.value.task.camera)
  }

  ghost predicate EventsNamed(r: Rec) {
    && (forall t :: t in Pending(r) && (t.Open? || t.Shut?) ==> t.camera == t.named)
    && (forall i :: 0 <= i < |r.callbacks| ==> r.callbacks[i].camera == r.callbacks[i].named)
  }

  ghost predicate RecInv(r: Rec) {
    (r.state.closing ==> r.state.owner.Some?) && OneTeardown(r) && NativeInv(r) && CheckedOwner(r) && EventsNamed(r)
  }

  predicate Closed(s: Svc, c: int)
    requires c in s.home && s.home[c] < |s.slots|
  {
    s.slots[s.home[c]].state.owner != Some(c) || Past(s.slots[s.home[c]], Teardown(c), 3)
  }

  /** A camera that got a slot is registered exactly while it owns it, and is closed once. */
  ghost predicate CameraInv(s: Svc, c: int)
    requires |s.slots| == MAX_SLOTS && c in s.home
  {
    && s.home[c] < MAX_SLOTS && FIRST_ID <= c < s.nextId && c !in s.linked
    && (c in s.cameras <==> Owning(s.slots[s.home[c]].state, c))
    && (c in s.cameras <==> c in s.slotOf) && (c in s.slotOf ==> s.slotOf[c] == s.home[c])
    && s.closes[c] == if Closed(s, c) then 1 else 0
  }

  ghost predicate OwnersAtHome(s: Svc)
    requires |s.slots| == MAX_SLOTS
  {
    forall slot: nat :: slot < MAX_SLOTS && s.slots[slot].state.owner.Some? ==>
      var c := s.slots[slot].state.owner.value; c in s.home && s.home[c] == slot
  }

  ghost predicate RemovalInv(s: Svc, r: Removal) {
    r.camera !in s.linked && FIRST_ID <= r.camera < s.nextId &&
    (if r.slot.Some? then r.camera in s.home && s.home[r.camera] == r.slot.value else r.camera !in s.home)
  }

  ghost predicate IdsInv(s: Svc) {
    && (forall c :: c in s.cameras ==> FIRST_ID <= c < s.nextId)
    && (forall c :: c in s.linked ==> FIRST_ID <= c < s.nextId)
    && s.cameras !! s.linked
    && FIRST_ID <= s.nextId
    && s.slotOf.Keys <= s.home.Keys
    && (forall c :: c in s.closes ==> c !in s.linked && FIRST_ID <= c < s.nextId)
    && (forall c :: c in s.unclosed ==> c !in s.home && c !in s.linked && FIRST_ID <= c < s.nextId)
  }

  /** Once a producer's death is handled it is not registered, and never will be. */
  ghost predicate DeathsHandled(s: Svc) {
    s.handled <= s.dead && s.handled !! s.cameras && s.dying <= s.dead &&
    forall op :: op in s.removals && s.removals[op].death ==> s.removals[op].camera in s.dead
  }

  ghost predicate Inv(s: Svc)
    requires |s.slots| == MAX_SLOTS
  {
    && (forall slot: nat :: slot < MAX_SLOTS ==> RecInv(s.slots[slot]))
    && OwnersAtHome(s)
    && (forall c :: c in s.home ==> CameraInv(s, c))
    && (forall op :: op in s.removals ==> RemovalInv(s, s.removals[op]))
    && IdsInv(s) && DeathsHandled(s)
  }
}
