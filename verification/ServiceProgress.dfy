/** What becomes of the tasks of the platform service: every decision queues its task, and a task
    ends only with its work done or with its grounds for dropping it. */
module ServiceProgress {
  import opened Wrappers
  import opened Lifecycle
  import opened ServiceSpec
  import opened Service
  import opened ServiceHistory

  // ---------------------------------------------------------------- what queues a task

  predicate LowestFree(slots: seq<Rec>, slot: nat, max: nat)
    requires max <= |slots|
  {
    slot < max && slots[slot].state.owner.None? && forall i :: 0 <= i < slot ==> slots[i].state.owner.Some?
  }

  /** A decision that is followed by task t on the slot's queue: a camera placed there is
      registered, one taken away is torn down, a later event of the current camera is passed on,
      and a recovery registers the current camera again. */
  predicate AsksFor(s: Svc, step: Step, slot: nat, t: Task)
    requires |s.slots| == MAX_SLOTS && Enabled(s, step) && slot < MAX_SLOTS
  {
    var state := s.slots[slot].state;
    match step
    case Place(c, max) => t == Register(c) && LowestFree(s.slots, slot, max)
    case Take(op) =>
      var r := s.removals[op];
      r.slot == Some(slot) && r.camera in s.cameras && CurrentOwner(state) == Some(r.camera) && t == Teardown(r.camera)
    case HalEvent(at, named, e) =>
      && at == slot && CurrentOwner(state) == Some(named) && e.connection != 0 && e.token > 0 && Later(Last(state), e)
      && t == if e.closed then Shut(named, state.event + 1, named) else Open(named, state.event + 1, named)
    case RecoverSlot(at) => at == slot && CurrentOwner(state).Some? && t == ServiceSpec.Recover(CurrentOwner(state).value)
    case _ => false
  }

  /** The step on which the running task t leaves the executor. */
  predicate Ends(s: Svc, step: Step, slot: nat, t: Task)
    requires |s.slots| == MAX_SLOTS && Enabled(s, step) && slot < MAX_SLOTS
  {
    && step.Advance? && step.slot == slot && s.slots[slot].running.value.task == t
    && Effect(s, step).slots[slot].running.None?
  }

  lemma FreeSlotIsLowest(slots: seq<Rec>, from: nat, max: nat)
    requires max <= |slots| && forall i :: 0 <= i < from && i < max ==> slots[i].state.owner.Some?
    ensures match FreeSlot(slots, from, max)
            case Some(slot) => LowestFree(slots, slot, max)
            case None => forall slot: nat :: !LowestFree(slots, slot, max)
    decreases max - from
  {
    if from < max && slots[from].state.owner.Some? {
      FreeSlotIsLowest(slots, from + 1, max);
    }
  }

  lemma PendingPlus(r: Rec, r': Rec, t: Task, task: Task)
    requires r'.outbox == r.outbox + multiset{task} && r'.queue == r.queue && r'.running == r.running
    ensures Pending(r')[t] == Pending(r)[t] + Count(t == task)
  {
  }

  lemma PendingSame(r: Rec, r': Rec)
    requires r'.outbox == r.outbox && r'.queue == r.queue && r'.running == r.running
    ensures Pending(r') == Pending(r)
  {
  }

  lemma AdvanceBalance(r: Rec, ok: bool, t: Task)
    requires r.running.Some?
    ensures Pending(Advanced(r, ok))[t] == Pending(r)[t] - Count(Advanced(r, ok).running.None? && r.running.value.task == t)
  {
    hide Pending, EventCurrent, Owning, CloseFinished;
    var r' := Advanced(r, ok);
    TaskGone(r, r', t);
  }

  lemma TaskGone(r: Rec, r': Rec, t: Task)
    requires r.running.Some? && r'.outbox == r.outbox && r'.queue == r.queue
    requires RunningTask(r') == RunningTask(r) || r'.running == None
    ensures Pending(r')[t] == Pending(r)[t] - Count(r'.running.None? && r.running.value.task == t)
  {
  }

  lemma SubmitMoves(r: Rec, task: Task)
    requires task in r.outbox
    ensures Pending(r.(outbox := r.outbox - multiset{task}, queue := r.queue + [task])) == Pending(r)
  {
  }

  lemma StartMoves(r: Rec)
    requires r.running.None? && r.queue != []
    ensures Pending(r.(queue := r.queue[1..], running := Some(Running(r.queue[0], 0)))) == Pending(r)
  {
    assert r.queue == [r.queue[0]] + r.queue[1..];
  }

  lemma EventBalance(r: Rec, named: int, e: Event, t: Task)
    ensures var asked := CurrentOwner(r.state) == Some(named) && e.connection != 0 && e.token > 0 && Later(Last(r.state), e) &&
                         t == if e.closed then Shut(named, r.state.event + 1, named) else Open(named, r.state.event + 1, named);
            Pending(ServiceSpec.EventTaken(r, named, e))[t] == Pending(r)[t] + Count(asked)
  {
    AcceptsExactlyLater(r.state, named, e);
    var r' := ServiceSpec.EventTaken(r, named, e);
    if CurrentOwner(r.state) == Some(named) && AcceptsConfiguration(r.state, named, e.connection, e.token, e.closed) {
      PendingPlus(r, r', t, if e.closed then Shut(named, r.state.event + 1, named) else Open(named, r.state.event + 1, named));
    } else {
      assert r' == r;
    }
  }

  lemma PlaceBalance(s: Svc, c: int, max: nat, slot: nat, t: Task)
    requires |s.slots| == MAX_SLOTS && Enabled(s, Place(c, max)) && slot < MAX_SLOTS
    ensures Pending(Placed(s, c, max).slots[slot])[t] == Pending(s.slots[slot])[t] + Count(t == Register(c) && LowestFree(s.slots, slot, max))
  {
    hide FreeSlot, Pending;
    FreeSlotIsLowest(s.slots, 0, max);
    var r, r' := s.slots[slot], Placed(s, c, max).slots[slot];
    if FreeSlot(s.slots, 0, max) == Some(slot) {
      PendingPlus(r, r', t, Register(c));
    } else {
      assert r' == r;
    }
  }

  lemma TakeBalance(s: Svc, op: nat, slot: nat, t: Task)
    requires |s.slots| == MAX_SLOTS && Enabled(s, Take(op)) && slot < MAX_SLOTS
    ensures Pending(Taken(s, op).slots[slot])[t] == Pending(s.slots[slot])[t] + Count(AsksFor(s, Take(op), slot, t))
  {
    hide Pending;
    var r, r' := s.slots[slot], Taken(s, op).slots[slot];
    var removal := s.removals[op];
    if removal.slot == Some(slot) && removal.camera in s.cameras && Owning(r.state, removal.camera) {
      PendingPlus(r, r', t, Teardown(removal.camera));
    } else {
      assert r' == r;
    }
  }

  lemma RecoverBalance(s: Svc, slot: nat, t: Task)
    requires |s.slots| == MAX_SLOTS && slot < MAX_SLOTS
    ensures Pending(Effect(s, RecoverSlot(slot)).slots[slot])[t] == Pending(s.slots[slot])[t] + Count(AsksFor(s, RecoverSlot(slot), slot, t))
  {
    hide Pending;
    var r, r' := s.slots[slot], Effect(s, RecoverSlot(slot)).slots[slot];
    if CurrentOwner(r.state).Some? {
      PendingPlus(r, r', t, ServiceSpec.Recover(CurrentOwner(r.state).value));
    }
  }

  /** A task is pending once more for every decision that asks for it and once less for every end. */
  lemma StepBalance(s: Svc, step: Step, slot: nat, t: Task)
    requires |s.slots| == MAX_SLOTS && Enabled(s, step) && slot < MAX_SLOTS
    ensures Pending(Effect(s, step).slots[slot])[t] == Pending(s.slots[slot])[t] + Count(AsksFor(s, step, slot, t)) - Count(Ends(s, step, slot, t))
  {
    hide Pending, Taken, Placed, Advanced, ServiceSpec.EventTaken, FreeSlot;
    if step.Advance? {
      if step.slot == slot {
        AdvanceBalance(s.slots[slot], step.ok, t);
      }
    } else if step.Submit? || step.Start? {
      MovesBalance(s, step, slot, t);
    } else {
      AskingBalance(s, step, slot, t);
      hide Effect, AsksFor;
    }
  }

  lemma MovesBalance(s: Svc, step: Step, slot: nat, t: Task)
    requires |s.slots| == MAX_SLOTS && Enabled(s, step) && slot < MAX_SLOTS && (step.Submit? || step.Start?)
    ensures Pending(Effect(s, step).slots[slot]) == Pending(s.slots[slot])
  {
    hide Pending;
    if step.slot == slot {
      if step.Submit? {
        SubmitMoves(s.slots[slot], step.task);
      } else {
        StartMoves(s.slots[slot]);
      }
    }
  }

  lemma AskingBalance(s: Svc, step: Step, slot: nat, t: Task)
    requires |s.slots| == MAX_SLOTS && Enabled(s, step) && slot < MAX_SLOTS && !step.Advance? && !step.Submit? && !step.Start?
    ensures Pending(Effect(s, step).slots[slot])[t] == Pending(s.slots[slot])[t] + Count(AsksFor(s, step, slot, t))
  {
    hide Pending, Taken, Placed, Advanced, ServiceSpec.EventTaken, FreeSlot;
    match step
    case Place(c, max) => PlaceBalance(s, c, max, slot, t);
    case Take(op) => TakeBalance(s, op, slot, t);
    case HalEvent(at, named, event) => if at == slot { EventBalance(s.slots[slot], named, event, t); }
    case RecoverSlot(at) => if at == slot { RecoverBalance(s, slot, t); }
    case _ =>
  }

  function Asked(run: seq<Svc>, steps: seq<Step>, n: nat, slot: nat, t: Task): nat
    requires Played(run, steps) && n <= |steps| && slot < MAX_SLOTS
  {
    if n == 0 then 0 else Asked(run, steps, n - 1, slot, t) + Count(AsksFor(run[n - 1], steps[n - 1], slot, t))
  }

  function Ended(run: seq<Svc>, steps: seq<Step>, n: nat, slot: nat, t: Task): nat
    requires Played(run, steps) && n <= |steps| && slot < MAX_SLOTS
  {
    if n == 0 then 0 else Ended(run, steps, n - 1, slot, t) + Count(Ends(run[n - 1], steps[n - 1], slot, t))
  }

  /** No task is lost and none comes from nowhere. */
  lemma {:induction false} TasksBalance(run: seq<Svc>, steps: seq<Step>, n: nat, slot: nat, t: Task)
    requires Played(run, steps) && n <= |steps| && slot < MAX_SLOTS
    ensures Asked(run, steps, n, slot, t) == Pending(run[n].slots[slot])[t] + Ended(run, steps, n, slot, t)
  {
    if n == 0 {
      assert INITIAL.slots[slot] == EMPTY_REC;
    } else {
      hide Enabled, Effect, Pending, AsksFor, Ends;
      TasksBalance(run, steps, n - 1, slot, t);
      assert Enabled(run[n - 1], steps[n - 1]) && run[n - 1 + 1] == Effect(run[n - 1], steps[n - 1]);
      StepBalance(run[n - 1], steps[n - 1], slot, t);
    }
  }

  // ---------------------------------------------------------------- how a task ends

  /** What a task is for. A teardown has removed its camera natively before it frees the slot. */
  predicate Worked(r: Rec, r': Rec, t: Task) {
    match t
    case Register(c) => r'.native == r.native + [Registered(c)] && r'.callbacks == r.callbacks && r'.state == r.state
    case Recover(c) => r'.native == r.native + [Registered(c)] && r'.callbacks == r.callbacks && r'.state == r.state
    case Teardown(c) => Removed(c) in r.native && r'.native == r.native && r.state.owner == Some(c) && r'.state.owner.None?
    case Open(c, _, named) => r'.callbacks == r.callbacks + [Callback(c, named)] && r'.native == r.native && r'.state == r.state
    case Shut(c, _, named) => r'.callbacks == r.callbacks + [Callback(c, named)] && r'.native == r.native && r'.state == r.state
  }

  /** Why a task may be dropped: its camera is going, its event is stale, or a foreign call failed. */
  predicate Excused(r: Rec, r': Rec, t: Task, ok: bool) {
    && r'.native == r.native && r'.callbacks == r.callbacks && r'.state == r.state
    && match t
       case Register(c) => CurrentOwner(r.state) != Some(c)
       case Recover(c) => CurrentOwner(r.state) != Some(c) || !ok
       case Teardown(c) => false
       case Open(c, number, _) => !EventCurrent(r.state, c, number) || !ok
       case Shut(c, number, _) => !EventCurrent(r.state, c, number) || !ok
  }

  /** All checks passed: only the work itself is left. */
  predicate Committed(r: Rec) {
    r.running.Some? && r.running.value.pc > (if r.running.value.task.Open? then 1 else 0)
  }

  ghost predicate RemovedFirst(r: Rec) {
    r.running.Some? && r.running.value.task.Teardown? && r.running.value.pc >= 1 ==> Removed(r.running.value.task.camera) in r.native
  }

  /** A step of a running task ends it, with its work done or excused, or brings it forward. */
  lemma TaskStep(r: Rec, ok: bool)
    requires RecInv(r) && RemovedFirst(r) && r.running.Some?
    ensures var r', t := Advanced(r, ok), r.running.value.task;
            if r'.running.None? then Worked(r, r', t) || (Excused(r, r', t, ok) && !Committed(r))
            else r'.running == Some(Running(t, r.running.value.pc + 1)) && r.running.value.pc < 3 && r'.callbacks == r.callbacks
                 && r'.native == r.native + (if t.Teardown? && r.running.value.pc == 0 then [Removed(t.camera)] else [])
    ensures RemovedFirst(Advanced(r, ok))
  {
    if r.running.value.task.Teardown? {
      TeardownStep(r, ok);
    } else {
      OtherTaskStep(r, ok);
    }
    hide RecInv, Advanced, Worked, Excused;
  }

  lemma TeardownStep(r: Rec, ok: bool)
    requires RecInv(r) && RemovedFirst(r) && r.running.Some? && r.running.value.task.Teardown?
    ensures var r', t := Advanced(r, ok), r.running.value.task;
            if r'.running.None? then Worked(r, r', t)
            else r'.running == Some(Running(t, r.running.value.pc + 1)) && r.running.value.pc < 3 && r'.callbacks == r.callbacks
                 && r'.native == r.native + (if r.running.value.pc == 0 then [Removed(t.camera)] else [])
    ensures RemovedFirst(Advanced(r, ok))
  {
    hide NativeInv, EventsNamed;
    assert Pending(r)[r.running.value.task] >= 1;
    assert r.state.owner == Some(r.running.value.task.camera) && r.state.closing;
    hide RecInv, Pending;
  }

  lemma OtherTaskStep(r: Rec, ok: bool)
    requires r.running.Some? && !r.running.value.task.Teardown?
    ensures var r', t := Advanced(r, ok), r.running.value.task;
            if r'.running.None? then Worked(r, r', t) || (Excused(r, r', t, ok) && !Committed(r))
            else r'.running == Some(Running(t, r.running.value.pc + 1)) && r.running.value.pc < 3 && r'.callbacks == r.callbacks
                 && r'.native == r.native
    ensures RemovedFirst(Advanced(r, ok))
  {
    hide EventCurrent;
  }

  lemma OtherStepsQuiet(s: Svc, step: Step, slot: nat)
    requires |s.slots| == MAX_SLOTS && Enabled(s, step) && slot < MAX_SLOTS && !(step.Advance? && step.slot == slot)
    ensures var r, r' := s.slots[slot], Effect(s, step).slots[slot];
            && r'.native == r.native && r'.callbacks == r.callbacks
            && (r.running.Some? ==> r'.running == r.running)
            && (r.running.None? && r'.running.Some? ==> r'.running.value.pc == 0)
  {
    hide FreeSlot, Placed, Taken, Advanced, ServiceSpec.EventTaken, CurrentOwner, Owning;
    if step.HalEvent? && step.slot == slot {
      EventIsQuiet(s.slots[slot], step.named, step.event);
    } else if step.Place? {
      PlaceIsQuiet(s, step.camera, step.max, slot);
    } else if step.Take? {
      TakeIsQuiet(s, step.op, slot);
    }
  }

  ghost predicate Quiet(r: Rec, r': Rec) {
    r'.native == r.native && r'.callbacks == r.callbacks && r'.running == r.running && r'.queue == r.queue
  }

  lemma PlaceIsQuiet(s: Svc, c: int, max: nat, slot: nat)
    requires |s.slots| == MAX_SLOTS && max <= MAX_SLOTS && slot < MAX_SLOTS
    ensures Quiet(s.slots[slot], Placed(s, c, max).slots[slot])
  {
    hide FreeSlot;
  }

  lemma TakeIsQuiet(s: Svc, op: nat, slot: nat)
    requires |s.slots| == MAX_SLOTS && slot < MAX_SLOTS && Enabled(s, Take(op))
    ensures Quiet(s.slots[slot], Taken(s, op).slots[slot])
  {
    hide ClosingBegun, Owning;
  }

  lemma EventIsQuiet(r: Rec, named: int, e: Event)
    ensures var r' := ServiceSpec.EventTaken(r, named, e);
            r'.native == r.native && r'.callbacks == r.callbacks && r'.running == r.running
  {
  }

  lemma {:induction false} RunRemovesFirst(run: seq<Svc>, steps: seq<Step>, i: nat, slot: nat)
    requires Played(run, steps) && i < |run| && slot < MAX_SLOTS
    ensures Inv(run[i]) && RecInv(run[i].slots[slot]) && RemovedFirst(run[i].slots[slot])
  {
    hide Enabled, Effect, RecInv, RemovedFirst;
    PlayedInv(run, steps, i);
    hide Inv;
    if i == 0 {
      NoTaskYet(slot);
    } else {
      RunRemovesFirst(run, steps, i - 1, slot);
      assert Enabled(run[i - 1], steps[i - 1]) && run[i - 1 + 1] == Effect(run[i - 1], steps[i - 1]);
      RemovedFirstStep(run[i - 1], steps[i - 1], slot);
    }
  }

  lemma NoTaskYet(slot: nat)
    requires slot < MAX_SLOTS
    ensures RemovedFirst(INITIAL.slots[slot])
  {
  }

  lemma RemovedFirstStep(s: Svc, step: Step, slot: nat)
    requires |s.slots| == MAX_SLOTS && Enabled(s, step) && slot < MAX_SLOTS && RecInv(s.slots[slot]) && RemovedFirst(s.slots[slot])
    ensures RemovedFirst(Effect(s, step).slots[slot])
  {
    hide RecInv, Advanced;
    if step.Advance? && step.slot == slot {
      TaskStep(s.slots[slot], step.ok);
    } else {
      OtherStepsQuiet(s, step, slot);
      hide Effect;
    }
  }

  /** The step on which t ended, with its outcome. */
  ghost predicate EndedAt(run: seq<Svc>, steps: seq<Step>, m: nat, slot: nat, t: Task)
    requires Played(run, steps) && m < |steps| && slot < MAX_SLOTS
  {
    Ends(run[m], steps[m], slot, t) &&
    var r, r' := run[m].slots[slot], run[m + 1].slots[slot];
    Worked(r, r', t) || (Excused(r, r', t, steps[m].ok) && !Committed(r))
  }

  lemma EndHasOutcome(run: seq<Svc>, steps: seq<Step>, m: nat, slot: nat, t: Task)
    requires Played(run, steps) && m < |steps| && slot < MAX_SLOTS && Ends(run[m], steps[m], slot, t)
    ensures EndedAt(run, steps, m, slot, t)
  {
    hide RecInv, RemovedFirst, Advanced, Inv;
    RunRemovesFirst(run, steps, m, slot);
    TaskStep(run[m].slots[slot], steps[m].ok);
    assert run[m + 1] == Effect(run[m], steps[m]);
  }

  /** A pending task stays pending until it ends with its work done or excused. */
  lemma {:induction false} TaskIsAnswered(run: seq<Svc>, steps: seq<Step>, i: nat, j: nat, slot: nat, t: Task)
    requires Played(run, steps) && i <= j < |run| && slot < MAX_SLOTS && t in Pending(run[i].slots[slot])
    ensures t in Pending(run[j].slots[slot]) || exists m: nat :: i <= m < j && EndedAt(run, steps, m, slot, t)
    decreases j
  {
    hide Enabled, Effect, Pending, AsksFor, Ends, EndedAt;
    if i < j {
      TaskIsAnswered(run, steps, i, j - 1, slot, t);
      assert Enabled(run[j - 1], steps[j - 1]) && run[j - 1 + 1] == Effect(run[j - 1], steps[j - 1]);
      StepBalance(run[j - 1], steps[j - 1], slot, t);
      if Ends(run[j - 1], steps[j - 1], slot, t) {
        EndHasOutcome(run, steps, j - 1, slot, t);
        assert EndedAt(run, steps, j - 1, slot, t);
      }
    }
  }

  /** What asks for a task puts it on its way. */
  lemma AskedIsAnswered(run: seq<Svc>, steps: seq<Step>, i: nat, j: nat, slot: nat, t: Task)
    requires Played(run, steps) && i < j < |run| && slot < MAX_SLOTS && AsksFor(run[i], steps[i], slot, t)
    ensures t in Pending(run[j].slots[slot]) || exists m: nat :: i < m < j && EndedAt(run, steps, m, slot, t)
  {
    hide Enabled, Effect, Pending, EndedAt;
    assert Enabled(run[i], steps[i]) && run[i + 1] == Effect(run[i], steps[i]);
    StepBalance(run[i], steps[i], slot, t);
    hide AsksFor, Ends;
    TaskIsAnswered(run, steps, i + 1, j, slot, t);
    if m: nat :| i + 1 <= m < j && EndedAt(run, steps, m, slot, t) {
      assert i < m < j;
    }
  }

  /** A task that has passed its checks does its work whatever happens meanwhile. */
  lemma {:induction false} CommittedDoesItsWork(run: seq<Svc>, steps: seq<Step>, i: nat, j: nat, slot: nat)
    requires Played(run, steps) && i <= j < |run| && slot < MAX_SLOTS && Committed(run[i].slots[slot])
    ensures var t := run[i].slots[slot].running.value.task;
            || (Committed(run[j].slots[slot]) && run[j].slots[slot].running.value.task == t)
            || exists m: nat :: i <= m < j && Worked(run[m].slots[slot], run[m + 1].slots[slot], t)
    decreases j
  {
    hide Enabled, Effect, Worked, Inv, RecInv, RemovedFirst;
    var t := run[i].slots[slot].running.value.task;
    if i < j {
      CommittedDoesItsWork(run, steps, i, j - 1, slot);
      if Committed(run[j - 1].slots[slot]) && run[j - 1].slots[slot].running.value.task == t {
        RunRemovesFirst(run, steps, j - 1, slot);
        assert Enabled(run[j - 1], steps[j - 1]) && run[j - 1 + 1] == Effect(run[j - 1], steps[j - 1]);
        CommittedStep(run[j - 1], steps[j - 1], slot);
        assert Committed(run[j].slots[slot]) || Worked(run[j - 1].slots[slot], run[j - 1 + 1].slots[slot], t);
      }
    }
  }

  lemma CommittedStep(s: Svc, step: Step, slot: nat)
    requires |s.slots| == MAX_SLOTS && Enabled(s, step) && slot < MAX_SLOTS && Committed(s.slots[slot])
    requires RecInv(s.slots[slot]) && RemovedFirst(s.slots[slot])
    ensures var t, r' := s.slots[slot].running.value.task, Effect(s, step).slots[slot];
            (Committed(r') && r'.running.value.task == t) || Worked(s.slots[slot], r', t)
  {
    hide RecInv, Advanced, Worked;
    if step.Advance? && step.slot == slot {
      TaskStep(s.slots[slot], step.ok);
    } else {
      OtherStepsQuiet(s, step, slot);
      hide Effect;
    }
  }

  // ---------------------------------------------------------------- placed cameras are registered

  ghost predicate RegisteredOrDue(r: Rec, c: int) {
    CurrentOwner(r.state) == Some(c) ==> Register(c) in Pending(r) || Registered(c) in r.native
  }

  /** Only placing a camera makes it a slot's current owner. */
  lemma OwnerComesByPlacing(s: Svc, step: Step, slot: nat, c: int)
    requires |s.slots| == MAX_SLOTS && Enabled(s, step) && slot < MAX_SLOTS && RecInv(s.slots[slot])
    requires CurrentOwner(Effect(s, step).slots[slot].state) == Some(c) && CurrentOwner(s.slots[slot].state) != Some(c)
    ensures AsksFor(s, step, slot, Register(c))
  {
    if step.Place? {
      hide RecInv;
      PlacedOwner(s, step.camera, step.max, slot);
    } else {
      OtherStepsBringNoOwner(s, step, slot);
      hide Effect, RecInv;
    }
  }

  lemma PlacedOwner(s: Svc, c: int, max: nat, slot: nat)
    requires |s.slots| == MAX_SLOTS && max <= MAX_SLOTS && slot < MAX_SLOTS
    ensures Placed(s, c, max).slots[slot].state != s.slots[slot].state ==>
              LowestFree(s.slots, slot, max) && Placed(s, c, max).slots[slot].state == s.slots[slot].state.(owner := Some(c))
  {
    FreeSlotIsLowest(s.slots, 0, max);
    hide FreeSlot;
  }

  lemma OtherStepsBringNoOwner(s: Svc, step: Step, slot: nat)
    requires |s.slots| == MAX_SLOTS && Enabled(s, step) && slot < MAX_SLOTS && !step.Place?
    requires CurrentOwner(Effect(s, step).slots[slot].state).Some?
    ensures CurrentOwner(Effect(s, step).slots[slot].state) == CurrentOwner(s.slots[slot].state)
  {
    hide FreeSlot, Advanced, ServiceSpec.EventTaken, CurrentOwner, ClosingBegun;
    var r := s.slots[slot];
    match step
    case Advance(at, ok) => if at == slot { NoNewOwner(r, ok); }
    case HalEvent(at, named, e) => if at == slot { EventKeepsOwner(r, named, e); }
    case Take(op) => ClosingHasNoOwner(r.state, s.removals[op].camera);
    case _ =>
  }

  lemma ClosingHasNoOwner(state: SlotState<int>, c: int)
    ensures CurrentOwner(ClosingBegun(state, c)).Some? ==> CurrentOwner(ClosingBegun(state, c)) == CurrentOwner(state)
  {
  }

  lemma NoNewOwner(r: Rec, ok: bool)
    requires r.running.Some? && CurrentOwner(Advanced(r, ok).state).Some?
    ensures CurrentOwner(Advanced(r, ok).state) == CurrentOwner(r.state)
  {
  }

  lemma EventKeepsOwner(r: Rec, named: int, e: Event)
    ensures CurrentOwner(ServiceSpec.EventTaken(r, named, e).state) == CurrentOwner(r.state)
  {
  }

  lemma NativeGrows(s: Svc, step: Step, slot: nat, call: Call)
    requires |s.slots| == MAX_SLOTS && Enabled(s, step) && slot < MAX_SLOTS && call in s.slots[slot].native
    ensures call in Effect(s, step).slots[slot].native
  {
    if !(step.Advance? && step.slot == slot) {
      OtherStepsQuiet(s, step, slot);
      hide Effect;
    }
  }

  /** The camera that owns a slot has been registered natively or is about to be. */
  lemma {:induction false} OwnerIsRegistered(run: seq<Svc>, steps: seq<Step>, i: nat, slot: nat, c: int)
    requires Played(run, steps) && i < |run| && slot < MAX_SLOTS
    ensures RegisteredOrDue(run[i].slots[slot], c)
  {
    if i == 0 {
      assert INITIAL.slots[slot] == EMPTY_REC;
    } else {
      OwnerIsRegistered(run, steps, i - 1, slot, c);
      RunRemovesFirst(run, steps, i - 1, slot);
      assert Enabled(run[i - 1], steps[i - 1]) && run[i - 1 + 1] == Effect(run[i - 1], steps[i - 1]);
      hide Enabled, Effect, Pending, AsksFor, Ends, RecInv, Inv, RemovedFirst;
      RegistrationStep(run, steps, i - 1, slot, c);
    }
  }

  lemma RegistrationStep(run: seq<Svc>, steps: seq<Step>, m: nat, slot: nat, c: int)
    requires Played(run, steps) && m < |steps| && slot < MAX_SLOTS && RegisteredOrDue(run[m].slots[slot], c)
    ensures RegisteredOrDue(run[m + 1].slots[slot], c)
  {
    RunRemovesFirst(run, steps, m, slot);
    assert Enabled(run[m], steps[m]) && run[m + 1] == Effect(run[m], steps[m]);
    hide Enabled, Effect, Pending, AsksFor, Ends, RecInv, Inv, RemovedFirst;
    var s, step := run[m], steps[m];
    if CurrentOwner(run[m + 1].slots[slot].state) == Some(c) {
      StepBalance(s, step, slot, Register(c));
      if CurrentOwner(s.slots[slot].state) != Some(c) {
        OwnerComesByPlacing(s, step, slot, c);
        PlacingEndsNothing(s, step, slot, Register(c));
      } else if Registered(c) in s.slots[slot].native {
        NativeGrows(s, step, slot, Registered(c));
      } else if Ends(s, step, slot, Register(c)) {
        EndHasOutcome(run, steps, m, slot, Register(c));
      }
    }
  }

  lemma PlacingEndsNothing(s: Svc, step: Step, slot: nat, t: Task)
    requires |s.slots| == MAX_SLOTS && Enabled(s, step) && slot < MAX_SLOTS && AsksFor(s, step, slot, t)
    ensures !Ends(s, step, slot, t)
  {
  }

  // ---------------------------------------------------------------- the queues are first in, first out

  function Started(run: seq<Svc>, steps: seq<Step>, n: nat, slot: nat): seq<Task>
    requires Played(run, steps) && n <= |steps| && slot < MAX_SLOTS
  {
    if n == 0 then []
    else
      var before := Started(run, steps, n - 1, slot);
      if steps[n - 1] == Start(slot) then before + [run[n].slots[slot].running.value.task] else before
  }

  function Submitted(run: seq<Svc>, steps: seq<Step>, n: nat, slot: nat): seq<Task>
    requires Played(run, steps) && n <= |steps| && slot < MAX_SLOTS
  {
    if n == 0 then []
    else
      var before := Submitted(run, steps, n - 1, slot);
      if steps[n - 1].Submit? && steps[n - 1].slot == slot then before + [steps[n - 1].task] else before
  }

  lemma QueueStep(s: Svc, step: Step, slot: nat)
    requires |s.slots| == MAX_SLOTS && Enabled(s, step) && slot < MAX_SLOTS
    ensures var q, r' := s.slots[slot].queue, Effect(s, step).slots[slot];
            if step == Start(slot) then r'.running.Some? && q == [r'.running.value.task] + r'.queue
            else r'.queue == if step.Submit? && step.slot == slot then q + [step.task] else q
  {
    hide FreeSlot, Placed, Taken, ServiceSpec.EventTaken, Advanced, CurrentOwner, Owning;
    if step.Advance? && step.slot == slot {
      AdvanceKeepsQueue(s.slots[slot], step.ok);
    } else if step.HalEvent? && step.slot == slot {
      EventKeepsQueue(s.slots[slot], step.named, step.event);
    } else if step.Place? {
      PlaceIsQuiet(s, step.camera, step.max, slot);
    } else if step.Take? {
      TakeIsQuiet(s, step.op, slot);
    }
  }

  lemma AdvanceKeepsQueue(r: Rec, ok: bool)
    requires r.running.Some?
    ensures Advanced(r, ok).queue == r.queue
  {
  }

  lemma EventKeepsQueue(r: Rec, named: int, e: Event)
    ensures ServiceSpec.EventTaken(r, named, e).queue == r.queue
  {
  }

  /** Tasks start in the order in which they were handed to the slot's executor. */
  lemma {:induction false} FirstInFirstOut(run: seq<Svc>, steps: seq<Step>, n: nat, slot: nat)
    requires Played(run, steps) && n <= |steps| && slot < MAX_SLOTS
    ensures Submitted(run, steps, n, slot) == Started(run, steps, n, slot) + run[n].slots[slot].queue
  {
    if n == 0 {
      assert INITIAL.slots[slot] == EMPTY_REC;
    } else {
      hide Enabled, Effect;
      FirstInFirstOut(run, steps, n - 1, slot);
      assert Enabled(run[n - 1], steps[n - 1]) && run[n - 1 + 1] == Effect(run[n - 1], steps[n - 1]);
      QueueStep(run[n - 1], steps[n - 1], slot);
    }
  }

  // ---------------------------------------------------------------- registrations and removals

  /** A camera placed is registered, and at home in the lowest free slot if there is one. */
  lemma PlacedIsRegistered(s: Svc, c: int, max: nat, slot: nat)
    requires |s.slots| == MAX_SLOTS && Enabled(s, Place(c, max))
    ensures var s' := Effect(s, Place(c, max));
            && c in s'.cameras && c !in s'.linked && s'.cameras == s.cameras + {c}
            && (LowestFree(s.slots, slot, max) ==> s'.home == s.home[c := slot] && s'.slotOf == s.slotOf[c := slot]
                                                    && s'.slots[slot].state == s.slots[slot].state.(owner := Some(c)))
            && ((forall i: nat :: !LowestFree(s.slots, i, max)) ==> s'.home == s.home && s'.slots == s.slots)
  {
    FreeSlotIsLowest(s.slots, 0, max);
    hide FreeSlot;
  }

  /** A removal finds every registered camera, and its slot if it has one. */
  lemma RemovalFinds(run: seq<Svc>, i: nat, op: nat, c: int, death: bool)
    requires Run(run) && i < |run| && Enabled(run[i], Lookup(op, c, death)) && c in run[i].cameras
    ensures var s, s' := run[i], Effect(run[i], Lookup(op, c, death));
            && s'.removals == s.removals[op := Removal(c, if c in s.home then Some(s.home[c]) else None, death)]
            && s'.cameras == s.cameras && s'.slots == s.slots
  {
    RunInv(run, i);
    if c in run[i].home {
      assert CameraInv(run[i], c);
    }
  }

  /** The section of a removal, or the look that finds nothing, with which a death is dealt with. */
  predicate HandlesDeath(s: Svc, step: Step, c: int)
    requires |s.slots| == MAX_SLOTS && Enabled(s, step)
  {
    match step
    case Lookup(_, camera, death) => death && camera == c && c !in s.cameras
    case Take(op) => s.removals[op].death && s.removals[op].camera == c
    case _ => false
  }

  /** Once a producer's death has been dealt with it is registered in no later state. */
  lemma DeathEndsRegistration(run: seq<Svc>, steps: seq<Step>, i: nat, j: nat, c: int)
    requires Played(run, steps) && i < j < |run| && HandlesDeath(run[i], steps[i], c)
    ensures c !in run[j].cameras
  {
    assert run[i + 1] == Effect(run[i], steps[i]);
    HandlingShows(run[i], steps[i], c);
    hide Enabled, Effect, Next;
    PlayedIsRun(run, steps);
    DeadStaysAway(run, i + 1, j, c);
  }

  lemma HandlingShows(s: Svc, step: Step, c: int)
    requires |s.slots| == MAX_SLOTS && Enabled(s, step) && HandlesDeath(s, step, c)
    ensures c in Effect(s, step).handled
  {
  }

  lemma {:induction false} DeadForGood(run: seq<Svc>, steps: seq<Step>, i: nat, j: nat, c: int)
    requires Played(run, steps) && i <= j < |run| && c in run[i].dead
    ensures c in run[j].dead
    decreases j
  {
    hide Enabled, Effect;
    if i < j {
      DeadForGood(run, steps, i, j - 1, c);
      assert Enabled(run[j - 1], steps[j - 1]) && run[j - 1 + 1] == Effect(run[j - 1], steps[j - 1]);
      StaysDead(run[j - 1], steps[j - 1], c);
    }
  }

  lemma StaysDead(s: Svc, step: Step, c: int)
    requires |s.slots| == MAX_SLOTS && Enabled(s, step) && c in s.dead
    ensures c in Effect(s, step).dead
  {
  }

  /** A death is noticed: its handler may run, and its camera is placed in no later state. */
  lemma DeathIsNoticed(run: seq<Svc>, steps: seq<Step>, i: nat, j: nat, c: int, op: nat, max: nat)
    requires Played(run, steps) && i < j < |run| && steps[i] == Die(c) && op !in run[i].removals
    ensures Enabled(run[i + 1], Lookup(op, c, true)) && !Enabled(run[j], Place(c, max))
  {
    assert Enabled(run[i], steps[i]) && run[i + 1] == Effect(run[i], steps[i]);
    assert c in run[i + 1].dead && c in run[i + 1].dying;
    DeadForGood(run, steps, i + 1, j, c);
  }
}
