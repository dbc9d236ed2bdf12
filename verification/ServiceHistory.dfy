/** What the history of a service run says: which check lay behind a producer callback, and how
    often a camera that never got a slot is closed. */
module ServiceHistory {
  import opened Wrappers
  import opened Lifecycle
  import opened ServiceSpec
  import opened Service

  // ---------------------------------------------------------------- callbacks and their checks

  predicate CallsBack(task: Task) {
    task.Open? || task.Shut?
  }

  /** The program counter of the last check before the callback. */
  function LastCheck(task: Task): nat {
    if task.Open? then 1 else 0
  }

  predicate Cleared(r: Rec) {
    r.running.Some? && CallsBack(r.running.value.task) && r.running.value.pc > LastCheck(r.running.value.task)
  }

  /** The task is at its last check and its event is the slot's current one. */
  predicate PassesCheck(r: Rec, task: Task) {
    CallsBack(task) && r.running == Some(Running(task, LastCheck(task))) && EventCurrent(r.state, task.camera, task.number)
  }

  /** At j the task passed its last check, and it has been the running one ever since. */
  ghost predicate Checked(run: seq<Svc>, j: nat, i: nat, slot: nat, task: Task)
    requires j < i < |run| && slot < MAX_SLOTS && forall k :: 0 <= k < |run| ==> |run[k].slots| == MAX_SLOTS
  {
    && PassesCheck(run[j].slots[slot], task)
    && forall k :: j < k <= i ==> run[k].slots[slot].running == Some(Running(task, LastCheck(task) + 1))
  }

  /** Only a passed check clears a task. */
  lemma ClearedByCheck(s: Svc, step: Step, slot: nat)
    requires |s.slots| == MAX_SLOTS && Enabled(s, step) && slot < MAX_SLOTS && Cleared(Effect(s, step).slots[slot])
    ensures var r, r' := s.slots[slot], Effect(s, step).slots[slot];
            var task := r'.running.value.task;
            || r'.running == r.running
            || (PassesCheck(r, task) && r'.running == Some(Running(task, LastCheck(task) + 1)))
  {
    hide Cleared, Advanced, FreeSlot, Lifecycle.Reserved, ClosingBegun, ServiceSpec.EventTaken, CurrentOwner, EventCurrent, Owning;
    var r, r' := s.slots[slot], Effect(s, step).slots[slot];
    if step.HalEvent? {
      EventKeepsRunning(r, step.named, step.event);
    }
    if r'.running != r.running {
      if r.running.Some? {
        assert step.Advance?;
        AdvanceClears(r, step.ok);
      } else {
        StartsAtZero(r');
      }
    }
  }

  lemma EventKeepsRunning(r: Rec, named: int, e: Event)
    ensures ServiceSpec.EventTaken(r, named, e).running == r.running
  {
  }

  lemma StartsAtZero(r: Rec)
    requires r.running.Some? && r.running.value.pc == 0
    ensures !Cleared(r)
  {
  }

  lemma AdvanceClears(r: Rec, ok: bool)
    requires r.running.Some? && Cleared(Advanced(r, ok))
    ensures var r' := Advanced(r, ok);
            r'.running == r.running ||
            (PassesCheck(r, r'.running.value.task) && r'.running == Some(Running(r'.running.value.task, LastCheck(r'.running.value.task) + 1)))
  {
  }

  lemma {:induction false} ClearedWasChecked(run: seq<Svc>, i: nat, slot: nat)
    requires Run(run) && i < |run| && slot < MAX_SLOTS && Cleared(run[i].slots[slot])
    ensures exists j: nat :: j < i && Checked(run, j, i, slot, run[i].slots[slot].running.value.task)
  {
    hide Enabled, Effect, PassesCheck;
    assert INITIAL.slots[slot] == EMPTY_REC;
    var r := run[i].slots[slot];
    var task := r.running.value.task;
    if i > 0 {
      assert Next(run[i - 1], run[i - 1 + 1]);
      var step :| Enabled(run[i - 1], step) && run[i] == Effect(run[i - 1], step);
      ClearedByCheck(run[i - 1], step, slot);
      if run[i - 1].slots[slot].running == r.running {
        ClearedWasChecked(run, i - 1, slot);
        var j: nat :| j < i - 1 && Checked(run, j, i - 1, slot, task);
        assert Checked(run, j, i, slot, task);
      } else {
        assert Checked(run, i - 1, i, slot, task);
      }
    }
  }

  /** Behind every producer callback lies an earlier moment at which the very task that makes it
      passed its last check, its event being current then. */
  lemma CallbackWasChecked(run: seq<Svc>, i: nat, slot: nat)
    requires Run(run) && i + 1 < |run| && slot < MAX_SLOTS
    requires |run[i + 1].slots[slot].callbacks| > |run[i].slots[slot].callbacks|
    ensures run[i].slots[slot].running.Some? && CallsBack(run[i].slots[slot].running.value.task)
    ensures var task := run[i].slots[slot].running.value.task;
            && run[i + 1].slots[slot].callbacks == run[i].slots[slot].callbacks + [Callback(task.camera, task.named)]
            && exists j: nat :: j < i && Checked(run, j, i, slot, task)
  {
    hide Enabled, Effect, Checked;
    assert Next(run[i], run[i + 1]);
    var step :| Enabled(run[i], step) && run[i + 1] == Effect(run[i], step);
    CallbackStep(run[i], step, slot);
    ClearedWasChecked(run, i, slot);
  }

  // ---------------------------------------------------------------- stale tasks

  /** The event of a pending task is the current one or has been overtaken. */
  predicate Overtaken(r: Rec, task: Task)
    requires CallsBack(task)
  {
    EventCurrent(r.state, task.camera, task.number) || task.number < r.state.event
  }

  ghost predicate Numbered(r: Rec) {
    forall t :: t in Pending(r) && CallsBack(t) ==> Overtaken(r, t)
  }

  ghost predicate NoNewTask(r: Rec, r': Rec) {
    forall t :: t in Pending(r') && CallsBack(t) ==> t in Pending(r)
  }

  /** What a step may do to a slot's event number. */
  ghost predicate EventsGoOn(r: Rec, r': Rec) {
    r'.state.event >= r.state.event &&
    (forall t :: CallsBack(t) && Overtaken(r, t) ==> Overtaken(r', t))
  }

  lemma StillNumbered(r: Rec, r': Rec)
    requires Numbered(r) && NoNewTask(r, r') && EventsGoOn(r, r')
    ensures Numbered(r')
  {
    hide Pending, Overtaken;
  }

  lemma EventNumbered(r: Rec, named: int, e: Event)
    requires Numbered(r)
    ensures var r' := ServiceSpec.EventTaken(r, named, e); Numbered(r') && EventsGoOn(r, r')
  {
    var r' := ServiceSpec.EventTaken(r, named, e);
    hide Pending;
    if r' != r {
      var c := CurrentOwner(r.state).value;
      var task := if e.closed then Shut(c, r'.state.event, named) else Open(c, r'.state.event, named);
      OneMorePending(r, r', task);
      assert Overtaken(r', task);
    }
  }

  lemma OneMorePending(r: Rec, r': Rec, task: Task)
    requires r'.outbox == r.outbox + multiset{task} && r'.queue == r.queue && r'.running == r.running
    ensures forall t :: t in Pending(r') ==> t == task || t in Pending(r)
  {
  }

  lemma AdvanceNumbered(r: Rec, ok: bool)
    requires r.running.Some? && Numbered(r)
    ensures Numbered(Advanced(r, ok)) && EventsGoOn(r, Advanced(r, ok))
  {
    hide Numbered, EventsGoOn, Pending, EventCurrent, Owning;
    var r' := Advanced(r, ok);
    FewerPending(r, r');
    StateGoesOn(r, r', r.running.value.task.camera);
    StillNumbered(r, r');
  }

  lemma FewerPending(r: Rec, r': Rec)
    requires r'.outbox == r.outbox && r'.queue == r.queue && (RunningTask(r') == RunningTask(r) || r'.running == None)
    ensures NoNewTask(r, r')
  {
  }

  lemma StateGoesOn(r: Rec, r': Rec, c: int)
    requires r'.state == r.state || r'.state == CloseFinished(r.state, c)
    ensures EventsGoOn(r, r')
  {
  }

  lemma MovedNumbered(r: Rec, r': Rec)
    requires Numbered(r) && r'.state == r.state && Pending(r') == Pending(r)
    ensures Numbered(r') && EventsGoOn(r, r')
  {
    hide Pending;
  }

  lemma StepNumbered(s: Svc, step: Step, slot: nat)
    requires |s.slots| == MAX_SLOTS && Enabled(s, step) && slot < MAX_SLOTS && Numbered(s.slots[slot])
    ensures Numbered(Effect(s, step).slots[slot]) && EventsGoOn(s.slots[slot], Effect(s, step).slots[slot])
  {
    hide Numbered, EventsGoOn, FreeSlot, Advanced, Pending;
    var r, r' := s.slots[slot], Effect(s, step).slots[slot];
    if r' == r {
      MovedNumbered(r, r');
    } else {
      match step
      case Place(c, max) => PlaceNumbered(r, c);
      case Take(op) => TakeNumbered(r, s.removals[op].camera);
      case Submit(at, task) => SubmitNumbered(r, task);
      case Start(at) => StartNumbered(r);
      case Advance(at, ok) => AdvanceNumbered(r, ok);
      case HalEvent(at, named, event) => EventNumbered(r, named, event);
      case RecoverSlot(at) => RecoverNumbered(r, CurrentOwner(r.state).value);
    }
  }

  lemma PlaceNumbered(r: Rec, c: int)
    requires Numbered(r) && r.state.owner.None?
    ensures var r' := r.(state := Lifecycle.Reserved(r.state, c), outbox := r.outbox + multiset{Register(c)});
            Numbered(r') && EventsGoOn(r, r')
  {
    var r' := r.(state := Lifecycle.Reserved(r.state, c), outbox := r.outbox + multiset{Register(c)});
    OneMorePending(r, r', Register(c));
    hide Pending;
    StillNumbered(r, r');
  }

  lemma TakeNumbered(r: Rec, c: int)
    requires Numbered(r) && Owning(r.state, c)
    ensures var r' := r.(state := ClosingBegun(r.state, c), outbox := r.outbox + multiset{Teardown(c)});
            Numbered(r') && EventsGoOn(r, r')
  {
    var r' := r.(state := ClosingBegun(r.state, c), outbox := r.outbox + multiset{Teardown(c)});
    OneMorePending(r, r', Teardown(c));
    hide Pending;
    StillNumbered(r, r');
  }

  lemma RecoverNumbered(r: Rec, c: int)
    requires Numbered(r)
    ensures var r' := r.(outbox := r.outbox + multiset{ServiceSpec.Recover(c)}); Numbered(r') && EventsGoOn(r, r')
  {
    var r' := r.(outbox := r.outbox + multiset{ServiceSpec.Recover(c)});
    OneMorePending(r, r', ServiceSpec.Recover(c));
    hide Pending;
    StillNumbered(r, r');
  }

  lemma SubmitNumbered(r: Rec, task: Task)
    requires Numbered(r) && task in r.outbox
    ensures var r' := r.(outbox := r.outbox - multiset{task}, queue := r.queue + [task]); Numbered(r') && EventsGoOn(r, r')
  {
    var r' := r.(outbox := r.outbox - multiset{task}, queue := r.queue + [task]);
    assert Pending(r') == Pending(r);
    MovedNumbered(r, r');
  }

  lemma StartNumbered(r: Rec)
    requires Numbered(r) && r.running.None? && r.queue != []
    ensures var r' := r.(queue := r.queue[1..], running := Some(Running(r.queue[0], 0))); Numbered(r') && EventsGoOn(r, r')
  {
    var r' := r.(queue := r.queue[1..], running := Some(Running(r.queue[0], 0)));
    assert r.queue == [r.queue[0]] + r.queue[1..];
    assert Pending(r') == Pending(r);
    MovedNumbered(r, r');
  }

  lemma {:induction false} RunNumbered(run: seq<Svc>, i: nat, slot: nat)
    requires Run(run) && i < |run| && slot < MAX_SLOTS
    ensures Numbered(run[i].slots[slot])
  {
    hide Enabled, Effect, Numbered;
    if i == 0 {
      assert INITIAL.slots[slot] == EMPTY_REC;
      NothingNumbered();
    } else {
      RunNumbered(run, i - 1, slot);
      assert Next(run[i - 1], run[i - 1 + 1]);
      var step :| Enabled(run[i - 1], step) && run[i] == Effect(run[i - 1], step);
      StepNumbered(run[i - 1], step, slot);
    }
  }

  lemma NothingNumbered()
    ensures Numbered(EMPTY_REC)
  {
  }

  lemma {:induction false} EventsOnlyGrow(run: seq<Svc>, m: nat, i: nat, slot: nat)
    requires Run(run) && m <= i < |run| && slot < MAX_SLOTS
    ensures run[m].slots[slot].state.event <= run[i].slots[slot].state.event
    decreases i
  {
    hide Enabled, Effect, Numbered;
    if m < i {
      EventsOnlyGrow(run, m, i - 1, slot);
      RunNumbered(run, i - 1, slot);
      assert Next(run[i - 1], run[i - 1 + 1]);
      var step :| Enabled(run[i - 1], step) && run[i] == Effect(run[i - 1], step);
      StepNumbered(run[i - 1], step, slot);
    }
  }

  /** A task whose event is no longer current, and which is not already past its last check,
      never makes its callback. */
  lemma StaleTaskStaysSilent(run: seq<Svc>, m: nat, i: nat, slot: nat, task: Task)
    requires Run(run) && m <= i && i + 1 < |run| && slot < MAX_SLOTS && CallsBack(task)
    requires task in Pending(run[m].slots[slot]) && !EventCurrent(run[m].slots[slot].state, task.camera, task.number)
    requires run[m].slots[slot].running != Some(Running(task, LastCheck(task) + 1))
    requires |run[i + 1].slots[slot].callbacks| > |run[i].slots[slot].callbacks|
    ensures run[i].slots[slot].running.Some? && run[i].slots[slot].running.value.task != task
  {
    hide Pending;
    CallbackWasChecked(run, i, slot);
    if run[i].slots[slot].running.value.task == task {
      var j: nat :| j < i && Checked(run, j, i, slot, task);
      RunNumbered(run, m, slot);
      assert Overtaken(run[m].slots[slot], task);
      if m <= j {
        EventsOnlyGrow(run, m, j, slot);
      }
      assert false;
    }
  }

  // ---------------------------------------------------------------- cameras without a slot

  /** The step is the locked section of a removal that had found camera c. */
  predicate TakesAway(s: Svc, step: Step, c: int) {
    step.Take? && RemovalOf(s, step.op, c)
  }

  predicate RemovalOf(s: Svc, op: nat, c: int) {
    op in s.removals && s.removals[op].camera == c
  }

  function Takes(run: seq<Svc>, steps: seq<Step>, n: nat, c: int): nat
    requires n <= |steps| <= |run|
  {
    if n == 0 then 0 else Takes(run, steps, n - 1, c) + Count(TakesAway(run[n - 1], steps[n - 1], c))
  }

  lemma PrefixIsRun(run: seq<Svc>)
    requires Run(run) && |run| > 1
    ensures Run(run[..|run| - 1])
  {
    hide Next;
    var before := run[..|run| - 1];
    forall i | 0 <= i < |before| - 1 ensures Next(before[i], before[i + 1]) {
      assert Next(run[i], run[i + 1]);
    }
  }

  /** Every run is the play of some steps. */
  lemma {:induction false} RunIsPlayed(run: seq<Svc>) returns (steps: seq<Step>)
    requires Run(run)
    ensures Played(run, steps)
    decreases |run|
  {
    hide Enabled, Effect;
    steps := [];
    if |run| > 1 {
      var before := run[..|run| - 1];
      PrefixIsRun(run);
      var n := |run| - 2;
      assert Next(run[n], run[n + 1]);
      var step :| Enabled(run[n], step) && run[n + 1] == Effect(run[n], step);
      steps := RunIsPlayed(before);
      OneMoreStep(before, steps, step);
      assert run == before + [Effect(run[n], step)];
      steps := steps + [step];
    }
  }

  lemma PlayedInv(run: seq<Svc>, steps: seq<Step>, n: nat)
    requires Played(run, steps) && n < |run|
    ensures Inv(run[n])
  {
    hide Inv, Next, Enabled, Effect;
    PlayedIsRun(run, steps);
    RunInv(run, n);
  }

  /** One step's share in the close() calls made or due for a camera without a slot. */
  lemma SpareStep(s: Svc, step: Step, c: int)
    requires |s.slots| == MAX_SLOTS && Inv(s) && Enabled(s, step) && c !in Effect(s, step).home
    ensures c !in s.home
    ensures var s' := Effect(s, step);
            s'.closes[c] + s'.unclosed[c] == s.closes[c] + s.unclosed[c] + Count(TakesAway(s, step, c))
  {
    hide RecInv, CameraInv, FreeSlot, Advanced, Closing, Lifecycle.Reserved, ClosingBegun, ServiceSpec.EventTaken, Taken, LookedUp;
    if step.Advance? {
      OnlyHomedAreTornDown(s, step.slot, c);
    } else if step.Take? {
      assert RemovalInv(s, s.removals[step.op]);
      SpareTake(s, step.op, c);
    }
    if step.Lookup? {
      LookupKeepsCloses(s, step.op, step.camera, step.death);
    }
    hide Inv;
  }

  lemma LookupKeepsCloses(s: Svc, op: nat, c: int, death: bool)
    ensures var s' := LookedUp(s, op, c, death); s'.home == s.home && s'.closes == s.closes && s'.unclosed == s.unclosed
  {
  }

  lemma SpareTake(s: Svc, op: nat, c: int)
    requires |s.slots| == MAX_SLOTS && Enabled(s, Take(op)) && RemovalInv(s, s.removals[op])
    ensures var s' := Taken(s, op);
            s'.home == s.home && s'.closes == s.closes &&
            (c !in s.home ==> s'.unclosed[c] == s.unclosed[c] + Count(RemovalOf(s, op, c)))
  {
    hide Owning, ClosingBegun;
  }

  lemma OnlyHomedAreTornDown(s: Svc, slot: nat, c: int)
    requires |s.slots| == MAX_SLOTS && Inv(s) && slot < MAX_SLOTS && c !in s.home
    ensures Closing(s.slots[slot]) != Some(c)
  {
    var r := s.slots[slot];
    assert RecInv(r);
    assert Closing(r).Some? ==> Pending(r)[Teardown(Closing(r).value)] >= 1;
    assert Closing(r).Some? ==> r.state.owner == Closing(r);
  }

  /** A camera without a slot is closed, or about to be, once for every removal of it that ran. */
  lemma {:induction false} ClosesCountRemovals(run: seq<Svc>, steps: seq<Step>, n: nat, c: int)
    requires Played(run, steps) && n <= |steps| && c !in run[n].home
    ensures run[n].closes[c] + run[n].unclosed[c] == Takes(run, steps, n, c)
    ensures forall i :: 0 <= i <= n ==> c !in run[i].home
  {
    hide Enabled, Effect, Inv, TakesAway;
    if n > 0 {
      PlayedInv(run, steps, n - 1);
      assert Enabled(run[n - 1], steps[n - 1]) && run[n - 1 + 1] == Effect(run[n - 1], steps[n - 1]);
      SpareStep(run[n - 1], steps[n - 1], c);
      ClosesCountRemovals(run, steps, n - 1, c);
    }
  }

  /** Two removals of c ran, and the second had found c before the first one took it away. */
  ghost predicate RemovalsOverlap(run: seq<Svc>, steps: seq<Step>, n: nat, c: int)
    requires n <= |steps| <= |run|
  {
    exists i, j :: 0 <= i < j < n && OverlapAt(run, steps, i, j, c)
  }

  ghost predicate OverlapAt(run: seq<Svc>, steps: seq<Step>, i: nat, j: nat, c: int)
    requires i < j < |steps| <= |run|
  {
    && TakesAway(run[i], steps[i], c) && TakesAway(run[j], steps[j], c)
    && steps[i].op != steps[j].op && RemovalOf(run[i], steps[j].op, c)
  }

  /** Registered no more, and never again. */
  predicate Gone(s: Svc, c: int) {
    c !in s.cameras && c !in s.linked && c < s.nextId
  }

  lemma GoneStays(s: Svc, step: Step, c: int)
    requires |s.slots| == MAX_SLOTS && Enabled(s, step) && Gone(s, c)
    ensures Gone(Effect(s, step), c)
    ensures forall op: nat :: RemovalOf(Effect(s, step), op, c) ==> RemovalOf(s, op, c)
  {
    hide FreeSlot, Advanced, Closing, Lifecycle.Reserved, ClosingBegun, ServiceSpec.EventTaken, CurrentOwner, Owning;
  }

  lemma TakenIsGone(s: Svc, step: Step, c: int)
    requires |s.slots| == MAX_SLOTS && Inv(s) && Enabled(s, step) && TakesAway(s, step, c) && c !in s.home
    ensures Gone(Effect(s, step), c)
    ensures forall op: nat :: RemovalOf(Effect(s, step), op, c) ==> RemovalOf(s, op, c) && op != step.op
  {
    hide RecInv, CameraInv;
    assert RemovalInv(s, s.removals[step.op]);
  }

  lemma {:induction false} FoundBefore(run: seq<Svc>, steps: seq<Step>, i: nat, j: nat, op: nat, c: int)
    requires Played(run, steps) && i <= j < |run| && Gone(run[i], c) && RemovalOf(run[j], op, c)
    ensures RemovalOf(run[i], op, c)
    decreases j
  {
    hide Enabled, Effect, Gone, RemovalOf;
    if i < j {
      GoneFor(run, steps, i, j - 1, c);
      assert Enabled(run[j - 1], steps[j - 1]) && run[j - 1 + 1] == Effect(run[j - 1], steps[j - 1]);
      GoneStays(run[j - 1], steps[j - 1], c);
      FoundBefore(run, steps, i, j - 1, op, c);
    }
  }

  lemma {:induction false} GoneFor(run: seq<Svc>, steps: seq<Step>, i: nat, j: nat, c: int)
    requires Played(run, steps) && i <= j < |run| && Gone(run[i], c)
    ensures Gone(run[j], c)
    decreases j
  {
    hide Enabled, Effect, Gone;
    if i < j {
      GoneFor(run, steps, i, j - 1, c);
      assert Enabled(run[j - 1], steps[j - 1]) && run[j - 1 + 1] == Effect(run[j - 1], steps[j - 1]);
      GoneStays(run[j - 1], steps[j - 1], c);
    }
  }

  lemma {:induction false} TakesGrow(run: seq<Svc>, steps: seq<Step>, i: nat, n: nat, c: int)
    requires i <= n <= |steps| <= |run|
    ensures Takes(run, steps, i, c) <= Takes(run, steps, n, c)
    decreases n
  {
    if i < n {
      TakesGrow(run, steps, i, n - 1, c);
    }
  }

  lemma {:induction false} LastTake(run: seq<Svc>, steps: seq<Step>, n: nat, c: int) returns (i: nat)
    requires n <= |steps| <= |run| && Takes(run, steps, n, c) > 0
    ensures i < n && TakesAway(run[i], steps[i], c) && Takes(run, steps, i, c) == Takes(run, steps, n, c) - 1
  {
    hide TakesAway;
    if TakesAway(run[n - 1], steps[n - 1], c) {
      return n - 1;
    }
    i := LastTake(run, steps, n - 1, c);
  }

  /** A camera without a slot is closed more than once exactly when two removals of it overlapped. */
  lemma ClosedAgainIff(run: seq<Svc>, steps: seq<Step>, n: nat, c: int)
    requires Played(run, steps) && n <= |steps| && c !in run[n].home
    ensures run[n].closes[c] + run[n].unclosed[c] > 1 <==> RemovalsOverlap(run, steps, n, c)
  {
    hide Enabled, Effect, Inv, TakesAway, Gone, RemovalOf;
    ClosesCountRemovals(run, steps, n, c);
    if RemovalsOverlap(run, steps, n, c) {
      var i, j :| 0 <= i < j < n && OverlapAt(run, steps, i, j, c);
      TakesGrow(run, steps, i + 1, j, c);
      TakesGrow(run, steps, j + 1, n, c);
    }
    if Takes(run, steps, n, c) > 1 {
      var j := LastTake(run, steps, n, c);
      var i := LastTake(run, steps, j, c);
      TakesOverlap(run, steps, i, j, c);
    }
  }

  lemma TakesOverlap(run: seq<Svc>, steps: seq<Step>, i: nat, j: nat, c: int)
    requires Played(run, steps) && i < j < |steps| && c !in run[i].home
    requires TakesAway(run[i], steps[i], c) && TakesAway(run[j], steps[j], c)
    ensures OverlapAt(run, steps, i, j, c)
  {
    hide Enabled, Effect, Inv, Gone;
    PlayedInv(run, steps, i);
    assert Enabled(run[i], steps[i]) && run[i + 1] == Effect(run[i], steps[i]);
    TakenIsGone(run[i], steps[i], c);
    FoundBefore(run, steps, i + 1, j, steps[j].op, c);
  }
}
