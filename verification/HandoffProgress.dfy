/** What the HAL's sections achieve in the hand-off: a close ends its configuration for good, an
    entitled session gets one, a live configuration takes frames, and captures are served. */
module HandoffProgress {
  import opened Wrappers
  import opened ReadFences
  import opened HalSpec
  import opened Handoff

  // ---------------------------------------------------------------- who may configure

  /** The slot has passed on from this session, or was closed by it. */
  ghost predicate Dismissed(s: Sys, owner: int) {
    owner < s.cell.slot.owner || (owner == s.cell.slot.owner && s.cell.slot.ownerClosed)
  }

  /** A live configuration belongs to a session that has not closed it. */
  ghost predicate OwnerIsLive(s: Sys) {
    s.cell.slot.config != 0 ==> s.cell.slot.owner > 0 && !s.cell.slot.ownerClosed
  }

  /** The relay's sections are no business of the HAL's. */
  lemma RelayLeavesCell(s: Sys, s': Sys, step: Step)
    requires RelayStep(s, s', step)
    ensures s'.cell == s.cell
  {
  }

  lemma StepKeepsOwner(k: nat, s: Sys, s': Sys, step: Step, owner: int)
    requires CountersOrdered(s) && OwnerIsLive(s) && NextStep(k, s, s', step)
    ensures OwnerIsLive(s') && (Dismissed(s, owner) ==> Dismissed(s', owner))
  {
    if RelayStep(s, s', step) {
      RelayLeavesCell(s, s', step);
    } else {
      HalKeepsOwner(k, s, s', step, owner);
    }
  }

  lemma HalKeepsOwner(k: nat, s: Sys, s': Sys, step: Step, owner: int)
    requires CountersOrdered(s) && OwnerIsLive(s) && HalStep(k, s, s', step)
    ensures OwnerIsLive(s') && (Dismissed(s, owner) ==> Dismissed(s', owner))
  {
    hide Drop, Reap, Settled, AllPoints;
  }

  lemma CountersOf(k: nat, s: Sys)
    requires Inv(k, s)
    ensures CountersOrdered(s)
  {
  }

  lemma {:induction false} OwnerStaysLive(k: nat, run: seq<Sys>, i: nat)
    requires k >= 1 && Run(k, run) && i < |run|
    ensures OwnerIsLive(run[i]) && Inv(k, run[i])
  {
    hide Inv, NextStep, OwnerIsLive, CountersOrdered;
    RunInv(k, run, i);
    if i == 0 {
      NobodyOwns(run[0]);
    } else {
      OwnerStaysLive(k, run, i - 1);
      CountersOf(k, run[i - 1]);
      assert Next(k, run[i - 1], run[i - 1 + 1]);
      var step :| NextStep(k, run[i - 1], run[i], step);
      StepKeepsOwner(k, run[i - 1], run[i], step, 0);
    }
  }

  lemma NobodyOwns(s: Sys)
    requires Init(s)
    ensures OwnerIsLive(s)
  {
  }

  lemma {:induction false} DismissedForGood(k: nat, run: seq<Sys>, i: nat, j: nat, owner: int)
    requires k >= 1 && Run(k, run) && i <= j < |run| && Dismissed(run[i], owner)
    ensures Dismissed(run[j], owner)
    decreases j
  {
    hide Inv, NextStep, OwnerIsLive, CountersOrdered, Dismissed;
    if i < j {
      DismissedForGood(k, run, i, j - 1, owner);
      OwnerStaysLive(k, run, j - 1);
      CountersOf(k, run[j - 1]);
      assert Next(k, run[j - 1], run[j - 1 + 1]);
      var step :| NextStep(k, run[j - 1], run[j], step);
      StepKeepsOwner(k, run[j - 1], run[j], step, owner);
    }
  }

  /** A session gets a configuration exactly if it is a proper identity, the slot has neither
      passed on from it nor been closed by it, and the counter is not exhausted. The token is new
      and live at once, with the geometry asked for; a refusal changes nothing. */
  lemma ConfigureAnswers(k: nat, run: seq<Sys>, i: nat, owner: int, width: int, height: int, token: int)
    requires k >= 1 && Run(k, run) && i + 1 < |run| && HalStep(k, run[i], run[i + 1], Configure(owner, width, height, token))
    ensures token != 0 <==> owner > 0 && !Dismissed(run[i], owner) && run[i].cell.next != MAX_IDENTITY
    ensures token == 0 ==> run[i + 1].cell == run[i].cell
    ensures var c, c' := run[i].cell, run[i + 1].cell;
            token != 0 ==>
              && token > c.next && c'.slot.config == token && c'.slot.owner == owner && !c'.slot.ownerClosed
              && c'.slot.width == width && c'.slot.height == height && c'.slot.caps == c.slot.caps
              && (c'.slot.frame.ahb == 0 || c'.slot.frame.retiring)
  {
    OwnerStaysLive(k, run, i);
    CountersOf(k, run[i]);
    hide Inv;
  }

  /** An identity handed out now is ahead of every slot's owner. */
  lemma AllocatedMayConfigure(c: Cell, c': Cell, identity: int)
    requires AllocateIdentity(c, c', identity) && 0 <= c.slot.owner <= c.next < MAX_IDENTITY
    ensures identity > 0 && identity > c'.slot.owner && c'.slot == c.slot
    ensures identity == c'.next && (identity < MAX_IDENTITY ==> c'.next != MAX_IDENTITY)
  {
  }

  // ---------------------------------------------------------------- what a close ends

  /** The owner's close of its live configuration: the token is dead and the owner dismissed in
      every later state. */
  lemma CloseEndsConfiguration(k: nat, run: seq<Sys>, i: nat, j: nat, owner: int, token: int)
    requires k >= 1 && Run(k, run) && i + 1 <= j < |run| && HalStep(k, run[i], run[i + 1], Close(owner, token))
    requires owner == run[i].cell.slot.owner && token == run[i].cell.slot.config > 0
    ensures Superseded(run[j], token) && Dismissed(run[j], owner)
  {
    OwnerStaysLive(k, run, i);
    CountersOf(k, run[i]);
    hide Inv;
    TokenNeverReturns(k, run, i + 1, j, token);
    DismissedForGood(k, run, i + 1, j, owner);
  }

  /** It takes the frame away, too; any other close changes nothing. */
  lemma CloseDropsFrame(k: nat, run: seq<Sys>, i: nat, owner: int, token: int)
    requires k >= 1 && Run(k, run) && i + 1 < |run| && HalStep(k, run[i], run[i + 1], Close(owner, token))
    ensures var c, c' := run[i].cell, run[i + 1].cell;
            if owner == c.slot.owner && token == c.slot.config > 0 then
              c'.slot.config == 0 && !c'.slot.ready && (c'.slot.frame.ahb == 0 || c'.slot.frame.retiring) && c'.slot.caps == c.slot.caps
            else c' == c
  {
    OwnerStaysLive(k, run, i);
    CountersOf(k, run[i]);
    hide Inv;
  }

  /** Under a token that is not live no capture gets a lease and no submission is accepted. */
  lemma DeadTokenServesNothing(k: nat, s: Sys, s': Sys, step: Step, token: int)
    requires Superseded(s, token) && HalStep(k, s, s', step)
    ensures step.Acquire? && step.token == token ==> step.lease == None
    ensures step.RpcStart? && s.rpcs[step.id].token == token ==> step.res == Some(7)
    ensures step.RpcCommit? && s.rpcs[step.id].token == token ==> step.outcome.Rejected?
    ensures step.Ready? && step.token == token ==> !step.ok
  {
  }

  /** A dismissed session configures nothing. */
  lemma DismissedConfiguresNothing(k: nat, s: Sys, s': Sys, owner: int, width: int, height: int, token: int)
    requires Dismissed(s, owner) && HalStep(k, s, s', Configure(owner, width, height, token))
    ensures token == 0 && s'.cell == s.cell
  {
  }

  /** After a close no capture is served under its token, no submission under it is accepted, and
      its session configures nothing, in every later state. */
  lemma NothingAfterClose(k: nat, run: seq<Sys>, i: nat, j: nat, owner: int, token: int, step: Step)
    requires k >= 1 && Run(k, run) && i + 1 <= j && j + 1 < |run| && HalStep(k, run[i], run[i + 1], Close(owner, token))
    requires owner == run[i].cell.slot.owner && token == run[i].cell.slot.config > 0 && HalStep(k, run[j], run[j + 1], step)
    ensures step.Acquire? && step.token == token ==> step.lease == None
    ensures step.RpcStart? && run[j].rpcs[step.id].token == token ==> step.res == Some(7)
    ensures step.RpcCommit? && run[j].rpcs[step.id].token == token ==> step.outcome.Rejected?
    ensures step.Ready? && step.token == token ==> !step.ok
    ensures step.Configure? && step.owner == owner ==> step.token == 0 && run[j + 1].cell == run[j].cell
  {
    CloseEndsConfiguration(k, run, i, j, owner, token);
    DeadTokenServesNothing(k, run[j], run[j + 1], step, token);
    if step.Configure? && step.owner == owner {
      DismissedConfiguresNothing(k, run[j], run[j + 1], owner, step.width, step.height, step.token);
    }
  }

  // ---------------------------------------------------------------- registration and readiness

  /** A descriptor is taken exactly on a slot without one; it ends the live configuration. */
  lemma RegisterAnswers(k: nat, run: seq<Sys>, i: nat, registration: int, ok: bool)
    requires k >= 1 && Run(k, run) && i + 1 < |run| && HalStep(k, run[i], run[i + 1], Register(registration, ok))
    ensures ok <==> run[i].cell.slot.caps.None? && registration > 0
    ensures ok ==> run[i + 1].cell.slot.caps == Some(registration) && run[i + 1].cell.slot.config == 0 && !run[i + 1].cell.slot.ready
    ensures ok ==> run[i + 1].cell.slot.owner == run[i].cell.slot.owner && run[i + 1].cell.slot.frame == run[i].cell.slot.frame
    ensures !ok ==> run[i + 1].cell == run[i].cell
  {
  }

  /** Revoking takes the descriptor, so that another can be registered, and the configuration. */
  lemma RevokeFreesSlot(k: nat, run: seq<Sys>, i: nat)
    requires k >= 1 && Run(k, run) && i + 1 < |run| && HalStep(k, run[i], run[i + 1], Revoked)
    ensures var c' := run[i + 1].cell;
            c'.slot.caps == None && c'.slot.config == 0 && (c'.slot.frame.ahb == 0 || c'.slot.frame.retiring)
  {
  }

  /** Readiness is accepted exactly for the live token of a described slot; withdrawing it ends
      the configuration in every later state. */
  lemma ReadyAnswers(k: nat, run: seq<Sys>, i: nat, j: nat, token: int, ready: bool, ok: bool)
    requires k >= 1 && Run(k, run) && i + 1 <= j < |run| && HalStep(k, run[i], run[i + 1], Ready(token, ready, ok))
    ensures ok <==> token == run[i].cell.slot.config > 0 && run[i].cell.slot.caps.Some?
    ensures ok && ready ==> run[i + 1].cell.slot == run[i].cell.slot.(ready := true)
    ensures ok && !ready ==> Superseded(run[j], token) && (run[i + 1].cell.slot.frame.ahb == 0 || run[i + 1].cell.slot.frame.retiring)
    ensures !ok ==> run[i + 1].cell == run[i].cell
  {
    OwnerStaysLive(k, run, i);
    CountersOf(k, run[i]);
    hide Inv;
    if ok && !ready {
      TokenNeverReturns(k, run, i + 1, j, token);
    }
  }

  // ---------------------------------------------------------------- submissions under a live token

  /** What goes with a live token and stays as long as it is live. */
  ghost predicate Negotiated(s: Sys, token: int, width: int, height: int, ready: bool) {
    s.cell.slot.config == token && s.cell.slot.width == width && s.cell.slot.height == height && (ready ==> s.cell.slot.ready)
  }

  lemma NegotiatedStep(k: nat, s: Sys, s': Sys, step: Step, token: int, width: int, height: int, ready: bool)
    requires CountersOrdered(s) && token > 0 && NextStep(k, s, s', step) && Negotiated(s, token, width, height, ready)
    ensures if s'.cell.slot.config == token then Negotiated(s', token, width, height, ready) else Superseded(s', token)
  {
    if RelayStep(s, s', step) {
      RelayLeavesCell(s, s', step);
    } else {
      HalNegotiatedStep(k, s, s', step, token, width, height, ready);
    }
  }

  lemma HalNegotiatedStep(k: nat, s: Sys, s': Sys, step: Step, token: int, width: int, height: int, ready: bool)
    requires CountersOrdered(s) && token > 0 && HalStep(k, s, s', step) && Negotiated(s, token, width, height, ready)
    ensures if s'.cell.slot.config == token then Negotiated(s', token, width, height, ready) else Superseded(s', token)
  {
    hide Drop, Reap, Settled, AllPoints, Admitted;
  }

  /** While its token is live a configuration keeps its geometry and, once given, its readiness. */
  lemma {:induction false} NegotiatedStays(k: nat, run: seq<Sys>, i: nat, j: nat, token: int, width: int, height: int, ready: bool)
    requires k >= 1 && Run(k, run) && i <= j < |run| && token > 0 && Negotiated(run[i], token, width, height, ready)
    ensures if run[j].cell.slot.config == token then Negotiated(run[j], token, width, height, ready) else Superseded(run[j], token)
    decreases j
  {
    hide Inv, NextStep, CountersOrdered, Negotiated, Superseded;
    RunInv(k, run, j);
    CountersOf(k, run[j]);
    if i < j {
      NegotiatedStays(k, run, i, j - 1, token, width, height, ready);
      RunInv(k, run, j - 1);
      CountersOf(k, run[j - 1]);
      assert Next(k, run[j - 1], run[j - 1 + 1]);
      var step :| NextStep(k, run[j - 1], run[j], step);
      if run[j - 1].cell.slot.config == token {
        NegotiatedStep(k, run[j - 1], run[j], step, token, width, height, ready);
      } else {
        TokenNeverReturns(k, run, j - 1, j, token);
        NotLive(run[j], token);
      }
    } else {
      assert run[j].cell.slot.config == token by {
        LiveIs(run[j], token, width, height, ready);
      }
    }
  }

  lemma NotLive(s: Sys, token: int)
    requires Superseded(s, token)
    ensures s.cell.slot.config != token
  {
  }

  lemma LiveIs(s: Sys, token: int, width: int, height: int, ready: bool)
    requires Negotiated(s, token, width, height, ready)
    ensures s.cell.slot.config == token
  {
  }

  /** Not refused for its token: the code 7 stands for a submission that does not fit. */
  ghost predicate NotMisfit(step: Step) {
    (step.RpcStart? ==> step.res != Some(7)) && (step.RpcCommit? ==> step.outcome != Rejected(7))
  }

  ghost predicate Submits(s: Sys, step: Step, token: int, desc: Desc) {
    (step.RpcStart? || step.RpcCommit?) && step.id in s.rpcs && !s.rpcs[step.id].Done? && s.rpcs[step.id].token == token && s.rpcs[step.id].desc == desc
  }

  /** A frame with the negotiated size is taken for as long as the configuration is live: on a
      described slot from its readiness on, on any other at once and whatever its size. */
  lemma LiveConfigurationTakesFrames(k: nat, run: seq<Sys>, i: nat, m: nat, j: nat, owner: int, width: int, height: int, token: int,
                                     step: Step, desc: Desc)
    requires k >= 1 && Run(k, run) && i < m <= j && j + 1 < |run| && token > 0
    requires HalStep(k, run[i], run[i + 1], Configure(owner, width, height, token))
    requires run[j].cell.slot.config == token && HalStep(k, run[j], run[j + 1], step) && Submits(run[j], step, token, desc)
    requires run[j].cell.slot.caps.Some? ==>
      m < j && HalStep(k, run[m], run[m + 1], Ready(token, true, true)) && desc == Desc(width, height, RGBA_8888)
    ensures NotMisfit(step)
  {
    hide Inv, Run, HalStep, Negotiated, Submits;
    ConfigureNegotiates(k, run, i, owner, width, height, token);
    NegotiatedStays(k, run, i + 1, j, token, width, height, false);
    if run[j].cell.slot.caps.Some? {
      NegotiatedStays(k, run, i + 1, m, token, width, height, false);
      ReadyNegotiates(k, run, m, token, width, height);
      NegotiatedStays(k, run, m + 1, j, token, width, height, true);
      FittingIsTaken(k, run[j], run[j + 1], step, token, width, height, true, desc);
    } else {
      FittingIsTaken(k, run[j], run[j + 1], step, token, width, height, false, desc);
    }
  }

  lemma ConfigureNegotiates(k: nat, run: seq<Sys>, i: nat, owner: int, width: int, height: int, token: int)
    requires k >= 1 && Run(k, run) && i + 1 < |run| && token > 0
    requires HalStep(k, run[i], run[i + 1], Configure(owner, width, height, token))
    ensures Negotiated(run[i + 1], token, width, height, false)
  {
    ConfigureAnswers(k, run, i, owner, width, height, token);
    hide Inv, Run, HalStep;
  }

  lemma ReadyNegotiates(k: nat, run: seq<Sys>, m: nat, token: int, width: int, height: int)
    requires k >= 1 && Run(k, run) && m + 1 < |run| && HalStep(k, run[m], run[m + 1], Ready(token, true, true))
    requires run[m].cell.slot.config == token ==> Negotiated(run[m], token, width, height, false)
    ensures Negotiated(run[m + 1], token, width, height, true)
  {
    ReadyAnswers(k, run, m, m + 1, token, true, true);
    hide Inv, Run, HalStep;
  }

  lemma FittingIsTaken(k: nat, s: Sys, s': Sys, step: Step, token: int, width: int, height: int, ready: bool, desc: Desc)
    requires HalStep(k, s, s', step) && Submits(s, step, token, desc) && Negotiated(s, token, width, height, ready)
    requires s.cell.slot.caps.Some? ==> ready && desc == Desc(width, height, RGBA_8888)
    ensures NotMisfit(step)
  {
  }

  /** The other refusals have their grounds: a reader or a retired frame still in place, or read
      fences that would not merge. An empty slot refuses nothing else. */
  lemma RefusalHasGrounds(k: nat, run: seq<Sys>, i: nat, id: nat, ahb: nat, timestamp: int, acquire: Option<set<Point>>, outcome: Outcome)
    requires k >= 1 && Run(k, run) && i + 1 < |run|
    requires HalStep(k, run[i], run[i + 1], RpcCommit(id, ahb, timestamp, acquire, outcome))
    requires outcome.Rejected? && outcome.code != 7
    ensures run[i].cell.slot.frame.ahb != 0
    ensures var f, f' := run[i].cell.slot.frame, run[i + 1].cell.slot.frame;
            || (outcome.code == 4 && (f.inflight > 0 || (f.retiring && f'.retiring && f'.pending != [])))
            || (outcome.code == 6 && |f'.pending| > 1)
  {
    RunInv(k, run, i);
  }

  // ---------------------------------------------------------------- what captures are served

  /** The submission q as it is kept for captures. */
  ghost predicate Keeps(s: Sys, q: nat, ahb: nat, desc: Desc, timestamp: int, token: int, acquire: Option<set<Point>>) {
    var f := s.cell.slot.frame;
    Reading(s, q) ==> f.ahb == ahb && f.desc == desc && f.timestamp == timestamp && f.token == token && f.acquire == acquire
  }

  lemma KeepsStep(k: nat, s: Sys, s': Sys, step: Step, q: nat, ahb: nat, desc: Desc, timestamp: int, token: int, acquire: Option<set<Point>>)
    requires Inv(k, s) && NextStep(k, s, s', step) && q <= s.cell.received && Keeps(s, q, ahb, desc, timestamp, token, acquire)
    requires !Reading(s, q) ==> !Reading(s', q)
    ensures Keeps(s', q, ahb, desc, timestamp, token, acquire) && q <= s'.cell.received
  {
    ReceivedGrows(k, s, s', step);
    if Reading(s, q) && Reading(s', q) {
      SameFrame(k, s, s', step, q);
    }
  }

  lemma ReceivedGrows(k: nat, s: Sys, s': Sys, step: Step)
    requires NextStep(k, s, s', step)
    ensures s.cell.received <= s'.cell.received
  {
    if RelayStep(s, s', step) {
      RelayLeavesCell(s, s', step);
    } else {
      HalReceives(k, s, s', step);
    }
  }

  lemma HalReceives(k: nat, s: Sys, s': Sys, step: Step)
    requires HalStep(k, s, s', step)
    ensures s.cell.received <= s'.cell.received
  {
    hide Drop, Reap, Settled, AllPoints, Admitted;
  }

  lemma SameFrame(k: nat, s: Sys, s': Sys, step: Step, q: nat)
    requires Inv(k, s) && NextStep(k, s, s', step) && q <= s.cell.received && Reading(s, q) && Reading(s', q)
    ensures SameSubmission(s.cell.slot.frame, s'.cell.slot.frame)
  {
    if RelayStep(s, s', step) {
      RelayLeavesCell(s, s', step);
    } else if SlotStep(step) {
      SlotStepSameFrame(k, s, s', step);
    } else {
      OtherStepSameFrame(k, s, s', step, q);
    }
  }

  ghost predicate SameSubmission(f: Frame, f': Frame) {
    f'.ahb == f.ahb && f'.desc == f.desc && f'.timestamp == f.timestamp && f'.token == f.token && f'.acquire == f.acquire
  }

  lemma SlotStepSameFrame(k: nat, s: Sys, s': Sys, step: Step)
    requires HalStep(k, s, s', step) && SlotStep(step) && s'.cell.slot.frame.ahb != 0
    ensures SameSubmission(s.cell.slot.frame, s'.cell.slot.frame)
  {
    hide Settled, AllPoints;
  }

  lemma OtherStepSameFrame(k: nat, s: Sys, s': Sys, step: Step, q: nat)
    requires HalStep(k, s, s', step) && !SlotStep(step) && q <= s.cell.received && Reading(s, q) && Reading(s', q)
    ensures SameSubmission(s.cell.slot.frame, s'.cell.slot.frame)
  {
    hide Settled, AllPoints, Admitted;
  }

  /** Once accepted, a submission is lent out with its own buffer, size, token and timestamp for as
      long as it is the slot's frame. */
  lemma {:induction false} AcceptedIsKept(k: nat, run: seq<Sys>, i: nat, j: nat, id: nat, ahb: nat, timestamp: int,
                                          acquire: Option<set<Point>>, outcome: Outcome)
    requires k >= 1 && Run(k, run) && i + 1 <= j < |run| && outcome.Accepted?
    requires HalStep(k, run[i], run[i + 1], RpcCommit(id, ahb, timestamp, acquire, outcome))
    ensures var r, q := run[i].rpcs[id], run[i + 1].cell.received;
            Keeps(run[j], q, ahb, r.desc, timestamp, r.token, acquire) && q <= run[j].cell.received
    ensures Reading(run[i + 1], run[i + 1].cell.received) && run[i + 1].cell.received in run[j].origin
    decreases j
  {
    hide Inv, NextStep, Keeps, Reading, Monotone;
    var r, q := run[i].rpcs[id], run[i + 1].cell.received;
    RunInv(k, run, i);
    CommitInstalls(k, run[i], run[i + 1], id, ahb, timestamp, acquire, outcome);
    if i + 1 < j {
      AcceptedIsKept(k, run, i, j - 1, id, ahb, timestamp, acquire, outcome);
      RunStep(k, run, j - 1);
      assert Next(k, run[j - 1], run[j - 1 + 1]);
      var step :| NextStep(k, run[j - 1], run[j], step);
      GoneFramesStayGone(k, run[j - 1], run[j], q);
      KeepsStep(k, run[j - 1], run[j], step, q, ahb, r.desc, timestamp, r.token, acquire);
    }
  }

  lemma GoneFramesStayGone(k: nat, s: Sys, s': Sys, q: nat)
    requires Inv(k, s) && Monotone(s, s') && q in s.origin
    ensures q in s'.origin && (!Reading(s, q) ==> !Reading(s', q))
  {
  }

  lemma CommitInstalls(k: nat, s: Sys, s': Sys, id: nat, ahb: nat, timestamp: int, acquire: Option<set<Point>>, outcome: Outcome)
    requires HalStep(k, s, s', RpcCommit(id, ahb, timestamp, acquire, outcome)) && outcome.Accepted?
    ensures var r, q := s.rpcs[id], s'.cell.received;
            && Keeps(s', q, ahb, r.desc, timestamp, r.token, acquire) && Reading(s', q) && q in s'.origin && q == s.cell.received + 1
            && !s'.cell.slot.frame.retiring && s'.cell.slot.frame.inflight == 0
  {
  }

  /** A capture that asks for something newer than it has is served the slot's live frame, unless
      too many reads are outstanding or the frame's fence could not be duplicated. */
  lemma CaptureIsServed(k: nat, run: seq<Sys>, i: nat, j: nat, commit: Step, capture: Step)
    requires k >= 1 && Run(k, run) && i + 1 <= j && j + 1 < |run|
    requires commit.RpcCommit? && commit.outcome.Accepted? && HalStep(k, run[i], run[i + 1], commit)
    requires capture.Acquire? && HalStep(k, run[j], run[j + 1], capture) && capture.token == run[i].rpcs[commit.id].token
    requires run[j].cell.slot.config == capture.token && capture.after < run[i + 1].cell.received
    requires Reading(run[j], run[i + 1].cell.received) && !run[j].cell.slot.frame.retiring
    ensures var f' := run[j + 1].cell.slot.frame;
            if capture.lease.None? then |f'.pending| + f'.inflight >= MAX_PENDING_READS || commit.acquire.Some?
            else capture.lease.value == Lease(commit.ahb, run[i + 1].cell.received, capture.token, run[i].rpcs[commit.id].desc)
                 && run[j + 1].cell.slot.frame.inflight == run[j].cell.slot.frame.inflight + 1
  {
    AcceptedIsKept(k, run, i, j, commit.id, commit.ahb, commit.timestamp, commit.acquire, commit.outcome);
  }
}
