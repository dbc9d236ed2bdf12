/** What each call on the v2 ring achieves once it returns, however the other process's steps fall
    between its own. */
module V2Progress {
  import opened Wrappers
  import opened V2Protocol

  lemma HalLeavesRenderer(s: State, s': State)
    requires ConsumerStep(s, s')
    ensures s'.producer == s.producer && s'.submitted == s.submitted && s'.owned == s.owned
  {
  }

  lemma RendererLeavesHal(s: State, s': State)
    requires ProducerStep(s, s')
    ensures s'.consumer == s.consumer && s'.taken == s.taken && s'.held == s.held
    ensures s'.ring.relWrite == s.ring.relWrite && s'.ring.relSlots == s.ring.relSlots && s'.ring.read == s.ring.read
  {
  }

  lemma RunNext(n: nat, run: seq<State>, i: nat)
    requires Run(n, run) && i + 1 < |run|
    ensures Next(run[i], run[i + 1]) && Inv(n, run[i])
  {
    RunInv(n, run, i);
  }

  // ---------------------------------------------------------------- submitFrame

  ghost predicate Submitting(s0: State, s: State, e: Entry) {
    && s.submitted == s0.submitted && s.owned == s0.owned
    && (s.producer == CheckRoom(e) || s.producer == FillSlot(e) || s.producer == Publish(e))
  }

  ghost predicate HasSubmitted(s0: State, s: State, e: Entry) {
    s.producer == PIdle && s.submitted == s0.submitted + [e] && s.owned == s0.owned - multiset{e.buffer}
  }

  lemma SubmitStep(n: nat, s0: State, s: State, s': State, e: Entry)
    requires Inv(n, s) && Next(s, s') && Submitting(s0, s, e)
    ensures Submitting(s0, s', e) || HasSubmitted(s0, s', e)
  {
    if ConsumerStep(s, s') {
      HalLeavesRenderer(s, s');
    } else if s.producer.CheckRoom? {
      RoomToSubmit(n, s, e.buffer);
    }
  }

  /** A frame handed to submitFrame is the next one submitted when the call returns. */
  lemma {:induction false} SubmitSubmits(n: nat, run: seq<State>, i: nat, j: nat, e: Entry)
    requires Run(n, run) && i < j < |run| && run[i].producer == CheckRoom(e)
    requires forall k :: i <= k < j ==> !run[k].producer.PIdle?
    ensures Submitting(run[i], run[j], e) || HasSubmitted(run[i], run[j], e)
    ensures run[j].producer.PIdle? ==> HasSubmitted(run[i], run[j], e)
    decreases j
  {
    hide Inv, Next;
    RunNext(n, run, j - 1);
    if i < j - 1 {
      SubmitSubmits(n, run, i, j - 1, e);
    }
    SubmitStep(n, run[i], run[j - 1], run[j - 1 + 1], e);
  }

  // ---------------------------------------------------------------- beginFrame

  ghost predicate SeenBusy(run: seq<State>, i: nat, k: nat, b: nat) {
    exists m: nat :: i <= m <= k < |run| && b < |run[m].ring.busy| && run[m].ring.busy[b]
  }

  ghost predicate SeenDrained(run: seq<State>, i: nat, k: nat) {
    exists m: nat :: i <= m <= k < |run| && run[m].ring.relRead >= run[m].ring.relWrite
  }

  ghost predicate Beginning(run: seq<State>, i: nat, k: nat)
    requires i <= k < |run|
  {
    run[k].owned == run[i].owned &&
    match run[k].producer
    case Drain => true
    case Drained => true
    case Scan(at) => SeenDrained(run, i, k) && forall b :: 0 <= b < at ==> SeenBusy(run, i, k, b)
    case _ => false
  }

  /** The release ring was seen empty, and the renderer has one more buffer, or every buffer was
      seen busy. */
  ghost predicate HasBegun(n: nat, run: seq<State>, i: nat, j: nat)
    requires i <= j < |run|
  {
    && run[j].producer.PIdle? && SeenDrained(run, i, j)
    && ((exists b: nat :: b < n && run[j].owned == run[i].owned + multiset{b})
        || (run[j].owned == run[i].owned && forall b :: 0 <= b < n ==> SeenBusy(run, i, j, b)))
  }

  lemma SeenLater(run: seq<State>, i: nat, k: nat)
    requires i <= k && k + 1 < |run|
    ensures SeenDrained(run, i, k) ==> SeenDrained(run, i, k + 1)
    ensures forall b: nat :: SeenBusy(run, i, k, b) ==> SeenBusy(run, i, k + 1, b)
  {
    forall b: nat | SeenBusy(run, i, k, b) ensures SeenBusy(run, i, k + 1, b) {
      var m: nat :| i <= m <= k < |run| && b < |run[m].ring.busy| && run[m].ring.busy[b];
      assert i <= m <= k + 1;
    }
    if SeenDrained(run, i, k) {
      var m: nat :| i <= m <= k < |run| && run[m].ring.relRead >= run[m].ring.relWrite;
      assert i <= m <= k + 1;
    }
  }

  lemma BeginStep(n: nat, run: seq<State>, i: nat, k: nat)
    requires i <= k && k + 1 < |run| && Inv(n, run[k]) && Next(run[k], run[k + 1]) && Beginning(run, i, k)
    ensures Beginning(run, i, k + 1) || HasBegun(n, run, i, k + 1)
  {
    SeenLater(run, i, k);
    SeesNow(run, i, k);
    hide SeenBusy, SeenDrained;
    var s, s' := run[k], run[k + 1];
    if s.producer.Scan? {
      var next := k + 1;
      forall b | 0 <= b < s.producer.at ensures SeenBusy(run, i, next, b) {
        assert SeenBusy(run, i, k, b);
      }
    }
    if ConsumerStep(s, s') {
      HalLeavesRenderer(s, s');
    } else if s.producer.Scan? && s.producer.at < |s.ring.busy| && !s.ring.busy[s.producer.at] {
      assert s'.owned == run[i].owned + multiset{s.producer.at};
    }
  }

  lemma SeesNow(run: seq<State>, i: nat, k: nat)
    requires i <= k && k + 1 < |run|
    ensures run[k].ring.relRead >= run[k].ring.relWrite ==> SeenDrained(run, i, k + 1)
    ensures forall b: nat :: b < |run[k].ring.busy| && run[k].ring.busy[b] ==> SeenBusy(run, i, k + 1, b)
  {
    assert i <= k <= k + 1;
  }

  lemma {:induction false} BeginClaims(n: nat, run: seq<State>, i: nat, j: nat)
    requires Run(n, run) && i < j < |run| && run[i].producer.Drain?
    requires forall k :: i <= k < j ==> !run[k].producer.PIdle?
    ensures Beginning(run, i, j) || HasBegun(n, run, i, j)
    ensures run[j].producer.PIdle? ==> HasBegun(n, run, i, j)
    decreases j
  {
    hide Inv, Next, HasBegun;
    RunNext(n, run, j - 1);
    if i < j - 1 {
      BeginClaims(n, run, i, j - 1);
      if HasBegun(n, run, i, j - 1) {
        BegunIsIdle(n, run, i, j - 1);
      }
    }
    BeginStep(n, run, i, j - 1);
  }

  lemma BegunIsIdle(n: nat, run: seq<State>, i: nat, j: nat)
    requires i <= j < |run| && HasBegun(n, run, i, j)
    ensures run[j].producer.PIdle?
  {
  }

  // ---------------------------------------------------------------- acquireLatestFrame, acquireNextFrame

  /** The buffer of the newest frame taken since, if any was. */
  ghost function NewestSince(s0: State, s: State): Option<nat> {
    if |s.taken| > |s0.taken| then Some(s.taken[|s.taken| - 1].buffer) else None
  }

  ghost predicate Acquiring(s0: State, s: State, drain: bool) {
    && s.held == s0.held && s0.taken <= s.taken && (!drain ==> s.taken == s0.taken)
    && match s.consumer
       case Poll(latest, d) => d == drain && latest == NewestSince(s0, s)
       case Take(latest, d) => d == drain && latest == NewestSince(s0, s)
       case Advance(_, latest, d) => d == drain && latest == NewestSince(s0, s)
       case RelCheck(_, next) => drain && next == NewestSince(s0, s) && next.Some?
       case RelFill(_, next) => drain && next == NewestSince(s0, s) && next.Some?
       case RelFree(_, next) => drain && next == NewestSince(s0, s) && next.Some?
       case RelPublish(_, next) => drain && next == NewestSince(s0, s) && next.Some?
       case CIdle => false
  }

  /** The caller holds the newest frame taken, or none was taken. The ring was empty at the last
      look, except that acquireNextFrame stops at its first frame. */
  ghost predicate HasAcquired(s0: State, last: State, s: State, drain: bool) {
    && s.consumer.CIdle? && s0.taken <= s.taken
    && s.held == (if NewestSince(s0, s).Some? then s0.held + multiset{NewestSince(s0, s).value} else s0.held)
    && (if drain || NewestSince(s0, s).None? then last.ring.read >= last.ring.write else |s.taken| == |s0.taken| + 1)
  }

  lemma AcquireStep(n: nat, s0: State, s: State, s': State, drain: bool)
    requires Inv(n, s) && Next(s, s') && Acquiring(s0, s, drain)
    ensures Acquiring(s0, s', drain) || HasAcquired(s0, s, s', drain)
  {
    if !ConsumerStep(s, s') {
      RendererLeavesHal(s, s');
    } else {
      RoomToRelease(n, s);
      HalAcquireStep(s0, s, s', drain);
    }
  }

  lemma HalAcquireStep(s0: State, s: State, s': State, drain: bool)
    requires ConsumerStep(s, s') && Acquiring(s0, s, drain) && s.ring.relWrite - s.ring.relRead < RING_SIZE
    ensures Acquiring(s0, s', drain) || HasAcquired(s0, s, s', drain)
  {
  }

  /** What acquireLatestFrame and acquireNextFrame return. */
  lemma {:induction false} AcquireReturns(n: nat, run: seq<State>, i: nat, j: nat, drain: bool)
    requires Run(n, run) && i < j < |run| && run[i].consumer == Poll(None, drain)
    requires forall k :: i <= k < j ==> !run[k].consumer.CIdle?
    ensures Acquiring(run[i], run[j], drain) || HasAcquired(run[i], run[j - 1], run[j], drain)
    ensures run[j].consumer.CIdle? ==> HasAcquired(run[i], run[j - 1], run[j], drain)
    decreases j
  {
    hide Inv, Next;
    RunNext(n, run, j - 1);
    if i < j - 1 {
      AcquireReturns(n, run, i, j - 1, drain);
    }
    AcquireStep(n, run[i], run[j - 1], run[j - 1 + 1], drain);
  }

  // ---------------------------------------------------------------- releaseFrame

  ghost predicate Releases(s0: State, s: State, b: nat) {
    && s.held == s0.held && s.ring.relWrite == s0.ring.relWrite
    && match s.consumer
       case RelCheck(c, next) => c == b && next == None
       case RelFill(c, next) => c == b && next == None
       case RelFree(c, next) => c == b && next == None && Entered(s0, s, b)
       case RelPublish(c, next) => c == b && next == None && Entered(s0, s, b)
       case _ => false
  }

  /** The next release entry names the buffer. */
  ghost predicate Entered(s0: State, s: State, b: nat) {
    |s.ring.relSlots| == RING_SIZE && s.ring.relSlots[s0.ring.relWrite % RING_SIZE] == b
  }

  ghost predicate HasReleased(s0: State, s: State, b: nat) {
    s.consumer.CIdle? && s.held == s0.held && s.ring.relWrite == s0.ring.relWrite + 1 && Entered(s0, s, b)
  }

  lemma ReleaseStep(n: nat, s0: State, s: State, s': State, b: nat)
    requires Inv(n, s) && Next(s, s') && Releases(s0, s, b)
    ensures Releases(s0, s', b) || HasReleased(s0, s', b)
    ensures s.consumer.RelFree? && s'.consumer.RelPublish? ==> b < |s'.ring.busy| && !s'.ring.busy[b]
  {
    if !ConsumerStep(s, s') {
      RendererLeavesHal(s, s');
    } else {
      RoomToRelease(n, s);
    }
  }

  /** A frame given to releaseFrame is the next entry of the release ring when the call returns. */
  lemma {:induction false} ReleaseReturns(n: nat, run: seq<State>, i: nat, j: nat, b: nat)
    requires Run(n, run) && i < j < |run| && run[i].consumer == RelCheck(b, None)
    requires forall k :: i <= k < j ==> !run[k].consumer.CIdle?
    ensures Releases(run[i], run[j], b) || HasReleased(run[i], run[j], b)
    ensures run[j].consumer.CIdle? ==> HasReleased(run[i], run[j], b)
    decreases j
  {
    hide Inv, Next;
    RunNext(n, run, j - 1);
    if i < j - 1 {
      ReleaseReturns(n, run, i, j - 1, b);
    }
    ReleaseStep(n, run[i], run[j - 1], run[j - 1 + 1], b);
  }

  /** A buffer the HAL has given up can be claimed again: nothing but a later claim makes it busy. */
  lemma OnlyClaimsMakeBusy(s: State, s': State, b: nat)
    requires Next(s, s') && b < |s.ring.busy| && !s.ring.busy[b]
    ensures b < |s'.ring.busy| && (s'.ring.busy[b] ==> s.producer == Scan(b) && s'.owned == s.owned + multiset{b})
  {
    if ConsumerStep(s, s') {
      HalClaimsNothing(s, s', b);
    } else {
      RendererClaims(s, s', b);
    }
  }

  lemma HalClaimsNothing(s: State, s': State, b: nat)
    requires ConsumerStep(s, s') && b < |s.ring.busy| && !s.ring.busy[b]
    ensures b < |s'.ring.busy| && !s'.ring.busy[b]
  {
  }

  lemma RendererClaims(s: State, s': State, b: nat)
    requires ProducerStep(s, s') && b < |s.ring.busy| && !s.ring.busy[b]
    ensures b < |s'.ring.busy| && (s'.ring.busy[b] ==> s.producer == Scan(b) && s'.owned == s.owned + multiset{b})
  {
  }
}
