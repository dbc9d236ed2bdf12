/** The capture session (hal/aidl-v1/VirtualCameraSession.cpp:426-910): what the framework gets
    back for each request, and what becomes of every fence and source lease on the way. */
module Session {
  import opened Wrappers
  import opened ReadFences
  import opened Capabilities
  import opened CaptureTypes
  import opened Pacer

  const BLOB: int := 0x21
  const YCBCR_420: int := 0x23
  const STARTUP_NS: int := 200_000_000
  const POLL_NS: int := 2_000_000

  datatype Status = Ok | IllegalArgument | InternalError | Trap

  /** Why a capture produced no picture, as recorded with its profile. */
  datatype Failure = Cancelled | DestinationTimeout | StaleSource | NoSource | SourceFenceTimeout | NoFilledOutput

  // ---------------------------------------------------------------- what an answer is

  function BufferErrors(frame: int, buffers: seq<ResultBuffer>): seq<Message> {
    if buffers == [] then []
    else
      var rest := BufferErrors(frame, buffers[..|buffers| - 1]);
      var last := buffers[|buffers| - 1];
      if last.ok then rest else rest + [BufferError(frame, last.streamId)]
  }

  function FailedStreams(buffers: seq<ResultBuffer>): seq<int> {
    if buffers == [] then []
    else (if buffers[0].ok then [] else [buffers[0].streamId]) + FailedStreams(buffers[1..])
  }

  /** There is one buffer error for every buffer that failed, naming its stream, in order. */
  lemma {:induction false} ErrorsNameFailedStreams(frame: int, buffers: seq<ResultBuffer>)
    ensures |BufferErrors(frame, buffers)| == |FailedStreams(buffers)|
    ensures forall i :: 0 <= i < |FailedStreams(buffers)| ==> BufferErrors(frame, buffers)[i] == BufferError(frame, FailedStreams(buffers)[i])
    decreases |buffers|
  {
    if buffers != [] {
      var init, last := buffers[..|buffers| - 1], buffers[|buffers| - 1];
      assert buffers == init + [last];
      ErrorsNameFailedStreams(frame, init);
      FailedStreamsAppend(init, last);
    }
  }

  lemma {:induction false} FailedStreamsAppend(buffers: seq<ResultBuffer>, last: ResultBuffer)
    ensures FailedStreams(buffers + [last]) == FailedStreams(buffers) + if last.ok then [] else [last.streamId]
    decreases |buffers|
  {
    if buffers != [] {
      assert (buffers + [last])[1..] == buffers[1..] + [last];
      FailedStreamsAppend(buffers[1..], last);
    } else {
      assert ([last])[1..] == [];
    }
  }

  predicate SameBuffers(request: Request, buffers: seq<ResultBuffer>) {
    |buffers| == |request.buffers| &&
    forall i :: 0 <= i < |buffers| ==>
      buffers[i].streamId == request.buffers[i].streamId && buffers[i].bufferId == request.buffers[i].bufferId
  }

  predicate AnyOk(buffers: seq<ResultBuffer>) {
    exists i :: 0 <= i < |buffers| && buffers[i].ok
  }

  /** One notification and one result: the whole request in error, or a shutter and a buffer
      error for exactly the buffers that failed, with at least one that did not. */
  predicate Answers(request: Request, notify: Callback, result: Callback) {
    && notify.Notify? && result.Result? && result.frame == request.frame
    && SameBuffers(request, result.buffers)
    && if AnyOk(result.buffers) then
         && result.partial == 1 && |notify.messages| >= 1 && notify.messages[0].Shutter?
         && notify.messages[0].timestamp > 0 && notify.messages[0].frame == request.frame
         && notify.messages[1..] == BufferErrors(request.frame, result.buffers)
       else
         result.partial == 0 && notify.messages == [RequestError(request.frame)]
  }

  /** Which converters would fill a buffer; all of them are foreign code. */
  datatype Converters = Converters(jpeg: bool, ycbcr: bool, composite: bool, cpu: bool)

  predicate CanFill(format: int, forceCpuYuv: bool, can: Converters) {
    if format == BLOB then can.jpeg
    else can.composite || can.cpu || (format == YCBCR_420 && !forceCpuYuv && can.ycbcr)
  }

  function KeyOf(b: OutBuffer): (int, int) {
    (b.streamId, b.bufferId)
  }

  /** The buffers a request brings along. */
  ghost function KeysOf(request: Request): set<(int, int)> {
    set i | 0 <= i < |request.buffers| && request.buffers[i].hasHandle :: KeyOf(request.buffers[i])
  }

  /** The buffers the first n requests bring along. */
  ghost function Supplied(requests: seq<Request>, n: nat): set<(int, int)>
    requires n <= |requests|
  {
    if n == 0 then {} else Supplied(requests, n - 1) + KeysOf(requests[n - 1])
  }

  predicate AllAvailable(request: Request, cache: set<(int, int)>) {
    forall i :: 0 <= i < |request.buffers| ==> Available(request.buffers[i], cache)
  }

  /** Settings in the request or on their way through the queue. */
  predicate BringsSettings(request: Request) {
    request.settings != Unchanged || request.fmqSize != 0
  }

  /** What every answered request looks like: output buffers only, at least one, each of a known
      stream and with at most one valid fd as its fence. */
  predicate Sound(request: Request, streams: set<int>) {
    && request.buffers != [] && request.inputStream == -1
    && forall i :: 0 <= i < |request.buffers| ==>
         var b := request.buffers[i];
         b.streamId in streams && b.fence.ints == 0 && |b.fence.fds| <= 1 && (b.fence.fds != [] ==> b.fence.fds[0] >= 0)
  }

  /** Every answered request was sound and named only buffers it brought along or that were in the cache, after
      the removals and what earlier requests had brought. */
  ghost predicate NamedKnown(requests: seq<Request>, n: nat, streams: set<int>, cache: set<(int, int)>) {
    n <= |requests| && forall k :: 0 <= k < n ==> Sound(requests[k], streams) && AllAvailable(requests[k], cache + Supplied(requests, k))
  }

  lemma NothingNamed(requests: seq<Request>, streams: set<int>, cache: set<(int, int)>)
    ensures NamedKnown(requests, 0, streams, cache)
  {
  }

  lemma OneMoreKnown(requests: seq<Request>, n: nat, streams: set<int>, cache: set<(int, int)>, now: set<(int, int)>)
    requires n < |requests| && NamedKnown(requests, n, streams, cache) && now <= cache + Supplied(requests, n)
    requires Sound(requests[n], streams) && AllAvailable(requests[n], now)
    ensures NamedKnown(requests, n + 1, streams, cache)
  {
  }

  predicate Available(b: OutBuffer, cache: set<(int, int)>) {
    b.hasHandle || (b.streamId, b.bufferId) in cache
  }

  function FenceOf(b: OutBuffer): Fd {
    if b.fence.fds == [] then -1 else b.fence.fds[0]
  }

  /** What processCaptureRequest checks of a fence before it is touched. */
  predicate WellFormed(h: Handle) {
    h.ints == 0 && |h.fds| <= 1 && (h.fds != [] ==> h.fds[0] >= 0)
  }

  ghost predicate FencesOpen(open: Fences, request: Request) {
    forall i :: 0 <= i < |request.buffers| && FenceOf(request.buffers[i]) >= 0 ==> FenceOf(request.buffers[i]) in open
  }

  function ReleaseFds(buffers: seq<ResultBuffer>): (fds: seq<Fd>)
    ensures |fds| == |buffers|
  {
    seq(|buffers|, i requires 0 <= i < |buffers| => buffers[i].releaseFence)
  }

  /** Each destination fence has either fired or goes back, as it was, on its unwritten buffer. */
  ghost predicate FencesKept(open0: Fences, open: Fences, signaled: set<Point>, request: Request, buffers: seq<ResultBuffer>)
    requires |buffers| == |request.buffers|
  {
    forall i :: 0 <= i < |buffers| && FenceOf(request.buffers[i]) >= 0 && FenceOf(request.buffers[i]) in open0 ==>
      var needed := open0[FenceOf(request.buffers[i])];
      || needed <= signaled
      || (!buffers[i].ok && buffers[i].releaseFence >= 0 && buffers[i].releaseFence in open && open[buffers[i].releaseFence] == needed)
  }

  /** The whole of what an accepted request leaves behind: one answer, its fences and no other
      new fd. */
  ghost predicate Settles(request: Request, callbacks0: seq<Callback>, callbacks: seq<Callback>,
                          open0: Fences, open: Fences, signaled: set<Point>)
  {
    && |callbacks| == |callbacks0| + 2 && callbacks[..|callbacks0|] == callbacks0
    && Answers(request, callbacks[|callbacks0|], callbacks[|callbacks0| + 1])
    && FdsSettled(open0, open, signaled, request, callbacks[|callbacks0| + 1].buffers)
  }

  ghost predicate FdsSettled(open0: Fences, open: Fences, signaled: set<Point>, request: Request, buffers: seq<ResultBuffer>)
  {
    && |buffers| == |request.buffers|
    && FencesKept(open0, open, signaled, request, buffers)
    && Distinct(ReleaseFds(buffers)) && Grown(open0, open, Held(ReleaseFds(buffers)))
  }

  /** The duplicates of the destination fences, slot by slot; -1 where there is none to wait for. */
  ghost predicate Reserved(open0: Fences, open: Fences, request: Request, pending: seq<Fd>) {
    && |pending| == |request.buffers| && Distinct(pending) && Grown(open0, open, Held(pending))
    && forall i :: 0 <= i < |pending| ==> pending[i] >= -1
  }

  ghost predicate PendingKept(open0: Fences, open: Fences, signaled: set<Point>, request: Request, pending: seq<Fd>)
    requires |pending| == |request.buffers|
  {
    forall i :: 0 <= i < |pending| && FenceOf(request.buffers[i]) >= 0 && FenceOf(request.buffers[i]) in open0 ==>
      var needed := open0[FenceOf(request.buffers[i])];
      needed <= signaled || (pending[i] >= 0 && pending[i] in open && open[pending[i]] == needed)
  }

  lemma PointsOfOne(open: Fences, fd: Fd)
    requires fd in open && fd >= 0
    ensures open[fd] <= PointsOf(open, Held([fd]))
  {
    assert [fd][0] in Held([fd]);
  }

  lemma Shrunk(before: Fences, after: Fences, fds: set<Fd>)
    requires Grown(before, after, fds)
    ensures after - fds == before
  {
    var rest := after - fds;
    assert rest.Keys == before.Keys;
    assert forall fd :: fd in rest ==> rest[fd] == before[fd];
  }

  /** The duplicate of one destination fence, or -1 where there is none. */
  method ReserveOne(driver: SyncDriver, b: OutBuffer) returns (fd: Fd, ok: bool)
    requires FenceOf(b) >= 0 ==> FenceOf(b) in driver.open
    modifies driver
    ensures old(driver.signaled) <= driver.signaled && fd >= -1
    ensures driver.failures == old(driver.failures) + if ok then 0 else 1
    ensures Grown(old(driver.open), driver.open, Fd1(fd)) && (ok ==> (fd >= 0 <==> FenceOf(b) >= 0)) && (!ok ==> fd == -1 && driver.open == old(driver.open))
    ensures fd >= 0 ==> fd in driver.open && driver.open[fd] == old(driver.open)[FenceOf(b)]
  {
    fd, ok := -1, true;
    if b.fence.fds != [] && FenceOf(b) >= 0 {
      fd := driver.Duplicate(FenceOf(b));
      if fd < 0 {
        return -1, false;
      }
    }
  }

  /** Each slot so far holds a duplicate of its buffer's fence. */
  ghost predicate Duplicated(open0: Fences, open: Fences, request: Request, pending: seq<Fd>) {
    && |pending| <= |request.buffers| && (forall k :: 0 <= k < |pending| ==> pending[k] >= -1)
    && forall k :: 0 <= k < |pending| && FenceOf(request.buffers[k]) >= 0 && FenceOf(request.buffers[k]) in open0 ==>
         pending[k] >= 0 && pending[k] in open && open[pending[k]] == open0[FenceOf(request.buffers[k])]
  }

  lemma ReserveNext(open0: Fences, open: Fences, open': Fences, request: Request, pending: seq<Fd>, fd: Fd)
    requires |pending| < |request.buffers| && fd >= -1 && Grown(open, open', Fd1(fd))
    requires Distinct(pending) && Grown(open0, open, Held(pending)) && Duplicated(open0, open, request, pending)
    requires fd >= 0 <==> FenceOf(request.buffers[|pending|]) >= 0
    requires fd >= 0 && FenceOf(request.buffers[|pending|]) in open0 ==> open'[fd] == open0[FenceOf(request.buffers[|pending|])]
    ensures Distinct(pending + [fd]) && Grown(open0, open', Held(pending + [fd])) && Duplicated(open0, open', request, pending + [fd])
  {
    GrownTwice(open0, open, open', Held(pending), Fd1(fd));
    HeldAppend(pending, fd);
    hide Distinct, Held;
  }

  method ReserveFences(driver: SyncDriver, request: Request) returns (pending: seq<Fd>, ok: bool)
    requires FencesOpen(driver.open, request)
    modifies driver
    ensures old(driver.signaled) <= driver.signaled
    ensures ok ==> Reserved(old(driver.open), driver.open, request, pending)
    ensures ok ==> PendingKept(old(driver.open), driver.open, driver.signaled, request, pending)
    ensures !ok ==> driver.open == old(driver.open)
    ensures driver.failures == old(driver.failures) + if ok then 0 else 1
  {
    hide Distinct, Held;
    pending := [];
    NothingPending(driver.open, pending);
    for i := 0 to |request.buffers|
      invariant |pending| == i && Distinct(pending) && Grown(old(driver.open), driver.open, Held(pending))
      invariant old(driver.signaled) <= driver.signaled && driver.failures == old(driver.failures)
      invariant Duplicated(old(driver.open), driver.open, request, pending)
    {
      ghost var open := driver.open;
      var fd;
      fd, ok := ReserveOne(driver, request.buffers[i]);
      if !ok {
        Shrunk(old(driver.open), driver.open, Held(pending));
        CloseAll(driver, pending);
        return pending, false;
      }
      ReserveNext(old(driver.open), open, driver.open, request, pending, fd);
      pending := pending + [fd];
    }
    return pending, true;
  }

  /** A fence that fired, or an empty slot, is cleared. */
  lemma ClearSlot(open0: Fences, open: Fences, signaled: set<Point>, request: Request, pending: seq<Fd>, i: nat)
    requires Reserved(open0, open, request, pending) && PendingKept(open0, open, signaled, request, pending) && i < |pending|
    requires pending[i] >= 0 ==> pending[i] in open && open[pending[i]] <= signaled
    ensures pending[i] >= 0 ==> pending[i] in Held(pending)
    ensures var open' := if pending[i] >= 0 then open - {pending[i]} else open;
            Reserved(open0, open', request, pending[i := -1]) && PendingKept(open0, open', signaled, request, pending[i := -1])
  {
    HeldCleared(pending, i);
    var rest := pending[i := -1];
    assert pending[i] < 0 ==> rest == pending;
  }

  /** Signals only help. */
  lemma StillKept(open0: Fences, open: Fences, signaled: set<Point>, more: set<Point>, request: Request, pending: seq<Fd>)
    requires |pending| == |request.buffers| && PendingKept(open0, open, signaled, request, pending) && signaled <= more
    ensures PendingKept(open0, open, more, request, pending)
  {
  }

  /** sync_wait on each destination fence in turn, until cancelled or a wait fails. */
  method AwaitFences(driver: SyncDriver, env: Environment, ghost open0: Fences, request: Request, fds: seq<Fd>)
    returns (pending: seq<Fd>, failure: Option<Failure>)
    requires Reserved(open0, driver.open, request, fds)
    requires PendingKept(open0, driver.open, driver.signaled, request, fds)
    modifies driver`open, driver`signaled, env
    ensures old(driver.signaled) <= driver.signaled && env.now >= old(env.now)
    ensures Reserved(open0, driver.open, request, pending)
    ensures PendingKept(open0, driver.open, driver.signaled, request, pending)
    ensures failure.None? ==> forall i :: 0 <= i < |pending| ==> pending[i] == -1
    ensures failure.Some? ==> failure.value == Cancelled || failure.value == DestinationTimeout
    ensures failure == Some(Cancelled) ==> env.cancelled
    ensures failure == Some(DestinationTimeout) ==> HeldUp(pending, driver.open, old(driver.signaled), driver.faulty)
  {
    hide PendingKept, Grown, Distinct;
    pending := fds;
    for i := 0 to |fds|
      invariant |pending| == |fds|
      invariant old(driver.signaled) <= driver.signaled && env.now >= old(env.now)
      invariant Reserved(open0, driver.open, request, pending)
      invariant PendingKept(open0, driver.open, driver.signaled, request, pending)
      invariant forall k :: 0 <= k < i ==> pending[k] == -1
    {
      var fd := pending[i];
      env.Tick();
      if env.cancelled {
        return pending, Some(Cancelled);
      }
      if fd >= 0 {
        HeldIsOpen(open0, driver.open, pending, i);
        ghost var before := driver.signaled;
        var r := driver.Poll(fd);
        StillKept(open0, driver.open, before, driver.signaled, request, pending);
        if r != 0 {
          assert NotFired(driver.open[pending[i]], pending[i], old(driver.signaled), driver.faulty);
          env.Tick();
          return pending, if env.cancelled then Some(Cancelled) else Some(DestinationTimeout);
        }
        ClearSlot(open0, driver.open, driver.signaled, request, pending, i);
        driver.Close(fd);
      } else {
        ClearSlot(open0, driver.open, driver.signaled, request, pending, i);
      }
      pending := pending[i := -1];
    }
    return pending, None;
  }

  /** Handing back the reserved fences on buffers that were not touched settles all of them. */
  lemma UntouchedSettles(open0: Fences, open: Fences, signaled: set<Point>, request: Request, pending: seq<Fd>, buffers: seq<ResultBuffer>)
    requires Reserved(open0, open, request, pending) && PendingKept(open0, open, signaled, request, pending)
    requires ReleaseFds(buffers) == pending && !AnyOk(buffers)
    ensures FdsSettled(open0, open, signaled, request, buffers)
  {
    hide Distinct, Grown;
    assert |buffers| == |pending|;
    assert forall i :: 0 <= i < |buffers| ==> buffers[i].releaseFence == pending[i] && !buffers[i].ok;
  }

  lemma NothingPending(open0: Fences, pending: seq<Fd>)
    requires forall i :: 0 <= i < |pending| ==> pending[i] == -1
    ensures Distinct(pending) && Held(pending) == {} && Grown(open0, open0, {})
  {
  }

  lemma NothingHeld(open0: Fences, open: Fences, request: Request, pending: seq<Fd>)
    requires Reserved(open0, open, request, pending) && forall i :: 0 <= i < |pending| ==> pending[i] == -1
    ensures open == open0 && |pending| == |request.buffers|
  {
    NothingPending(open0, pending);
    HeldAreOpen(open0, open, pending);
  }

  lemma NothingReserved(open0: Fences, request: Request, pending: seq<Fd>)
    requires |pending| == |request.buffers| && forall i :: 0 <= i < |pending| ==> pending[i] == -1
    ensures Reserved(open0, open0, request, pending)
  {
    NothingPending(open0, pending);
  }

  lemma GrownBack(open0: Fences, open: Fences, fds: set<Fd>, back: set<Fd>)
    requires Grown(open0, open, fds + back) && fds !! back
    ensures Grown(open0, open - back, fds)
  {
  }

  /** With every destination fence fired, only the fences made while rendering are left, and
      what the source is given back with is all the work on it. */
  lemma RenderedSettles(open0: Fences, open: Fences, signaled: set<Point>, request: Request, pending: seq<Fd>,
                        buffers: seq<ResultBuffer>, done: seq<Fd>, jobs: seq<Job>, lost: int)
    requires |pending| == |request.buffers| == |buffers| && PendingKept(open0, open0, signaled, request, pending)
    requires forall i :: 0 <= i < |pending| ==> pending[i] == -1
    requires Rendered(open0, open, buffers, done, jobs, lost)
    ensures Distinct(done) && Held(done) <= open.Keys && FdsSettled(open0, open - Held(done), signaled, request, buffers)
    ensures Carried(open - Held(done), buffers, jobs, lost) && PointsOf(open, Held(done)) == AllWork(jobs)
  {
    var kept := ReleaseFds(buffers);
    GrownBack(open0, open, Held(kept), Held(done));
    FencedStable(open, open - Held(done), buffers);
    DoneIsAllWork(open, done, jobs);
    hide Grown, Distinct, Carried, Fenced, AllWork;
  }

  lemma DoneIsAllWork(open: Fences, done: seq<Fd>, jobs: seq<Job>)
    requires DoneAre(open, done, jobs)
    ensures PointsOf(open, Held(done)) == AllWork(jobs)
  {
    forall p | p in AllWork(jobs) ensures p in PointsOf(open, Held(done)) {
      var i :| 0 <= i < |jobs| && p in jobs[i].work;
      assert done[i] in Held(done);
    }
    forall p | p in PointsOf(open, Held(done)) ensures p in AllWork(jobs) {
      var fd :| fd in Held(done) && fd in open && p in open[fd];
      var i :| 0 <= i < |done| && done[i] >= 0 && done[i] == fd;
      assert p in jobs[i].work;
    }
  }

  /** Later fds and other closes do not matter to the fences that are out. */
  lemma {:induction false} FencedStable(open: Fences, open': Fences, buffers: seq<ResultBuffer>)
    requires forall fd :: fd in Held(ReleaseFds(buffers)) ==> fd in open && fd in open' && open[fd] == open'[fd]
    ensures Fenced(open', buffers) == Fenced(open, buffers)
    decreases |buffers|
  {
    if buffers != [] {
      var init := buffers[..|buffers| - 1];
      var fds := ReleaseFds(buffers);
      assert fds[|buffers| - 1] == buffers[|buffers| - 1].releaseFence;
      forall fd | fd in Held(ReleaseFds(init)) ensures fd in Held(fds) {
        var i :| 0 <= i < |init| && ReleaseFds(init)[i] >= 0 && ReleaseFds(init)[i] == fd;
        assert fds[i] == fd;
      }
      FencedStable(open, open', init);
    }
  }

  lemma RenderedCount(open0: Fences, open: Fences, buffers: seq<ResultBuffer>, done: seq<Fd>, jobs: seq<Job>, lost: int)
    requires Rendered(open0, open, buffers, done, jobs, lost)
    ensures jobs == [] ==> lost == 0
  {
    hide Fenced;
    LostCount(open, buffers, jobs, lost);
  }

  lemma HeldIsOpen(open0: Fences, open: Fences, pending: seq<Fd>, i: nat)
    requires Grown(open0, open, Held(pending)) && i < |pending| && pending[i] >= 0
    ensures pending[i] in open
  {
    assert pending[i] in Held(pending);
  }

  // ---------------------------------------------------------------- the session

  ghost predicate Increasing(s: seq<nat>, last: nat) {
    (forall i, j :: 0 <= i < j < |s| ==> s[i] < s[j]) && forall i :: 0 <= i < |s| ==> s[i] <= last
  }

  ghost function Fd1(fd: Fd): set<Fd> {
    if fd >= 0 then {fd} else {}
  }

  /** What a session has done so far, as its partners saw it. */
  datatype Trace = Trace(callbacks: seq<Callback>, used: seq<nat>, lent: seq<(nat, nat)>, returned: seq<(nat, set<Point>)>,
                         jobs: seq<Job>)

  /** At most one lease, given back exactly once. */
  ghost predicate LeaseBalanced(t0: Trace, t: Trace) {
    || (t.lent == t0.lent && t.returned == t0.returned)
    || (&& |t.lent| == |t0.lent| + 1 && t.lent[..|t0.lent|] == t0.lent
        && |t.returned| == |t0.returned| + 1 && t.returned[..|t0.returned|] == t0.returned
        && t.returned[|t0.returned|].0 == t.lent[|t0.lent|].0)
  }

  /** Whoever got a picture got it from the one submission this capture used up. */
  ghost predicate SourceConsumed(t0: Trace, t: Trace, buffers: seq<ResultBuffer>) {
    && (t.used == t0.used || (|t.used| == |t0.used| + 1 && t.used[..|t0.used|] == t0.used))
    && (AnyOk(buffers) ==>
          && |t.used| == |t0.used| + 1
          && |t.lent| == |t0.lent| + 1
          && t.used[|t0.used|] == t.lent[|t0.lent|].1)
  }

  /** The jobs whose fence went back on the buffer they write to, in order. */
  ghost function Fenced(open: Fences, buffers: seq<ResultBuffer>): seq<Job> {
    if buffers == [] then []
    else
      var last := buffers[|buffers| - 1];
      Fenced(open, buffers[..|buffers| - 1]) +
      if last.releaseFence >= 0 then [Job(last.streamId, last.bufferId, PointsAt(open, last.releaseFence))] else []
  }

  /** All jobs but `lost` of them have their fence on their own buffer, and there are no others. */
  ghost predicate Carried(open: Fences, buffers: seq<ResultBuffer>, jobs: seq<Job>, lost: int) {
    && multiset(Fenced(open, buffers)) <= multiset(jobs)
    && |jobs| == |Fenced(open, buffers)| + lost
    && (lost == 0 ==> Fenced(open, buffers) == jobs)
  }

  ghost function AllWork(jobs: seq<Job>): set<Point> {
    set i, p | 0 <= i < |jobs| && p in jobs[i].work :: p
  }

  /** Every job of the capture is waited for by the producer's buffer, and by the output buffer it
      writes to except where duplicating its fence failed. */
  ghost predicate WorkSettled(t0: Trace, t: Trace, open: Fences, buffers: seq<ResultBuffer>, lost: int) {
    && |t0.jobs| <= |t.jobs| && t.jobs[..|t0.jobs|] == t0.jobs
    && var work := t.jobs[|t0.jobs|..];
       if AnyOk(buffers) || work != [] then
         && |t.returned| == |t0.returned| + 1 && t.returned[|t0.returned|].1 == AllWork(work)
         && Carried(open, buffers, work, lost)
       else lost == 0
  }

  /** An accepted request, from before its first step to after its last. */
  ghost predicate Accomplished(request: Request, t0: Trace, t: Trace, open0: Fences, open: Fences, signaled: set<Point>, lost: int) {
    && Settles(request, t0.callbacks, t.callbacks, open0, open, signaled)
    && LeaseBalanced(t0, t)
    && SourceConsumed(t0, t, t.callbacks[|t0.callbacks| + 1].buffers)
    && WorkSettled(t0, t, open, t.callbacks[|t0.callbacks| + 1].buffers, lost)
  }

  /** Cancelled or held up at a destination fence, the only ways out before the pacer. */
  predicate StoppedEarly(failure: Option<Failure>) {
    failure == Some(Cancelled) || failure == Some(DestinationTimeout)
  }

  /** Whether the rate is zero once these settings are taken up. */
  predicate AsksForZero(settings: Settings, was: bool) {
    if settings.Given? && settings.rate.Some? then |settings.rate.value| == 2 && settings.rate.value[1] == 0 else was
  }

  /** Whether it is zero after the first n requests of a batch. */
  predicate ZeroAfter(requests: seq<Request>, n: nat, was: bool)
    requires n <= |requests|
  {
    if n == 0 then was else AsksForZero(requests[n - 1].settings, ZeroAfter(requests, n - 1, was))
  }

  /** What can be seen of a session, its clock, its driver and its source at one moment. */
  datatype Scene = Scene(trace: Trace, open: Fences, signaled: set<Point>, faulty: set<Fd>, now: int, cancelled: bool,
                         stale: nat, attempts: nat, filled: nat, failures: nat)

  /** What one capture is up against: its configuration token, the least time it waits for a
      source, whether all its streams and buffers are known, and its time slot. */
  datatype Terms = Terms(token: int, patience: int, known: bool, slot: int)

  function Answered(t: Trace): seq<ResultBuffer> {
    if t.callbacks != [] && t.callbacks[|t.callbacks| - 1].Result? then t.callbacks[|t.callbacks| - 1].buffers else []
  }

  predicate Stamped(callbacks: seq<Callback>, slot: int) {
    && |callbacks| >= 2 && callbacks[|callbacks| - 2].Notify? && callbacks[|callbacks| - 2].messages != []
    && var first := callbacks[|callbacks| - 2].messages[0]; first.Shutter? && first.timestamp == slot
  }

  ghost predicate NotFired(needed: set<Point>, fd: Fd, signaled: set<Point>, faulty: set<Fd>) {
    fd in faulty || !(needed <= signaled)
  }

  /** The fence of an answered buffer that held the capture up goes back with it. */
  ghost predicate HeldUp(fds: seq<Fd>, open: Fences, signaled: set<Point>, faulty: set<Fd>) {
    exists i :: 0 <= i < |fds| && fds[i] >= 0 && fds[i] in open && NotFired(open[fds[i]], fds[i], signaled, faulty)
  }

  /** The buffer was borrowed, and what it was returned with had not all fired. */
  ghost predicate LeaseLate(s0: Scene, s: Scene) {
    && |s.trace.lent| == |s0.trace.lent| + 1 && |s.trace.returned| == |s0.trace.returned| + 1
    && (s0.faulty != {} || !(s.trace.returned[|s0.trace.returned|].1 <= s0.signaled))
  }

  /** Every buffer had its turn unless the capture was cancelled or its source went stale. */
  ghost predicate Tried(terms: Terms, s0: Scene, s: Scene) {
    && s.filled == s0.filled + OkCount(Answered(s.trace))
    && (terms.known && !s.cancelled && s.stale == s0.stale ==> s.attempts == s0.attempts + |Answered(s.trace)|)
  }

  /** A picture whenever no failure is recorded, and the grounds of the failure otherwise. */
  ghost predicate Explained(failure: Option<Failure>, terms: Terms, s0: Scene, s: Scene) {
    (failure.None? <==> AnyOk(Answered(s.trace))) && Grounds(failure, terms, s0, s)
  }

  ghost predicate Grounds(failure: Option<Failure>, terms: Terms, s0: Scene, s: Scene) {
    match failure
    case None => Tried(terms, s0, s) && Stamped(s.trace.callbacks, terms.slot)
    case Some(NoFilledOutput) => Tried(terms, s0, s) && |s.trace.lent| == |s0.trace.lent| + 1
    case Some(Cancelled) => s.cancelled
    case Some(DestinationTimeout) =>
      s.trace.lent == s0.trace.lent && HeldUp(ReleaseFds(Answered(s.trace)), s.open, s0.signaled, s0.faulty)
    case Some(NoSource) => s.trace.lent == s0.trace.lent && s.now >= s0.now + terms.patience
    case Some(StaleSource) => terms.token <= 0 || s.stale > s0.stale
    case Some(SourceFenceTimeout) => LeaseLate(s0, s) && (s.now >= s0.now + terms.patience || s.stale > s0.stale)
  }

  /** Nothing but time and signals have passed. */
  ghost predicate Undisturbed(s0: Scene, s1: Scene) {
    && s1.trace == s0.trace && s1.faulty == s0.faulty && s0.signaled <= s1.signaled && s0.now <= s1.now
    && s1.stale == s0.stale && s1.attempts == s0.attempts && s1.filled == s0.filled && s1.failures == s0.failures
  }

  /** The same grounds seen from earlier on. */
  lemma ExplainedSince(failure: Option<Failure>, terms: Terms, s0: Scene, s1: Scene, s: Scene)
    requires Explained(failure, terms, s1, s)
    requires Undisturbed(s0, s1)
    ensures Explained(failure, terms, s0, s)
  {
    if failure == Some(DestinationTimeout) {
      HeldUpSince(ReleaseFds(Answered(s.trace)), s.open, s0.signaled, s1.signaled, s0.faulty);
    }
  }

  lemma HeldUpSince(fds: seq<Fd>, open: Fences, signaled: set<Point>, more: set<Point>, faulty: set<Fd>)
    requires HeldUp(fds, open, more, faulty) && signaled <= more
    ensures HeldUp(fds, open, signaled, faulty)
  {
    var i :| 0 <= i < |fds| && fds[i] >= 0 && fds[i] in open && NotFired(open[fds[i]], fds[i], more, faulty);
    assert NotFired(open[fds[i]], fds[i], signaled, faulty);
  }

  /** Grounds for returning the buffers without having borrowed a source. */
  ghost predicate Unserved(failure: Failure, terms: Terms, pending: seq<Fd>, s0: Scene, s1: Scene) {
    && s1.trace == s0.trace && s1.failures == s0.failures
    && match failure
       case Cancelled => s1.cancelled
       case DestinationTimeout => HeldUp(pending, s1.open, s0.signaled, s0.faulty)
       case StaleSource => terms.token <= 0
       case NoSource => s1.now >= s0.now + terms.patience
       case _ => false
  }

  lemma NoConfiguration(terms: Terms, pending: seq<Fd>, s0: Scene)
    requires terms.token <= 0
    ensures Unserved(StaleSource, terms, pending, s0, s0)
  {
  }

  lemma Refused(request: Request, failure: Failure, terms: Terms, pending: seq<Fd>, s0: Scene, s1: Scene, s: Scene, open0: Fences)
    requires Unserved(failure, terms, pending, s0, s1) && s == s1.(trace := s.trace) && s.trace == s0.trace.(callbacks := s.trace.callbacks)
    requires Settles(request, s0.trace.callbacks, s.trace.callbacks, open0, s.open, s.signaled)
    requires !AnyOk(s.trace.callbacks[|s0.trace.callbacks| + 1].buffers)
    requires ReleaseFds(s.trace.callbacks[|s0.trace.callbacks| + 1].buffers) == pending
    ensures Accomplished(request, s0.trace, s.trace, open0, s.open, s.signaled, s.failures - s0.failures) && Explained(Some(failure), terms, s0, s)
  {
  }

  /** Nothing but one more lease of `buffer`, and perhaps its submission used up. */
  ghost predicate Borrowing(s0: Scene, s1: Scene, buffer: nat) {
    && s1.trace.callbacks == s0.trace.callbacks && s1.trace.returned == s0.trace.returned
    && s1.trace.jobs == s0.trace.jobs && s1.failures == s0.failures
    && |s1.trace.lent| == |s0.trace.lent| + 1 && s1.trace.lent[..|s0.trace.lent|] == s0.trace.lent
    && s1.trace.lent[|s0.trace.lent|].0 == buffer
    && (s1.trace.used == s0.trace.used || s1.trace.used == s0.trace.used + [s1.trace.lent[|s0.trace.lent|].1])
    && s1.faulty == s0.faulty && s1.stale >= s0.stale && s1.attempts == s0.attempts && s1.filled == s0.filled
  }

  /** Grounds for giving a borrowed source back unused. */
  ghost predicate Interrupted(failure: Failure, terms: Terms, fence: Fd, s0: Scene, s1: Scene) {
    match failure
    case Cancelled => s1.cancelled
    case StaleSource => s1.stale > s0.stale
    case SourceFenceTimeout =>
      && fence >= 0 && fence in s1.open && NotFired(s1.open[fence], fence, s0.signaled, s0.faulty)
      && (s1.now >= s0.now + terms.patience || s1.stale > s0.stale)
    case _ => false
  }

  lemma GivenUp(request: Request, failure: Failure, terms: Terms, buffer: nat, fence: Fd, s0: Scene, s1: Scene, s: Scene, open0: Fences)
    requires Borrowing(s0, s1, buffer) && Interrupted(failure, terms, fence, s0, s1)
    requires Settles(request, s0.trace.callbacks, s.trace.callbacks, open0, s.open, s.signaled)
    requires !AnyOk(s.trace.callbacks[|s0.trace.callbacks| + 1].buffers)
    requires s == s1.(trace := s.trace, open := s.open) && s.trace.lent == s1.trace.lent && s.trace.used == s1.trace.used
    requires s.trace.jobs == s1.trace.jobs
    requires |s.trace.returned| == |s0.trace.returned| + 1 && s.trace.returned[..|s0.trace.returned|] == s0.trace.returned
    requires s.trace.returned[|s0.trace.returned|].0 == buffer
    requires fence >= 0 ==> fence in s1.open && s1.open[fence] <= s.trace.returned[|s0.trace.returned|].1
    ensures Accomplished(request, s0.trace, s.trace, open0, s.open, s.signaled, s.failures - s0.failures) && Explained(Some(failure), terms, s0, s)
  {
  }

  lemma Finished(request: Request, failure: Option<Failure>, terms: Terms, buffer: nat, s0: Scene, s1: Scene, s: Scene, open0: Fences)
    requires Borrowing(s0, s1, buffer) && |s1.trace.used| == |s0.trace.used| + 1 && s1.stale == s0.stale
    requires Settles(request, s0.trace.callbacks, s.trace.callbacks, open0, s.open, s.signaled)
    requires s.trace.lent == s1.trace.lent && s.trace.used == s1.trace.used
    requires |s.trace.returned| == |s0.trace.returned| + 1 && s.trace.returned[..|s0.trace.returned|] == s0.trace.returned
    requires s.trace.returned[|s0.trace.returned|].0 == buffer
    requires var buffers := s.trace.callbacks[|s0.trace.callbacks| + 1].buffers;
             && WorkSettled(s0.trace, s.trace, s.open, buffers, s.failures - s0.failures)
             && failure == if AnyOk(buffers) then None else Some(NoFilledOutput)
    requires Tried(terms, s1, s) && (failure.None? ==> Stamped(s.trace.callbacks, terms.slot))
    ensures Accomplished(request, s0.trace, s.trace, open0, s.open, s.signaled, s.failures - s0.failures) && Explained(failure, terms, s0, s)
  {
  }

  class CaptureSession {
    const driver: SyncDriver
    const env: Environment
    const pacer: FramePacer
    const source: SourcePort
    const mapper: BufferMapper
    const compositor: Compositor
    const capabilities: Descriptor
    const enforceCapabilities: bool
    const forceCpuYuv: bool
    const deadlineFrames: nat
    var streams: map<int, int>              // stream id to resolved format
    var outputs: seq<Output>
    var bufferCache: set<(int, int)>
    var haveSettings: bool
    var sourceMode: Mode
    var configurationToken: int
    var startupWaitPending: bool
    var lastSourceSequence: nat
    var closed: bool
    var callbacks: seq<Callback>            // calls made on the framework, in order
    var jpegs: nat
    var gpuYuvs: nat
    var gpuRgbas: nat
    var cpuFills: nat
    var renderAttempts: nat
    ghost var used: seq<nat>                // source sequences consumed, in order

    ghost predicate Valid()
      reads this, env, pacer
    {
      && source.driver == driver && compositor.driver == driver && env.now > 0 && pacer.nextFrameNs >= 0 && pacer.targetFps >= 0
      && Increasing(used, lastSourceSequence)
    }

    constructor (driver: SyncDriver, env: Environment, pacer: FramePacer, source: SourcePort, mapper: BufferMapper,
                 compositor: Compositor, capabilities: Descriptor, enforceCapabilities: bool, forceCpuYuv: bool, deadlineFrames: nat)
      requires source.driver == driver && compositor.driver == driver && env.now > 0 && pacer.nextFrameNs >= 0 && pacer.targetFps >= 0
      ensures Valid() && callbacks == [] && used == [] && !closed && !haveSettings && Filled() == 0
      ensures this.driver == driver && this.env == env && this.pacer == pacer && this.source == source && this.mapper == mapper
      ensures this.compositor == compositor
    {
      this.driver, this.env, this.pacer, this.source := driver, env, pacer, source;
      this.mapper, this.compositor := mapper, compositor;
      this.capabilities, this.enforceCapabilities := capabilities, enforceCapabilities;
      this.forceCpuYuv, this.deadlineFrames := forceCpuYuv, deadlineFrames;
      streams, outputs, bufferCache, haveSettings := map[], [], {}, false;
      sourceMode := Mode(0, 0, 0, 0, 0, [], false);
      configurationToken, startupWaitPending, lastSourceSequence, closed := 0, true, 0, false;
      callbacks, jpegs, gpuYuvs, gpuRgbas, cpuFills, renderAttempts, used := [], 0, 0, 0, 0, 0, [];
    }

    ghost function View(): Trace
      reads this`callbacks, this`used, source`lent, source`returned, compositor
    {
      Trace(callbacks, used, source.lent, source.returned, compositor.jobs)
    }

    ghost function Filled(): nat
      reads this
    {
      jpegs + gpuYuvs + gpuRgbas + cpuFills
    }

    ghost function Now(): Scene
      reads this, source, driver, env, compositor
    {
      Scene(View(), driver.open, driver.signaled, driver.faulty, env.now, env.cancelled, source.stale, renderAttempts, Filled(),
            driver.failures)
    }

    ghost predicate Known(request: Request)
      reads this`streams, this`bufferCache
    {
      forall i :: 0 <= i < |request.buffers| ==> Renderable(request.buffers[i])
    }

    predicate Renderable(b: OutBuffer)
      reads this`streams, this`bufferCache
    {
      b.streamId in streams && (b.streamId, b.bufferId) in bufferCache
    }

    method ImportBuffer(b: OutBuffer) returns (ok: bool)
      modifies this`bufferCache, mapper
      ensures old(bufferCache) <= bufferCache <= old(bufferCache) + (if b.hasHandle then {KeyOf(b)} else {})
      ensures ok <==> (b.streamId, b.bufferId) in bufferCache
      ensures !b.hasHandle ==> bufferCache == old(bufferCache)
      ensures mapper.failures == old(mapper.failures) + if !ok && b.hasHandle then 1 else 0
    {
      if (b.streamId, b.bufferId) in bufferCache {
        return true;
      }
      if !b.hasHandle {
        return false;
      }
      var imported := mapper.Import();
      if !imported {
        return false;
      }
      bufferCache := bufferCache + {(b.streamId, b.bufferId)};
      return true;
    }

    /** Imports every buffer; on failure those imported so far stay cached. */
    method ImportAll(request: Request) returns (ok: bool)
      modifies this`bufferCache, mapper
      ensures old(bufferCache) <= bufferCache <= old(bufferCache) + KeysOf(request) && mapper.failures >= old(mapper.failures)
      ensures ok <==> forall i :: 0 <= i < |request.buffers| ==> (request.buffers[i].streamId, request.buffers[i].bufferId) in bufferCache
      ensures (forall i :: 0 <= i < |request.buffers| ==> Available(request.buffers[i], old(bufferCache))) && !ok ==>
        mapper.failures > old(mapper.failures)
    {
      for i := 0 to |request.buffers|
        invariant old(bufferCache) <= bufferCache <= old(bufferCache) + KeysOf(request) && mapper.failures >= old(mapper.failures)
        invariant forall k :: 0 <= k < i ==> (request.buffers[k].streamId, request.buffers[k].bufferId) in bufferCache
      {
        ok := ImportBuffer(request.buffers[i]);
        if !ok {
          return false;
        }
      }
      return true;
    }

    /** Returns only untouched buffers: a whole-request failure with its fences attached. */
    method FailUntouched(request: Request, pending: seq<Fd>)
      requires |pending| == |request.buffers|
      modifies this`callbacks
      ensures |callbacks| == |old(callbacks)| + 2 && callbacks[..|old(callbacks)|] == old(callbacks)
      ensures Answers(request, callbacks[|old(callbacks)|], callbacks[|old(callbacks)| + 1])
      ensures ReleaseFds(callbacks[|old(callbacks)| + 1].buffers) == pending
      ensures !AnyOk(callbacks[|old(callbacks)| + 1].buffers)
    {
      callbacks := callbacks + [Notify([RequestError(request.frame)])];
      var buffers: seq<ResultBuffer> := [];
      for j := 0 to |request.buffers|
        invariant |buffers| == j
        invariant forall k :: 0 <= k < j ==>
          buffers[k] == ResultBuffer(request.buffers[k].streamId, request.buffers[k].bufferId, false, pending[k])
      {
        var b := request.buffers[j];
        buffers := buffers + [ResultBuffer(b.streamId, b.bufferId, false, pending[j])];
      }
      callbacks := callbacks + [Result(request.frame, buffers, 0)];
    }

    // -------------------------------------------------------------- filling one buffer

    /** JPEG output is only ever encoded; everything else falls back to the CPU converter. Of the
        converters that could fill the buffer the first one is used and counted. */
    method FillOutput(b: OutBuffer, format: int, can: Converters) returns (filled: bool, doneFence: Fd)
      requires compositor.driver == driver
      modifies this`jpegs, this`gpuYuvs, this`gpuRgbas, this`cpuFills, this`renderAttempts, driver`open, driver`signaled, compositor
      ensures old(driver.signaled) <= driver.signaled && doneFence >= -1
      ensures Grown(old(driver.open), driver.open, Fd1(doneFence))
      ensures compositor.jobs == old(compositor.jobs) + if doneFence >= 0 then [Job(b.streamId, b.bufferId, driver.open[doneFence])] else []
      ensures filled <==> CanFill(format, forceCpuYuv, can)
      ensures Filled() == old(Filled()) + if filled then 1 else 0
      ensures renderAttempts == old(renderAttempts) + 1
      ensures format == BLOB ==> doneFence == -1 && Filled() - old(Filled()) == jpegs - old(jpegs)
      ensures format != BLOB ==> jpegs == old(jpegs)
      ensures jpegs != old(jpegs) <==> format == BLOB && can.jpeg
      ensures gpuRgbas != old(gpuRgbas) <==> format != BLOB && can.composite && gpuYuvs == old(gpuYuvs)
      ensures gpuYuvs != old(gpuYuvs) <==> format == YCBCR_420 && !forceCpuYuv && can.ycbcr
      ensures cpuFills != old(cpuFills) <==> format != BLOB && can.cpu && !can.composite && gpuYuvs == old(gpuYuvs)
    {
      renderAttempts := renderAttempts + 1;
      filled, doneFence := false, -1;
      if format == BLOB {
        filled := can.jpeg;
        if filled {
          jpegs := jpegs + 1;
        }
      }
      if !filled && format == YCBCR_420 && !forceCpuYuv {
        filled := can.ycbcr;
        if filled {
          gpuYuvs := gpuYuvs + 1;
        }
      }
      if !filled && format != BLOB {
        doneFence := compositor.Composite(b);
        filled := can.composite;
        if filled {
          gpuRgbas := gpuRgbas + 1;
        }
      }
      if !filled && format != BLOB {
        filled := can.cpu;
        if filled {
          cpuFills := cpuFills + 1;
        }
      }
    }

    /** One output buffer. Unless duplicating it fails, the fence of the work still writing to the
        buffer goes back with it. */
    method RenderOne(b: OutBuffer) returns (r: ResultBuffer, doneFence: Fd, ghost can: Converters)
      requires compositor.driver == driver
      modifies this`jpegs, this`gpuYuvs, this`gpuRgbas, this`cpuFills, this`renderAttempts, driver, compositor, env, source`stale
      ensures old(driver.signaled) <= driver.signaled && env.now >= old(env.now) && (old(env.cancelled) ==> env.cancelled)
      ensures r.streamId == b.streamId && r.bufferId == b.bufferId && r.releaseFence >= -1 && doneFence >= -1
      ensures Grown(old(driver.open), driver.open, Fd1(r.releaseFence) + Fd1(doneFence))
      ensures compositor.jobs == old(compositor.jobs) + JobsOf(driver.open, r, doneFence)
      ensures driver.failures >= old(driver.failures)
      ensures r.releaseFence >= 0 <==> doneFence >= 0 && driver.failures == old(driver.failures)
      ensures driver.failures == old(driver.failures) + if doneFence >= 0 && r.releaseFence < 0 then 1 else 0
      ensures r.releaseFence >= 0 ==> r.releaseFence != doneFence && driver.open[r.releaseFence] == driver.open[doneFence]
      ensures Filled() == old(Filled()) + if r.ok then 1 else 0
      ensures source.stale >= old(source.stale)
      ensures r.ok <==> renderAttempts > old(renderAttempts) && b.streamId in streams && CanFill(streams[b.streamId], forceCpuYuv, can)
      ensures renderAttempts == old(renderAttempts) + if Renderable(b) && !env.cancelled && source.stale == old(source.stale) then 1 else 0
    {
      var filled := false;
      doneFence := -1;
      var outputFence := -1;
      env.Tick();
      var current := source.IsFrameCurrent();
      var outcome: Converters := *;
      can := outcome;
      if b.streamId in streams && (b.streamId, b.bufferId) in bufferCache && !env.cancelled && current {
        filled, doneFence := FillOutput(b, streams[b.streamId], outcome);
        if doneFence >= 0 {
          outputFence := driver.Duplicate(doneFence);
          if outputFence < 0 {
            outputFence := -1;
          }
        }
      }
      r := ResultBuffer(b.streamId, b.bufferId, filled, outputFence);
    }

    /** Every buffer in order. The done fences stay with the session for the source. */
    method RenderAll(request: Request) returns (buffers: seq<ResultBuffer>, done: seq<Fd>)
      requires compositor.driver == driver
      modifies this`jpegs, this`gpuYuvs, this`gpuRgbas, this`cpuFills, this`renderAttempts, driver, compositor, env, source`stale
      ensures old(driver.signaled) <= driver.signaled && env.now >= old(env.now)
      ensures SameBuffers(request, buffers)
      ensures |old(compositor.jobs)| <= |compositor.jobs| && compositor.jobs[..|old(compositor.jobs)|] == old(compositor.jobs)
      ensures Rendered(old(driver.open), driver.open, buffers, done, compositor.jobs[|old(compositor.jobs)|..],
                       driver.failures - old(driver.failures))
      ensures Filled() == old(Filled()) + OkCount(buffers)
      ensures old(env.cancelled) ==> env.cancelled
      ensures source.stale >= old(source.stale)
      ensures Known(request) && !env.cancelled && source.stale == old(source.stale) ==>
        renderAttempts == old(renderAttempts) + |buffers|
    {
      hide Rendered, Grown, JobsOf;
      buffers, done := [], [];
      ghost var jobs, jobs0: seq<Job> := [], compositor.jobs;
      NothingRendered(driver.open);
      for i := 0 to |request.buffers|
        invariant old(driver.signaled) <= driver.signaled && env.now >= old(env.now)
        invariant |buffers| == i && compositor.jobs == jobs0 + jobs
        invariant driver.failures >= old(driver.failures)
        invariant forall k :: 0 <= k < i ==>
          buffers[k].streamId == request.buffers[k].streamId && buffers[k].bufferId == request.buffers[k].bufferId
        invariant Rendered(old(driver.open), driver.open, buffers, done, jobs, driver.failures - old(driver.failures))
        invariant Filled() == old(Filled()) + OkCount(buffers)
        invariant source.stale >= old(source.stale) && (old(env.cancelled) ==> env.cancelled)
        invariant Known(request) && !env.cancelled && source.stale == old(source.stale) ==>
          renderAttempts == old(renderAttempts) + i
      {
        ghost var open, lost := driver.open, driver.failures - old(driver.failures);
        var r, doneFence, _ := RenderOne(request.buffers[i]);
        RenderedAppend(old(driver.open), open, driver.open, buffers, done, jobs, lost, r, doneFence);
        OkCountAppend(buffers, r);
        buffers := buffers + [r];
        if doneFence >= 0 {
          done := done + [doneFence];
        }
        jobs := jobs + JobsOf(driver.open, r, doneFence);
      }
      assert compositor.jobs[|jobs0|..] == jobs;
    }

    // -------------------------------------------------------------- the source of one capture

    /** Polls until a newer frame is lent, the deadline passes or the capture is cancelled. */
    method WaitForSource(deadline: int) returns (buffer: nat, fence: Fd, sequence: nat)
      requires source.driver == driver
      modifies source`lent, driver`open, driver`signaled, env
      ensures old(driver.signaled) <= driver.signaled && env.now >= old(env.now) && (old(env.cancelled) ==> env.cancelled)
      ensures buffer == 0 ==> fence == -1 && source.lent == old(source.lent) && driver.open == old(driver.open)
      ensures buffer != 0 ==> sequence > lastSourceSequence && source.lent == old(source.lent) + [(buffer, sequence)]
      ensures buffer != 0 ==> fence >= -1 && Grown(old(driver.open), driver.open, Fd1(fence))
      ensures buffer == 0 ==> env.cancelled || env.now >= deadline
    {
      buffer, fence, sequence := 0, -1, 0;
      while !env.cancelled
        invariant buffer == 0 && fence == -1 && source.lent == old(source.lent) && driver.open == old(driver.open)
        invariant old(driver.signaled) <= driver.signaled && env.now >= old(env.now) && (old(env.cancelled) ==> env.cancelled)
        decreases if env.cancelled then 0 else 1, deadline - env.now
      {
        buffer, fence, sequence := source.AcquireLatest(lastSourceSequence);
        if buffer != 0 {
          break;
        }
        env.Tick();
        if env.now >= deadline {
          break;
        }
        env.WaitUntil(Capabilities.Min(deadline, env.now + POLL_NS));
      }
    }

    /** Waits for the producer's fence on the CPU; the fd stays with the caller. */
    method WaitSourceFence(fence: Fd, deadline: int) returns (failure: Option<Failure>)
      requires fence >= 0 ==> fence in driver.open
      modifies driver`signaled, env, source`stale
      ensures old(driver.signaled) <= driver.signaled && env.now >= old(env.now) && (old(env.cancelled) ==> env.cancelled)
      ensures source.stale >= old(source.stale)
      ensures failure.None? && fence >= 0 ==> driver.open[fence] <= driver.signaled
      ensures failure.None? ==> source.stale == old(source.stale)
      ensures failure.Some? ==> failure.value in {Cancelled, StaleSource, SourceFenceTimeout}
      ensures failure == Some(Cancelled) ==> env.cancelled
      ensures failure == Some(StaleSource) ==> source.stale > old(source.stale)
      ensures failure == Some(SourceFenceTimeout) ==>
        && fence >= 0 && NotFired(driver.open[fence], fence, old(driver.signaled), driver.faulty)
        && (env.now >= deadline || source.stale > old(source.stale))
    {
      if fence >= 0 {
        var r := driver.Poll(fence);
        while r != 0
          invariant old(driver.signaled) <= driver.signaled && env.now >= old(env.now) && (old(env.cancelled) ==> env.cancelled)
          invariant source.stale == old(source.stale)
          invariant r == 0 ==> driver.open[fence] <= driver.signaled
          invariant r != 0 ==> NotFired(driver.open[fence], fence, old(driver.signaled), driver.faulty)
          decreases if r == 0 then 0 else 1, if env.cancelled then 0 else 1, deadline - env.now
        {
          var current := source.IsFrameCurrent();
          if env.cancelled || !current || env.now >= deadline {
            failure := LateSource(SourceFenceTimeout);
            return;
          }
          env.WaitUntil(Capabilities.Min(deadline, env.now + POLL_NS));
          r := driver.Poll(fence);
        }
      }
      env.Tick();
      var current := source.IsFrameCurrent();
      if env.cancelled || !current {
        return Some(if env.cancelled then Cancelled else StaleSource);
      }
      return None;
    }

    /** Looks again why the wait for a fence ended. */
    method LateSource(otherwise: Failure) returns (failure: Option<Failure>)
      modifies env, source`stale
      ensures env.now >= old(env.now) && (old(env.cancelled) ==> env.cancelled) && source.stale >= old(source.stale)
      ensures (failure == Some(Cancelled) && env.cancelled) || failure == Some(otherwise) ||
              (failure == Some(StaleSource) && source.stale > old(source.stale))
      ensures old(env.cancelled) ==> failure == Some(Cancelled)
    {
      env.Tick();
      if env.cancelled {
        return Some(Cancelled);
      }
      var current := source.IsFrameCurrent();
      return Some(if current then otherwise else StaleSource);
    }

    /** The notification and the result for a capture whose buffers were rendered or tried. */
    method Publish(request: Request, timestamp: int, buffers: seq<ResultBuffer>) returns (anyFilled: bool)
      requires SameBuffers(request, buffers) && timestamp > 0
      modifies this`callbacks
      ensures |callbacks| == |old(callbacks)| + 2 && callbacks[..|old(callbacks)|] == old(callbacks)
      ensures Answers(request, callbacks[|old(callbacks)|], callbacks[|old(callbacks)| + 1])
      ensures callbacks[|old(callbacks)| + 1].buffers == buffers
      ensures anyFilled <==> AnyOk(buffers)
      ensures anyFilled ==> Stamped(callbacks, timestamp)
    {
      anyFilled := false;
      for i := 0 to |buffers|
        invariant callbacks == old(callbacks)
        invariant anyFilled <==> exists k :: 0 <= k < i && buffers[k].ok
      {
        anyFilled := anyFilled || buffers[i].ok;
      }
      var notifications: seq<Message> := [];
      if anyFilled {
        notifications := [Shutter(request.frame, timestamp)];
        for i := 0 to |buffers|
          invariant callbacks == old(callbacks)
          invariant notifications == [Shutter(request.frame, timestamp)] + BufferErrors(request.frame, buffers[..i])
        {
          BufferErrorsNext(request.frame, buffers, i);
          if !buffers[i].ok {
            notifications := notifications + [BufferError(request.frame, buffers[i].streamId)];
          }
        }
        assert buffers[..|buffers|] == buffers;
        assert notifications[1..] == BufferErrors(request.frame, buffers);
      } else {
        notifications := [RequestError(request.frame)];
      }
      assert anyFilled <==> AnyOk(buffers);
      callbacks := callbacks + [Notify(notifications)];
      callbacks := callbacks + [Result(request.frame, buffers, if anyFilled then 1 else 0)];
    }

    // -------------------------------------------------------------- one request

    /** From the source to the answer, once every destination fence has fired. */
    method CaptureFrame(request: Request, pending: seq<Fd>, timestamp: int, interval: int, ghost open0: Fences)
      returns (failure: Option<Failure>)
      requires Valid() && timestamp > 0 && driver.open == open0 && interval >= 0
      requires |pending| == |request.buffers| && forall i :: 0 <= i < |pending| ==> pending[i] == -1
      requires PendingKept(open0, open0, driver.signaled, request, pending)
      modifies this`startupWaitPending, this`lastSourceSequence, this`used, this`callbacks
      modifies this`jpegs, this`gpuYuvs, this`gpuRgbas, this`cpuFills, this`renderAttempts, driver, compositor, env, source`lent, source`returned, source`stale
      ensures Valid() && old(driver.signaled) <= driver.signaled
      ensures Accomplished(request, old(View()), View(), open0, driver.open, driver.signaled, driver.failures - old(driver.failures))
      ensures Explained(failure, Terms(configurationToken, Patience(interval, old(startupWaitPending)), Known(request), timestamp), old(Now()), Now())
    {
      hide Grown, Distinct, PendingKept, Accomplished, Explained, Reserved, Increasing, Unserved, Borrowing, Interrupted, Patience;
      ghost var s0, terms := Now(), Terms(configurationToken, Patience(interval, startupWaitPending), Known(request), timestamp);
      NothingReserved(open0, request, pending);
      if configurationToken <= 0 {
        NoConfiguration(terms, pending, s0);
        Refuse(request, pending, StaleSource, open0, terms, s0);
        return Some(StaleSource);
      }
      var budget := SourceBudget(interval);
      failure := CaptureFromSource(request, pending, timestamp, budget, open0, terms, s0);
    }

    /** Obtain the source, then give up or use it. */
    method CaptureFromSource(request: Request, pending: seq<Fd>, timestamp: int, budget: int, ghost open0: Fences, ghost terms: Terms,
                             ghost s0: Scene) returns (failure: Option<Failure>)
      requires Valid() && timestamp > 0 && driver.open == open0 && s0 == Now() && budget >= terms.patience
      requires |pending| == |request.buffers| && forall i :: 0 <= i < |pending| ==> pending[i] == -1
      requires PendingKept(open0, open0, driver.signaled, request, pending) && Reserved(open0, open0, request, pending)
      requires terms.slot == timestamp && terms.known == Known(request)
      modifies this`lastSourceSequence, this`used, this`callbacks
      modifies this`jpegs, this`gpuYuvs, this`gpuRgbas, this`cpuFills, this`renderAttempts
      modifies driver, compositor, env, source`lent, source`returned, source`stale
      ensures Valid() && old(driver.signaled) <= driver.signaled
      ensures Accomplished(request, s0.trace, View(), open0, driver.open, driver.signaled, driver.failures - s0.failures)
      ensures Explained(failure, terms, s0, Now())
    {
      hide Grown, Distinct, PendingKept, Accomplished, Explained, Reserved, Increasing, Unserved, Borrowing, Interrupted;
      var buffer, fence;
      buffer, fence, failure := ObtainSource(budget, terms, pending);
      StillKept(open0, open0, old(driver.signaled), driver.signaled, request, pending);
      if buffer == 0 {
        Refuse(request, pending, failure.value, open0, terms, s0);
        return;
      }
      if failure.Some? {
        GiveUp(request, pending, buffer, fence, failure.value, open0, terms, s0);
        return;
      }
      failure := UseSource(request, pending, timestamp, buffer, fence, open0, terms, s0);
    }

    /** The source fence fired, so nothing downstream has to wait for it. */
    method UseSource(request: Request, pending: seq<Fd>, timestamp: int, buffer: nat, fence: Fd, ghost open0: Fences,
                     ghost terms: Terms, ghost s0: Scene) returns (failure: Option<Failure>)
      requires source.driver == driver && compositor.driver == driver && timestamp > 0 && fence >= -1 && Grown(open0, driver.open, Fd1(fence))
      requires |pending| == |request.buffers| && forall i :: 0 <= i < |pending| ==> pending[i] == -1
      requires PendingKept(open0, open0, driver.signaled, request, pending)
      requires Borrowing(s0, Now(), buffer) && |used| == |s0.trace.used| + 1 && source.stale == s0.stale
      requires terms.slot == timestamp && terms.known == Known(request)
      modifies this`jpegs, this`gpuYuvs, this`gpuRgbas, this`cpuFills, this`renderAttempts, this`callbacks
      modifies driver, compositor, env, source`returned, source`stale
      ensures old(driver.signaled) <= driver.signaled && env.now >= old(env.now)
      ensures Accomplished(request, s0.trace, View(), open0, driver.open, driver.signaled, driver.failures - s0.failures)
      ensures Explained(failure, terms, s0, Now())
    {
      hide Grown, Distinct, PendingKept, Accomplished, Explained;
      OneFd(open0, driver.open, fence);
      if fence >= 0 {
        driver.Close(fence);
      }
      failure := RenderAndPublish(request, pending, timestamp, buffer, open0, terms, s0);
    }

    /** How long a source is waited for: the configured number of frames, and on the first attempt
        after a configuration no less than 200 milliseconds. */
    function Patience(interval: int, startup: bool): int {
      var frames := interval * deadlineFrames;
      if startup && frames < STARTUP_NS then STARTUP_NS else frames
    }

    lemma PatienceIsEnough(interval: int, startup: bool)
      ensures Patience(interval, startup) >= interval * deadlineFrames && (startup ==> Patience(interval, startup) >= 200_000_000)
      ensures Patience(interval, startup) == interval * deadlineFrames || (startup && Patience(interval, startup) == 200_000_000)
    {
    }

    /** One frame as configured, and at least the startup allowance on a first attempt. */
    method SourceBudget(interval: int) returns (budget: int)
      modifies this`startupWaitPending
      ensures budget == Patience(interval, old(startupWaitPending)) && !startupWaitPending
    {
      budget := interval * deadlineFrames;
      if startupWaitPending {
        budget := Capabilities.Max(budget, STARTUP_NS);
        startupWaitPending := false;
      }
    }

    /** Borrows the newest frame and waits for it on the CPU. A submission is used up once its
        fence is waited for, even if that fails. */
    method ObtainSource(budget: int, ghost terms: Terms, ghost pending: seq<Fd>) returns (buffer: nat, fence: Fd, failure: Option<Failure>)
      requires Valid() && budget >= terms.patience
      modifies this`lastSourceSequence, this`used, source`lent, source`stale, driver`open, driver`signaled, env
      ensures Valid() && old(driver.signaled) <= driver.signaled && env.now >= old(env.now)
      ensures buffer == 0 ==> failure.Some? && driver.open == old(driver.open)
      ensures buffer == 0 ==> Unserved(failure.value, terms, pending, old(Now()), Now())
      ensures buffer != 0 ==> fence >= -1 && Grown(old(driver.open), driver.open, Fd1(fence))
      ensures buffer != 0 ==> Borrowing(old(Now()), Now(), buffer)
      ensures buffer != 0 && failure.Some? ==> Interrupted(failure.value, terms, fence, old(Now()), Now())
      ensures failure.None? ==> |used| == |old(used)| + 1 && source.stale == old(source.stale)
      ensures failure.None? && fence >= 0 ==> fence in driver.open && driver.open[fence] <= driver.signaled
    {
      hide Grown;
      env.Tick();
      var deadline := env.now + budget;
      var sequence;
      buffer, fence, sequence := WaitForSource(deadline);
      env.Tick();
      if buffer != 0 {
        OneFd(old(driver.open), driver.open, fence);
      }
      if buffer == 0 || env.cancelled {
        return buffer, fence, Some(if env.cancelled then Cancelled else NoSource);
      }
      lastSourceSequence := sequence;
      used := used + [sequence];
      failure := WaitSourceFence(fence, deadline);
    }

    /** Source ready, but the capture was cancelled, timed out or lost its configuration. */
    method GiveUp(request: Request, pending: seq<Fd>, buffer: nat, fence: Fd, failure: Failure, ghost open0: Fences,
                  ghost terms: Terms, ghost s0: Scene)
      requires source.driver == driver && fence >= -1 && Grown(open0, driver.open, Fd1(fence))
      requires Reserved(open0, open0, request, pending)
      requires PendingKept(open0, open0, driver.signaled, request, pending)
      requires Borrowing(s0, Now(), buffer) && Interrupted(failure, terms, fence, s0, Now())
      modifies this`callbacks, source`returned, driver`open
      ensures Accomplished(request, s0.trace, View(), open0, driver.open, driver.signaled, driver.failures - s0.failures)
      ensures Explained(Some(failure), terms, s0, Now())
    {
      hide Answers, Grown, Distinct, PendingKept, FencesKept, ReleaseFds, Accomplished, Explained, Interrupted;
      ghost var s1 := Now();
      OneFd(open0, driver.open, fence);
      FailUntouched(request, pending);
      if fence >= 0 {
        PointsOfOne(driver.open, fence);
      }
      source.ReleaseFrame(buffer, if fence >= 0 then [fence] else []);
      UntouchedSettles(open0, driver.open, driver.signaled, request, pending, callbacks[|callbacks| - 1].buffers);
      GivenUp(request, failure, terms, buffer, fence, s0, s1, Now(), open0);
    }

    method RenderAndPublish(request: Request, pending: seq<Fd>, timestamp: int, buffer: nat, ghost open0: Fences,
                            ghost terms: Terms, ghost s0: Scene) returns (failure: Option<Failure>)
      requires source.driver == driver && compositor.driver == driver && timestamp > 0 && driver.open == open0
      requires |pending| == |request.buffers| && forall i :: 0 <= i < |pending| ==> pending[i] == -1
      requires PendingKept(open0, open0, driver.signaled, request, pending)
      requires Borrowing(s0, Now(), buffer) && |used| == |s0.trace.used| + 1 && source.stale == s0.stale
      requires terms.slot == timestamp && terms.known == Known(request)
      modifies this`jpegs, this`gpuYuvs, this`gpuRgbas, this`cpuFills, this`renderAttempts, this`callbacks
      modifies driver, compositor, env, source`returned, source`stale
      ensures old(driver.signaled) <= driver.signaled && env.now >= old(env.now)
      ensures Accomplished(request, s0.trace, View(), open0, driver.open, driver.signaled, driver.failures - s0.failures)
      ensures Explained(failure, terms, s0, Now())
    {
      hide Answers, Rendered, Grown, Distinct, PendingKept, FdsSettled, ReleaseFds, Carried, AllWork, Accomplished, Explained;
      ghost var s1 := Now();
      var buffers, done := RenderAll(request);
      ghost var work, lost := compositor.jobs[|s0.trace.jobs|..], driver.failures - s0.failures;
      StillKept(open0, open0, old(driver.signaled), driver.signaled, request, pending);
      RenderedCount(open0, driver.open, buffers, done, work, lost);
      RenderedSettles(open0, driver.open, driver.signaled, request, pending, buffers, done, work, lost);
      var anyFilled := Publish(request, timestamp, buffers);
      source.ReleaseFrame(buffer, done);
      failure := if anyFilled then None else Some(NoFilledOutput);
      Finished(request, failure, terms, buffer, s0, s1, Now(), open0);
    }

    /** Only untouched buffers go back. */
    method Refuse(request: Request, pending: seq<Fd>, failure: Failure, ghost open0: Fences, ghost terms: Terms, ghost s0: Scene)
      requires Reserved(open0, driver.open, request, pending)
      requires PendingKept(open0, driver.open, driver.signaled, request, pending)
      requires Unserved(failure, terms, pending, s0, Now())
      modifies this`callbacks
      ensures Accomplished(request, s0.trace, View(), open0, driver.open, driver.signaled, driver.failures - s0.failures)
      ensures Explained(Some(failure), terms, s0, Now())
    {
      hide Grown, Distinct, PendingKept, FencesKept, ReleaseFds, Accomplished, Explained;
      ghost var s1 := Now();
      FailUntouched(request, pending);
      UntouchedSettles(open0, driver.open, driver.signaled, request, pending, callbacks[|callbacks| - 1].buffers);
      Refused(request, failure, terms, pending, s0, s1, Now(), open0);
    }

    method Close()
      modifies this`closed, env`cancelled
      ensures closed && env.cancelled
    {
      closed := true;
      env.cancelled := true;
    }

    /** Ok means the framework has its answer; otherwise nothing was told to it and nothing is
        kept. Trap is the division by a zero rate in the pacer. */
    method ProcessSingleRequest(request: Request) returns (status: Status, failure: Option<Failure>)
      requires Valid() && FencesOpen(driver.open, request)
      modifies this`startupWaitPending, this`lastSourceSequence, this`used, this`callbacks, this`closed, this`bufferCache
      modifies this`jpegs, this`gpuYuvs, this`gpuRgbas, this`cpuFills, this`renderAttempts
      modifies driver, compositor, env, source`lent, source`returned, source`stale, mapper, pacer`nextFrameNs
      ensures Valid() && old(driver.signaled) <= driver.signaled
      ensures old(bufferCache) <= bufferCache <= old(bufferCache) + KeysOf(request)
      ensures status == Ok ==> Accomplished(request, old(View()), View(), old(driver.open), driver.open, driver.signaled,
                                         driver.failures - old(driver.failures))
      ensures status == Ok ==> Explained(failure, TermsOf(request, old(startupWaitPending)), old(Now()), Now())
      ensures status != Ok ==> View() == old(View())
      ensures status == IllegalArgument || status == InternalError ==> driver.open == old(driver.open)
      ensures status == InternalError ==> closed && driver.failures > old(driver.failures)
      ensures mapper.failures >= old(mapper.failures)
      ensures status == IllegalArgument && old(ProperNow(request, bufferCache)) ==>
        mapper.failures > old(mapper.failures)
      ensures status == Trap ==> pacer.targetFps == 0
      ensures status == Ok && pacer.targetFps == 0 ==> StoppedEarly(failure)
      ensures status == Ok ==> (failure.None? <==> AnyOk(Answered(View())))
    {
      hide PendingKept, Reserved, Grown, Distinct, Accomplished, Explained, Increasing;
      ghost var open0, s0, startup := driver.open, Now(), startupWaitPending;
      var pending, reserved := ReserveFences(driver, request);
      if !reserved {
        Close();
        return InternalError, None;
      }
      var imported := ImportAll(request);
      if !imported {
        CloseReserved(request, pending, open0);
        return IllegalArgument, None;
      }
      ghost var s1 := Now();
      status, failure := Serve(request, pending, open0);
      if status == Ok {
        ExplainedSince(failure, TermsOf(request, startup), s0, s1, Now());
        PictureIfUnfailed(failure, TermsOf(request, startup), s0, Now());
      }
    }

    /** Dropping the reserved fences undoes the reservation. */
    method CloseReserved(request: Request, pending: seq<Fd>, ghost open0: Fences)
      requires Reserved(open0, driver.open, request, pending)
      modifies driver`open
      ensures driver.open == open0
    {
      HeldAreOpen(open0, driver.open, pending);
      CloseAll(driver, pending);
    }

    /** A request that was taken on: the waits, the pacing and the capture. */
    method Serve(request: Request, fds: seq<Fd>, ghost open0: Fences) returns (status: Status, failure: Option<Failure>)
      requires Valid() && Reserved(open0, driver.open, request, fds) && PendingKept(open0, driver.open, driver.signaled, request, fds)
      modifies this`startupWaitPending, this`lastSourceSequence, this`used, this`callbacks
      modifies this`jpegs, this`gpuYuvs, this`gpuRgbas, this`cpuFills, this`renderAttempts
      modifies driver, compositor, env, source`lent, source`returned, source`stale, pacer`nextFrameNs
      ensures Valid() && old(driver.signaled) <= driver.signaled
      ensures status == Ok || status == Trap
      ensures if pacer.targetFps == 0 then status == Ok ==> StoppedEarly(failure) else status == Ok
      ensures status == Ok ==> Accomplished(request, old(View()), View(), open0, driver.open, driver.signaled, driver.failures - old(driver.failures))
      ensures status == Ok ==> Explained(failure, TermsOf(request, old(startupWaitPending)), old(Now()), Now())
      ensures status == Trap ==> View() == old(View())
    {
      hide PendingKept, Reserved, Grown, Distinct, Accomplished, Explained, HeldUp, Increasing, Aim, Known;
      ghost var s0, startup := Now(), startupWaitPending;
      var pending;
      pending, failure := AwaitFences(driver, env, open0, request, fds);
      if failure.Some? {
        Refuse(request, pending, failure.value, open0, TermsOf(request, startup), s0);
        return Ok, failure;
      }
      NothingHeld(open0, driver.open, request, pending);
      if pacer.targetFps == 0 {
        return Trap, None;
      }
      status := Ok;
      failure := PaceAndCapture(request, pending, open0, s0);
    }

    /** From the pacing on, with every destination fence fired. */
    method PaceAndCapture(request: Request, pending: seq<Fd>, ghost open0: Fences, ghost s0: Scene) returns (failure: Option<Failure>)
      requires Valid() && pacer.targetFps >= 1 && driver.open == open0 && Reserved(open0, open0, request, pending)
      requires |pending| == |request.buffers| && forall i :: 0 <= i < |pending| ==> pending[i] == -1
      requires PendingKept(open0, open0, driver.signaled, request, pending) && Undisturbed(s0, Now())
      modifies this`startupWaitPending, this`lastSourceSequence, this`used, this`callbacks
      modifies this`jpegs, this`gpuYuvs, this`gpuRgbas, this`cpuFills, this`renderAttempts
      modifies driver, compositor, env, source`lent, source`returned, source`stale, pacer`nextFrameNs
      ensures Valid() && old(driver.signaled) <= driver.signaled
      ensures Accomplished(request, s0.trace, View(), open0, driver.open, driver.signaled, driver.failures - s0.failures)
      ensures Explained(failure, TermsOf(request, old(startupWaitPending)), s0, Now())
    {
      hide PendingKept, Reserved, Grown, Distinct, Accomplished, Explained, HeldUp, Increasing, Aim, Known;
      ghost var startup := startupWaitPending;
      var timestamp, _ := pacer.PaceFrame(env);
      env.Tick();
      if env.cancelled {
        Refuse(request, pending, Cancelled, open0, TermsOf(request, startup), s0);
        return Some(Cancelled);
      }
      ghost var s1 := Now();
      failure := CaptureFrame(request, pending, timestamp, Interval(pacer.targetFps), open0);
      ExplainedSince(failure, TermsOf(request, startup), s0, s1, Now());
    }

    /** The slot of the current request is the one the pacer moved past last. */
    ghost function TermsOf(request: Request, startup: bool): Terms
      reads this`configurationToken, this`streams, this`bufferCache, pacer
    {
      var interval := if pacer.targetFps >= 1 then Interval(pacer.targetFps) else 0;
      Terms(configurationToken, Patience(interval, startup), Known(request), pacer.nextFrameNs - interval)
    }

    // -------------------------------------------------------------- settings

    method NegotiateRate(range: seq<int>) returns (fps: int, selected: Mode, ok: bool)
      ensures ok ==> |range| == 2 && RateNegotiated(capabilities, outputs, range[0], range[1], fps, selected.id) && fps >= 0
      ensures ok <==> Negotiable(capabilities, outputs, range)
    {
      fps, selected, ok := 0, sourceMode, false;
      if |range| != 2 {
        return;
      }
      var best := Select(capabilities, outputs, range[0], range[1]);
      if best.None? {
        return;
      }
      selected := best.value;
      fps := Capabilities.Min(range[1], selected.maxFps);
      SelectedRate(capabilities, outputs, range[0], range[1], selected);
      ok := true;
    }

    /** Picks up a rate range: the best mode under it, at the fastest rate both allow. The zero
        upper bound of "no rate given" is accepted too and leaves a zero rate. */
    method UpdateTargetFps(settings: Settings) returns (ok: bool)
      requires Valid()
      modifies this`sourceMode, this`configurationToken, this`startupWaitPending, this`haveSettings, pacer, source`refusals, source`tokens
      ensures Valid()
      ensures !ok || settings == Unchanged ==>
        pacer.targetFps == old(pacer.targetFps) && pacer.nextFrameNs == old(pacer.nextFrameNs) &&
        sourceMode == old(sourceMode) && configurationToken == old(configurationToken) && haveSettings == old(haveSettings)
      ensures source.refusals >= old(source.refusals)
      ensures !ok ==> source.refusals > old(source.refusals) || !SettingsFit(capabilities, outputs, settings)
      ensures old(haveSettings) ==> haveSettings
      ensures ok && settings != Unchanged ==> haveSettings && settings != Malformed
      ensures ok && settings.Given? && settings.rate.Some? ==> |settings.rate.value| == 2
      ensures ok && settings.Given? && settings.rate.Some? ==>
        RateNegotiated(capabilities, outputs, settings.rate.value[0], settings.rate.value[1], pacer.targetFps, sourceMode.id)
      ensures ok && settings == Given(None) ==> pacer.targetFps == old(pacer.targetFps) && sourceMode == old(sourceMode)
      ensures pacer.targetFps != old(pacer.targetFps) || sourceMode.id != old(sourceMode).id ==>
        pacer.nextFrameNs == 0 && configurationToken > 0 && startupWaitPending && source.tokens == old(source.tokens) + [configurationToken]
      ensures pacer.targetFps == old(pacer.targetFps) && sourceMode.id == old(sourceMode).id ==>
        pacer.nextFrameNs == old(pacer.nextFrameNs) && configurationToken == old(configurationToken) &&
        startupWaitPending == old(startupWaitPending)
    {
      hide RateNegotiated, Negotiable, Increasing;
      if enforceCapabilities {
        var current := source.RegistrationCurrent();
        if !current {
          return false;
        }
      }
      if settings == Unchanged {
        return true;
      }
      if settings == Malformed {
        return false;
      }
      var fps, selected := pacer.targetFps, sourceMode;
      if settings.rate.Some? {
        var found;
        fps, selected, found := NegotiateRate(settings.rate.value);
        if !found {
          return false;
        }
      }
      if fps != pacer.targetFps || selected.id != sourceMode.id {
        var token := source.NotifyConfigured();
        if token <= 0 {
          return false;
        }
        configurationToken := token;
        sourceMode, startupWaitPending := selected, true;
        pacer.targetFps, pacer.nextFrameNs := fps, 0;
      }
      haveSettings := true;
      return true;
    }

    // -------------------------------------------------------------- a batch of requests

    predicate ValidRequest(request: Request)
      reads this
    {
      ValidHead(request) && forall i :: 0 <= i < |request.buffers| ==> ValidBuffer(request.buffers[i])
    }

    /** The first request after a configuration must carry settings. */
    predicate ValidHead(request: Request)
      reads this
    {
      request.buffers != [] && request.inputStream == -1 && !(request.settings == Unchanged && request.fmqSize == 0 && !haveSettings)
    }

    predicate ValidBuffer(b: OutBuffer)
      reads this
    {
      WellFormed(b.fence) && b.streamId in streams && Available(b, bufferCache)
    }

    method CheckRequest(request: Request) returns (valid: bool)
      ensures valid <==> ValidRequest(request)
    {
      valid := request.buffers != [] && request.inputStream == -1;
      if request.settings == Unchanged && request.fmqSize == 0 && !haveSettings {
        valid := false;
      }
      for i := 0 to |request.buffers|
        invariant valid <==> (ValidHead(request) && forall k :: 0 <= k < i ==> ValidBuffer(request.buffers[k]))
      {
        if !valid {
          break;
        }
        var b := request.buffers[i];
        if b.fence.ints != 0 || |b.fence.fds| > 1 || (|b.fence.fds| > 0 && b.fence.fds[0] < 0) {
          valid := false;
        } else if b.streamId !in streams {
          valid := false;
        } else if !b.hasHandle && (b.streamId, b.bufferId) !in bufferCache {
          valid := false;
        }
      }
    }

    ghost predicate ProperNow(request: Request, cache: set<(int, int)>)
      reads this`streams, this`haveSettings, this`outputs
    {
      Proper(request, streams.Keys, cache, haveSettings, capabilities, outputs)
    }

    /** The checks before a request is taken on, and its settings. */
    method Admit(request: Request) returns (ok: bool)
      requires Valid()
      modifies this`sourceMode, this`configurationToken, this`startupWaitPending, this`haveSettings, pacer, source`refusals, source`tokens
      ensures Valid() && (old(haveSettings) ==> haveSettings) && source.refusals >= old(source.refusals)
      ensures ok ==> old(ValidRequest(request)) && AllAvailable(request, bufferCache) && Sound(request, streams.Keys) && (pacer.targetFps == 0 <==> AsksForZero(request.settings, old(pacer.targetFps) == 0))
      ensures !ok ==> pacer.targetFps == old(pacer.targetFps)
      ensures ok && !old(haveSettings) ==> BringsSettings(request)
      ensures old(ProperNow(request, bufferCache)) && !ok ==> source.refusals > old(source.refusals)
    {
      hide SettingsFit, RateNegotiated, Increasing;
      ok := CheckRequest(request);
      if ok {
        ok := UpdateTargetFps(request.settings);
        if ok && request.settings.Given? && request.settings.rate.Some? {
          NegotiatedZero(capabilities, outputs, request.settings.rate.value[0], request.settings.rate.value[1], pacer.targetFps, sourceMode.id);
        }
      }
    }

    /** One round of the batch. At a zero rate it ends in the division by zero unless the request is
        cancelled or held up before it gets there; at any other rate it never does. */
    method AdmitAndProcess(request: Request) returns (status: Status, failure: Option<Failure>)
      requires Valid() && FencesOpen(driver.open, request)
      modifies this`sourceMode, this`configurationToken, this`startupWaitPending, this`haveSettings
      modifies this`lastSourceSequence, this`used, this`callbacks, this`closed, this`bufferCache
      modifies this`jpegs, this`gpuYuvs, this`gpuRgbas, this`cpuFills, this`renderAttempts
      modifies driver, compositor, env, source, mapper, pacer
      ensures Valid() && old(driver.signaled) <= driver.signaled
      ensures old(haveSettings) ==> haveSettings
      ensures old(bufferCache) <= bufferCache <= old(bufferCache) + KeysOf(request)
      ensures status == Ok ==> AllAvailable(request, old(bufferCache)) && Sound(request, streams.Keys)
      ensures status == Ok && !old(haveSettings) ==> BringsSettings(request)
      ensures mapper.failures >= old(mapper.failures) && source.refusals >= old(source.refusals)
      ensures status == Ok ==> Accomplished(request, old(View()), View(), old(driver.open), driver.open, driver.signaled,
                                         driver.failures - old(driver.failures))
      ensures status != Ok ==> View() == old(View())
      ensures status == IllegalArgument && old(ProperNow(request, bufferCache)) ==>
        mapper.failures > old(mapper.failures) || source.refusals > old(source.refusals)
      ensures status == InternalError ==> closed && driver.failures > old(driver.failures)
      ensures var zero := AsksForZero(request.settings, old(pacer.targetFps) == 0);
        && (status == Trap ==> zero)
        && (status == Ok && zero ==> StoppedEarly(failure))
        && (status == Ok || status == Trap ==> (pacer.targetFps == 0 <==> zero))
      ensures status == Ok ==> (failure.None? <==> AnyOk(Answered(View())))
      ensures status == Trap ==> pacer.targetFps == 0
    {
      hide Accomplished, Explained, FencesOpen, RateNegotiated, Increasing, Proper, BringsSettings, Sound, KeysOf, AllAvailable, StoppedEarly, AsksForZero, AnyOk, Answered;
      ghost var had := haveSettings;
      var admitted := Admit(request);
      if !admitted {
        return IllegalArgument, None;
      }
      ProperStays(request, streams.Keys, bufferCache, bufferCache, had, haveSettings, capabilities, outputs);
      status, failure := ProcessSingleRequest(request);
    }

    /** `flushing` is the flag as read under the request lock.
        `processed` counts exactly the requests that were answered, in order, once each. */
    method ProcessCaptureRequest(requests: seq<Request>, removals: set<(int, int)>, flushing: bool) returns (status: Status, processed: nat)
      requires Valid() && forall r :: r in requests ==> FencesOpen(driver.open, r)
      modifies this, driver, compositor, env, source, mapper, pacer
      ensures Valid() && old(driver.signaled) <= driver.signaled
      ensures processed <= |requests| && (status == Ok ==> processed == |requests|)
      ensures AnsweredInOrder(requests, processed, old(callbacks), callbacks)
      ensures LeasesPaired(old(View()), View())
      ensures |old(used)| <= |used| <= |old(used)| + processed && used[..|old(used)|] == old(used)
      ensures status == IllegalArgument ==> processed < |requests|
      ensures status == IllegalArgument && old(ProperNow(requests[processed], bufferCache - removals)) ==>
        mapper.failures > old(mapper.failures) || source.refusals > old(source.refusals)
      ensures old(closed) || flushing ==> status == InternalError && processed == 0 && bufferCache == old(bufferCache)
      ensures !old(closed) && !flushing ==>
        old(bufferCache) - removals <= bufferCache <= (old(bufferCache) - removals) + Supplied(requests, if processed < |requests| then processed + 1 else processed)
      ensures processed > 0 && !old(haveSettings) ==> BringsSettings(requests[0])
      ensures NamedKnown(requests, processed, old(streams).Keys, old(bufferCache) - removals)
      ensures status == Trap ==> processed < |requests| && ZeroAfter(requests, processed + 1, old(pacer.targetFps) == 0)
      ensures NoPictureAtZero(requests, processed, old(pacer.targetFps) == 0, old(callbacks), callbacks)
    {
      hide AnsweredInOrder, LeasesPaired, NamedKnown, NoPictureAtZero, Answered, StoppedEarly, Proper, BringsSettings, Sound, KeysOf, AllAvailable, Accomplished, AsksForZero, AnyOk, FencesOpen, RateNegotiated, Increasing, Batch, Supplied, ZeroAfter;
      ghost var was, had, known0, cache, t0 := pacer.targetFps == 0, haveSettings, streams.Keys, bufferCache - removals, View();
      BatchBegins(requests, was, had, known0, cache, t0);
      processed := 0;
      if closed || flushing {
        BatchMeans(requests, 0, was, had, known0, cache, t0, t0, cache, was);
        return InternalError, 0;
      }
      bufferCache := bufferCache - removals;
      env.cancelled := *;
      for i := 0 to |requests|
        invariant Valid() && old(driver.signaled) <= driver.signaled && processed == i
        invariant forall r :: r in requests ==> FencesOpen(driver.open, r)
        invariant Batch(requests, i, was, had, known0, cache, t0, View(), bufferCache, pacer.targetFps == 0)
        invariant streams == old(streams) && outputs == old(outputs) && (old(haveSettings) ==> haveSettings)
        invariant cache <= bufferCache
        invariant i == 0 ==> haveSettings == old(haveSettings)
        invariant mapper.failures >= old(mapper.failures) && source.refusals >= old(source.refusals)
      {
        var request := requests[i];
        ProperStays(request, streams.Keys, cache, bufferCache, old(haveSettings), haveSettings, capabilities, outputs);
        ghost var t, open, failures, known, zero := View(), driver.open, driver.failures, bufferCache, pacer.targetFps == 0;
        var single, failure := AdmitAndProcess(request);
        if single != Ok {
          BatchEnds(requests, i, was, had, known0, cache, t0, t, known, zero, bufferCache);
          return single, processed;
        }
        BatchGoesOn(requests, i, was, had, known0, cache, t0, t, known, zero, failure, View(), open, driver.open, driver.signaled,
                    driver.failures - failures, bufferCache, pacer.targetFps == 0);
        processed := processed + 1;
      }
      BatchMeans(requests, |requests|, was, had, known0, cache, t0, View(), bufferCache, pacer.targetFps == 0);
      return Ok, processed;
    }
  }

  /** How far a batch has come: its answers, leases and used sequences, the buffers named and the
      cache now, and whether the rate is zero. */
  ghost predicate Batch(requests: seq<Request>, n: nat, was: bool, had: bool, streams: set<int>, cache: set<(int, int)>, t0: Trace, t: Trace,
                        now: set<(int, int)>, zero: bool)
  {
    && n <= |requests| && AnsweredInOrder(requests, n, t0.callbacks, t.callbacks) && LeasesPaired(t0, t)
    && |t0.used| <= |t.used| <= |t0.used| + n && t.used[..|t0.used|] == t0.used
    && cache <= now <= cache + Supplied(requests, n) && NamedKnown(requests, n, streams, cache)
    && (n > 0 && !had ==> BringsSettings(requests[0]))
    && zero == ZeroAfter(requests, n, was) && NoPictureAtZero(requests, n, was, t0.callbacks, t.callbacks)
  }

  lemma BatchBegins(requests: seq<Request>, was: bool, had: bool, streams: set<int>, cache: set<(int, int)>, t: Trace)
    ensures Batch(requests, 0, was, had, streams, cache, t, t, cache, was)
  {
    NothingYet(requests, t);
    NothingYetAtZero(requests, was, t.callbacks);
    NothingNamed(requests, streams, cache);
  }

  lemma BatchMeans(requests: seq<Request>, n: nat, was: bool, had: bool, streams: set<int>, cache: set<(int, int)>, t0: Trace, t: Trace, now: set<(int, int)>, zero: bool)
    requires Batch(requests, n, was, had, streams, cache, t0, t, now, zero)
    ensures n <= |requests| && AnsweredInOrder(requests, n, t0.callbacks, t.callbacks) && LeasesPaired(t0, t)
    ensures |t0.used| <= |t.used| <= |t0.used| + n && t.used[..|t0.used|] == t0.used
    ensures cache <= now <= cache + Supplied(requests, n) && NamedKnown(requests, n, streams, cache)
    ensures n > 0 && !had ==> BringsSettings(requests[0])
    ensures zero == ZeroAfter(requests, n, was) && NoPictureAtZero(requests, n, was, t0.callbacks, t.callbacks)
  {
    hide AnsweredInOrder, LeasesPaired, NamedKnown, NoPictureAtZero, Supplied, ZeroAfter;
  }

  /** A request that is not answered may still have brought buffers. */
  lemma BatchEnds(requests: seq<Request>, n: nat, was: bool, had: bool, streams: set<int>, cache: set<(int, int)>, t0: Trace, t: Trace, now: set<(int, int)>, zero: bool,
                  after: set<(int, int)>)
    requires n < |requests| && Batch(requests, n, was, had, streams, cache, t0, t, now, zero) && now <= after <= now + KeysOf(requests[n])
    ensures AnsweredInOrder(requests, n, t0.callbacks, t.callbacks) && LeasesPaired(t0, t)
    ensures |t0.used| <= |t.used| <= |t0.used| + n && t.used[..|t0.used|] == t0.used
    ensures cache <= after <= cache + Supplied(requests, n + 1) && NamedKnown(requests, n, streams, cache)
    ensures n > 0 && !had ==> BringsSettings(requests[0])
    ensures ZeroAfter(requests, n + 1, was) == AsksForZero(requests[n].settings, zero)
    ensures NoPictureAtZero(requests, n, was, t0.callbacks, t.callbacks)
  {
    BatchMeans(requests, n, was, had, streams, cache, t0, t, now, zero);
    hide Batch, AnsweredInOrder, LeasesPaired, NamedKnown, NoPictureAtZero, KeysOf;
  }

  lemma BatchGoesOn(requests: seq<Request>, n: nat, was: bool, had: bool, streams: set<int>, cache: set<(int, int)>, t0: Trace, t: Trace, now: set<(int, int)>, zero: bool,
                    failure: Option<Failure>, t': Trace, open: Fences, open': Fences, signaled: set<Point>, lost: int,
                    now': set<(int, int)>, zero': bool)
    requires n < |requests| && Batch(requests, n, was, had, streams, cache, t0, t, now, zero)
    requires Accomplished(requests[n], t, t', open, open', signaled, lost)
    requires (failure.None? <==> AnyOk(Answered(t'))) && zero' == AsksForZero(requests[n].settings, zero) && (zero' ==> StoppedEarly(failure))
    requires now <= now' <= now + KeysOf(requests[n]) && AllAvailable(requests[n], now) && Sound(requests[n], streams)
    requires n == 0 && !had ==> BringsSettings(requests[0])
    ensures Batch(requests, n + 1, was, had, streams, cache, t0, t', now', zero')
    ensures forall r :: FencesOpen(open, r) ==> FencesOpen(open', r)
  {
    BatchMeans(requests, n, was, had, streams, cache, t0, t, now, zero);
    OneMoreKnown(requests, n, streams, cache, now);
    OneMoreAnswer(requests, n, t0, t, t', open, open', signaled, lost);
    OneMoreAtZero(requests, n, was, failure, t0, t, t', open, open', signaled, lost);
    hide AnsweredInOrder, LeasesPaired, NamedKnown, NoPictureAtZero, Accomplished, KeysOf, AllAvailable, FencesOpen, AsksForZero, StoppedEarly, Sound, BringsSettings;
  }

  /** Some mode runs all outputs in this range. */
  ghost predicate Negotiable(c: Descriptor, outputs: seq<Output>, range: seq<int>) {
    |range| == 2 && !Selected(c, outputs, range[0], range[1], None)
  }

  ghost predicate SettingsFit(c: Descriptor, outputs: seq<Output>, settings: Settings) {
    settings == Unchanged || (settings.Given? && (settings.rate.Some? ==> Negotiable(c, outputs, settings.rate.value)))
  }

  /** Settings without a rate always fit, and a rate range does exactly if select finds a mode. */
  lemma WhichSettingsFit(c: Descriptor, outputs: seq<Output>, low: int, high: int, r: Option<Mode>)
    requires Selected(c, outputs, low, high, r)
    ensures SettingsFit(c, outputs, Unchanged) && SettingsFit(c, outputs, Given(None)) && !SettingsFit(c, outputs, Malformed)
    ensures SettingsFit(c, outputs, Given(Some([low, high]))) <==> r.Some?
  {
  }

  /** Nothing in the request itself is a reason to reject it. */
  ghost predicate Proper(request: Request, streams: set<int>, cache: set<(int, int)>, haveSettings: bool, c: Descriptor, outputs: seq<Output>) {
    && request.buffers != [] && request.inputStream == -1
    && !(request.settings == Unchanged && request.fmqSize == 0 && !haveSettings)
    && SettingsFit(c, outputs, request.settings)
    && forall i :: 0 <= i < |request.buffers| ==>
         WellFormed(request.buffers[i].fence) && request.buffers[i].streamId in streams && Available(request.buffers[i], cache)
  }

  lemma ProperStays(request: Request, streams: set<int>, cache: set<(int, int)>, more: set<(int, int)>, had: bool, have: bool,
                    c: Descriptor, outputs: seq<Output>)
    requires cache <= more && (had ==> have)
    ensures Proper(request, streams, cache, had, c, outputs) ==> Proper(request, streams, more, have, c, outputs)
  {
  }

  ghost predicate RateNegotiated(c: Descriptor, outputs: seq<Output>, low: int, high: int, fps: int, id: int) {
    exists mode :: Selected(c, outputs, low, high, Some(mode)) && mode.id == id && fps == Capabilities.Min(high, mode.maxFps) &&
      (high >= 1 ==> low <= fps <= high && mode.minFps <= fps <= mode.maxFps) && (fps == 0 <==> high == 0)
  }

  lemma SelectedRate(c: Descriptor, outputs: seq<Output>, low: int, high: int, mode: Mode)
    requires Selected(c, outputs, low, high, Some(mode))
    ensures high >= 0 && Capabilities.Min(high, mode.maxFps) >= 0
    ensures RateNegotiated(c, outputs, low, high, Capabilities.Min(high, mode.maxFps), mode.id)
  {
    assert ValidMode(mode);
    if high >= 1 {
      NegotiatedRateFits(c, outputs, low, high, mode);
    }
  }

  /** Whatever could be configured also accepts a rate range with upper bound zero, whose rate the
      pacer then divides by. */
  lemma ZeroRateIsAccepted(c: Descriptor, outputs: seq<Output>, low: int, mode: Mode)
    requires Selected(c, outputs, 0, 0, Some(mode))
    ensures Selected(c, outputs, low, 0, Some(mode)) && RateNegotiated(c, outputs, low, 0, 0, mode.id)
  {
    forall m | Candidate(c, outputs, low, 0, m) ensures Before(mode, m) {
      assert Candidate(c, outputs, 0, 0, m);
    }
    SelectedRate(c, outputs, low, 0, mode);
  }

  ghost predicate AnsweredInOrder(requests: seq<Request>, n: nat, callbacks0: seq<Callback>, callbacks: seq<Callback>) {
    && n <= |requests| && |callbacks| == |callbacks0| + 2 * n && callbacks[..|callbacks0|] == callbacks0
    && forall k :: 0 <= k < n ==> Answers(requests[k], callbacks[|callbacks0| + 2 * k], callbacks[|callbacks0| + 2 * k + 1])
  }

  /** Every lease taken since t0 was given back once, in order. */
  ghost predicate LeasesPaired(t0: Trace, t: Trace) {
    && |t0.lent| <= |t.lent| && t.lent[..|t0.lent|] == t0.lent
    && |t.returned| - |t0.returned| == |t.lent| - |t0.lent| && t.returned[..|t0.returned|] == t0.returned
    && forall i :: |t0.lent| <= i < |t.lent| ==> t.returned[i - |t0.lent| + |t0.returned|].0 == t.lent[i].0
  }

  lemma NothingYet(requests: seq<Request>, t: Trace)
    ensures AnsweredInOrder(requests, 0, t.callbacks, t.callbacks) && LeasesPaired(t, t)
  {
  }

  /** Requests answered while the rate was zero got no picture. */
  ghost predicate NoPictureAtZero(requests: seq<Request>, n: nat, was: bool, callbacks0: seq<Callback>, callbacks: seq<Callback>) {
    n <= |requests| && |callbacks| == |callbacks0| + 2 * n &&
    forall k :: 0 <= k < n && ZeroAfter(requests, k + 1, was) ==>
      callbacks[|callbacks0| + 2 * k + 1].Result? && !AnyOk(callbacks[|callbacks0| + 2 * k + 1].buffers)
  }

  lemma NothingYetAtZero(requests: seq<Request>, was: bool, callbacks: seq<Callback>)
    ensures NoPictureAtZero(requests, 0, was, callbacks, callbacks)
  {
  }

  lemma OneMoreAtZero(requests: seq<Request>, n: nat, was: bool, failure: Option<Failure>, t0: Trace, t: Trace, t': Trace,
                      open: Fences, open': Fences, signaled: set<Point>, lost: int)
    requires n < |requests| && NoPictureAtZero(requests, n, was, t0.callbacks, t.callbacks)
    requires Accomplished(requests[n], t, t', open, open', signaled, lost)
    requires failure.None? <==> AnyOk(Answered(t'))
    requires AsksForZero(requests[n].settings, ZeroAfter(requests, n, was)) ==> StoppedEarly(failure)
    ensures NoPictureAtZero(requests, n + 1, was, t0.callbacks, t'.callbacks)
  {
    AnswerIsLast(requests[n], t, t', open, open', signaled, lost);
    hide Accomplished, AnyOk, AsksForZero, Answered, ZeroAfter;
    assert ZeroAfter(requests, n + 1, was) == AsksForZero(requests[n].settings, ZeroAfter(requests, n, was)) by {
      ZeroNext(requests, n, was);
    }
    forall k | 0 <= k < n + 1 && ZeroAfter(requests, k + 1, was)
      ensures t'.callbacks[|t0.callbacks| + 2 * k + 1].Result? && !AnyOk(t'.callbacks[|t0.callbacks| + 2 * k + 1].buffers)
    {
      if k < n {
        var at := |t0.callbacks| + 2 * k + 1;
        assert t'.callbacks[..|t.callbacks|][at] == t.callbacks[at];
      } else {
        assert |t0.callbacks| + 2 * k + 1 == |t'.callbacks| - 1;
      }
    }
  }

  lemma ZeroNext(requests: seq<Request>, n: nat, was: bool)
    requires n < |requests|
    ensures ZeroAfter(requests, n + 1, was) == AsksForZero(requests[n].settings, ZeroAfter(requests, n, was))
  {
  }

  lemma AnswerIsLast(request: Request, t: Trace, t': Trace, open: Fences, open': Fences, signaled: set<Point>, lost: int)
    requires Accomplished(request, t, t', open, open', signaled, lost)
    ensures |t'.callbacks| == |t.callbacks| + 2 && t'.callbacks[..|t.callbacks|] == t.callbacks
    ensures t'.callbacks[|t'.callbacks| - 1].Result? && Answered(t') == t'.callbacks[|t'.callbacks| - 1].buffers
  {
    hide AnyOk, FdsSettled, LeaseBalanced, SourceConsumed, WorkSettled, SameBuffers;
  }

  lemma PictureIfUnfailed(failure: Option<Failure>, terms: Terms, s0: Scene, s: Scene)
    requires Explained(failure, terms, s0, s)
    ensures failure.None? <==> AnyOk(Answered(s.trace))
  {
  }

  lemma NegotiatedZero(c: Descriptor, outputs: seq<Output>, low: int, high: int, fps: int, id: int)
    requires RateNegotiated(c, outputs, low, high, fps, id)
    ensures fps == 0 <==> high == 0
  {
  }

  lemma OneMoreAnswer(requests: seq<Request>, n: nat, t0: Trace, t: Trace, t': Trace, open: Fences, open': Fences, signaled: set<Point>,
                      lost: int)
    requires n < |requests| && AnsweredInOrder(requests, n, t0.callbacks, t.callbacks) && LeasesPaired(t0, t)
    requires |t0.used| <= |t.used| <= |t0.used| + n && t.used[..|t0.used|] == t0.used
    requires Accomplished(requests[n], t, t', open, open', signaled, lost)
    ensures AnsweredInOrder(requests, n + 1, t0.callbacks, t'.callbacks) && LeasesPaired(t0, t')
    ensures |t0.used| <= |t'.used| <= |t0.used| + n + 1 && t'.used[..|t0.used|] == t0.used
    ensures forall r :: FencesOpen(open, r) ==> FencesOpen(open', r)
  {
    assert t'.callbacks[|t.callbacks| + 1].Result?;
    hide Answers;
    assert Grown(open, open', Held(ReleaseFds(t'.callbacks[|t.callbacks| + 1].buffers)));
    assert open.Keys <= open'.Keys;
    assert forall k :: 0 <= k < |t.callbacks| ==> t'.callbacks[k] == t.callbacks[k];
    assert t'.used[..|t0.used|] == t'.used[..|t.used|][..|t0.used|];
    assert t'.callbacks[..|t0.callbacks|] == t'.callbacks[..|t.callbacks|][..|t0.callbacks|];
    assert t'.lent[..|t0.lent|] == t'.lent[..|t.lent|][..|t0.lent|];
    assert t'.returned[..|t0.returned|] == t'.returned[..|t.returned|][..|t0.returned|];
    assert forall k :: 0 <= k < |t.lent| ==> t'.lent[k] == t.lent[k];
    assert forall k :: 0 <= k < |t.returned| ==> t'.returned[k] == t.returned[k];
  }

  lemma HeldAreOpen(open0: Fences, open: Fences, pending: seq<Fd>)
    requires Grown(open0, open, Held(pending))
    ensures Held(pending) <= open.Keys && open - Held(pending) == open0
  {
    Shrunk(open0, open, Held(pending));
  }

  /** At most one fd was opened; it can be given back. */
  lemma OneFd(open0: Fences, open: Fences, fd: Fd)
    requires fd >= -1 && Grown(open0, open, Fd1(fd))
    ensures fd >= 0 ==> fd in open && open - {fd} == open0
    ensures fd < 0 ==> open == open0
    ensures var fds := if fd >= 0 then [fd] else [];
            Distinct(fds) && Held(fds) <= open.Keys && open - Held(fds) == open0
  {
    if fd >= 0 {
      assert [fd][0] == fd;
      Shrunk(open0, open, {fd});
    } else {
      Shrunk(open0, open, {});
      assert open - {} == open;
    }
  }

  lemma BufferErrorsNext(frame: int, buffers: seq<ResultBuffer>, i: nat)
    requires i < |buffers|
    ensures BufferErrors(frame, buffers[..i + 1]) ==
            BufferErrors(frame, buffers[..i]) + (if buffers[i].ok then [] else [BufferError(frame, buffers[i].streamId)])
  {
    assert buffers[..i + 1][..i] == buffers[..i];
  }

  function OkCount(buffers: seq<ResultBuffer>): nat {
    if buffers == [] then 0 else OkCount(buffers[..|buffers| - 1]) + if buffers[|buffers| - 1].ok then 1 else 0
  }

  lemma OkCountAppend(buffers: seq<ResultBuffer>, r: ResultBuffer)
    ensures OkCount(buffers + [r]) == OkCount(buffers) + if r.ok then 1 else 0
  {
    assert (buffers + [r])[..|buffers|] == buffers;
  }

  /** Fences on the result buffers and done fences are new and apart; there is one done fence per
      job, and one fence on its buffer except for the lost ones. */
  ghost predicate Rendered(open0: Fences, open: Fences, buffers: seq<ResultBuffer>, done: seq<Fd>, jobs: seq<Job>, lost: int) {
    var kept := ReleaseFds(buffers);
    && Distinct(kept) && Distinct(done) && Held(kept) !! Held(done)
    && Grown(open0, open, Held(kept) + Held(done))
    && DoneAre(open, done, jobs)
    && Carried(open, buffers, jobs, lost)
  }

  ghost predicate DoneAre(open: Fences, done: seq<Fd>, jobs: seq<Job>) {
    |done| == |jobs| && forall i :: 0 <= i < |done| ==> done[i] >= 0 && done[i] in open && open[done[i]] == jobs[i].work
  }

  lemma GrownTwice(a: Fences, b: Fences, c: Fences, fds: set<Fd>, more: set<Fd>)
    requires Grown(a, b, fds) && Grown(b, c, more)
    ensures Grown(a, c, fds + more) && fds !! more
  {
  }

  lemma NothingRendered(open: Fences)
    ensures Rendered(open, open, [], [], [], 0)
  {
  }

  /** The jobs one buffer adds. */
  ghost function JobsOf(open: Fences, r: ResultBuffer, doneFence: Fd): seq<Job> {
    if doneFence >= 0 then [Job(r.streamId, r.bufferId, PointsAt(open, doneFence))] else []
  }

  lemma RenderedAppend(open0: Fences, open: Fences, open': Fences, buffers: seq<ResultBuffer>, done: seq<Fd>,
                       jobs: seq<Job>, lost: int, r: ResultBuffer, doneFence: Fd)
    requires Rendered(open0, open, buffers, done, jobs, lost) && r.releaseFence >= -1 && doneFence >= -1
    requires Grown(open, open', Fd1(r.releaseFence) + Fd1(doneFence))
    requires r.releaseFence >= 0 ==> doneFence >= 0 && r.releaseFence != doneFence && open'[r.releaseFence] == open'[doneFence]
    ensures Rendered(open0, open', buffers + [r], if doneFence >= 0 then done + [doneFence] else done,
                     jobs + JobsOf(open', r, doneFence), lost + if doneFence >= 0 && r.releaseFence < 0 then 1 else 0)
  {
    hide Distinct, Carried, Fenced, DoneAre, PointsOf, Held;
    var done' := if doneFence >= 0 then done + [doneFence] else done;
    var kept := ReleaseFds(buffers);
    assert ReleaseFds(buffers + [r]) == kept + [r.releaseFence];
    GrownTwice(open0, open, open', Held(kept) + Held(done), Fd1(r.releaseFence) + Fd1(doneFence));
    HeldAppend(kept, r.releaseFence);
    if doneFence >= 0 {
      HeldAppend(done, doneFence);
    }
    assert Held(done') == Held(done) + Fd1(doneFence);
    assert Held(kept + [r.releaseFence]) + Held(done') == Held(kept) + Held(done) + (Fd1(r.releaseFence) + Fd1(doneFence));
    FencedStable(open, open', buffers);
    DoneAppend(open, open', done, jobs, r, doneFence);
    CarriedAppend(open, open', buffers, jobs, lost, r, doneFence);
  }

  lemma DoneAppend(open: Fences, open': Fences, done: seq<Fd>, jobs: seq<Job>, r: ResultBuffer, doneFence: Fd)
    requires DoneAre(open, done, jobs) && forall fd :: fd in open ==> fd in open' && open'[fd] == open[fd]
    requires doneFence >= 0 ==> doneFence in open'
    ensures DoneAre(open', if doneFence >= 0 then done + [doneFence] else done, jobs + JobsOf(open', r, doneFence))
  {
  }

  lemma CarriedAppend(open: Fences, open': Fences, buffers: seq<ResultBuffer>, jobs: seq<Job>, lost: int, r: ResultBuffer, doneFence: Fd)
    requires Carried(open, buffers, jobs, lost) && Fenced(open', buffers) == Fenced(open, buffers)
    requires r.releaseFence >= 0 ==>
      doneFence >= 0 && r.releaseFence in open' && doneFence in open' && open'[r.releaseFence] == open'[doneFence]
    ensures Carried(open', buffers + [r], jobs + JobsOf(open', r, doneFence), lost + if doneFence >= 0 && r.releaseFence < 0 then 1 else 0)
  {
    LostCount(open, buffers, jobs, lost);
    assert (buffers + [r])[..|buffers|] == buffers;
  }

  lemma LostCount(open: Fences, buffers: seq<ResultBuffer>, jobs: seq<Job>, lost: int)
    requires Carried(open, buffers, jobs, lost)
    ensures lost >= 0 && |multiset(jobs) - multiset(Fenced(open, buffers))| == lost && (jobs == [] ==> lost == 0)
  {
    var fenced := Fenced(open, buffers);
    var all, some := multiset(jobs), multiset(fenced);
    assert |some| == |fenced| && |all| == |jobs|;
    assert all == (all - some) + some;
    assert |all| == |all - some| + |some|;
  }

  // ---------------------------------------------------------------- which fences come back

  lemma {:induction false} FencedOnABuffer(open: Fences, buffers: seq<ResultBuffer>, k: nat) returns (i: nat)
    requires k < |Fenced(open, buffers)|
    ensures i < |buffers| && buffers[i].releaseFence >= 0
    ensures Fenced(open, buffers)[k] == Job(buffers[i].streamId, buffers[i].bufferId, PointsAt(open, buffers[i].releaseFence))
    decreases |buffers|
  {
    var init := buffers[..|buffers| - 1];
    if k < |Fenced(open, init)| {
      i := FencedOnABuffer(open, init, k);
    } else {
      i := |buffers| - 1;
    }
  }

  /** If no duplication failed, every job's fence is on the buffer the job writes to. */
  lemma AllWorkIsFenced(open: Fences, buffers: seq<ResultBuffer>, jobs: seq<Job>, k: nat)
    requires Carried(open, buffers, jobs, 0) && k < |jobs|
    ensures exists i ::
              0 <= i < |buffers| && buffers[i].releaseFence >= 0 &&
              jobs[k] == Job(buffers[i].streamId, buffers[i].bufferId, PointsAt(open, buffers[i].releaseFence))
  {
    var i := FencedOnABuffer(open, buffers, k);
  }

  /** If one failed, some job is missing among the fences that come back. */
  lemma LostFenceLeavesWork(open: Fences, buffers: seq<ResultBuffer>, jobs: seq<Job>, lost: int)
    requires Carried(open, buffers, jobs, lost)
    ensures lost >= 0
    ensures lost > 0 <==> exists job :: job in jobs && multiset(Fenced(open, buffers))[job] < multiset(jobs)[job]
  {
    LostCount(open, buffers, jobs, lost);
    var missing := multiset(jobs) - multiset(Fenced(open, buffers));
    if lost > 0 {
      var job :| job in missing;
      assert job in jobs;
    }
  }

  const PLAIN: Request := Request(1, [OutBuffer(1, 1, true, Handle(0, []))], -1, Unchanged, 1)
  const BARE: ResultBuffer := ResultBuffer(1, 1, true, -1)
  const BEFORE: Trace := Trace([], [], [], [], [])
  const AFTER: Trace :=
    Trace([Notify([Shutter(1, 5)]), Result(1, [BARE], 1)], [1], [(7, 1)], [(7, {3})], [Job(1, 1, {3})])

  /** One buffer, one job, its duplication refused: the framework gets the buffer as good, with
      no fence, while the job has not fired. Had the duplication worked this could not happen. */
  lemma LostFenceGoesUnnoticed()
    ensures Accomplished(PLAIN, BEFORE, AFTER, map[], map[], {}, 1) && !Accomplished(PLAIN, BEFORE, AFTER, map[], map[], {}, 0)
    ensures BARE in AFTER.callbacks[1].buffers && BARE.ok && BARE.releaseFence < 0 && !(AFTER.jobs[0].work <= {})
  {
    assert [BARE][0].ok;
    assert BufferErrors(1, [BARE]) == [];
    assert Fenced(map[], [BARE]) == [];
    assert forall fd :: fd !in Held(ReleaseFds([BARE]));
    assert AllWork(AFTER.jobs) == {3} by {
      assert AFTER.jobs[0].work == {3};
    }
    assert AFTER.jobs[0..] == AFTER.jobs;
    assert 3 in AFTER.jobs[0].work;
  }

  /** What an output buffer waits for, the producer's buffer waits for too. */
  lemma FencesAreRecorded(open: Fences, buffers: seq<ResultBuffer>, jobs: seq<Job>, lost: int, i: nat)
    requires Carried(open, buffers, jobs, lost) && i < |buffers| && buffers[i].releaseFence >= 0
    ensures PointsAt(open, buffers[i].releaseFence) <= AllWork(jobs)
  {
    var job := Job(buffers[i].streamId, buffers[i].bufferId, PointsAt(open, buffers[i].releaseFence));
    BufferIsFenced(open, buffers, i);
    assert multiset(jobs)[job] > 0;
    var k :| 0 <= k < |jobs| && jobs[k] == job;
    assert forall p :: p in jobs[k].work ==> p in AllWork(jobs);
  }

  lemma {:induction false} BufferIsFenced(open: Fences, buffers: seq<ResultBuffer>, i: nat)
    requires i < |buffers| && buffers[i].releaseFence >= 0
    ensures Job(buffers[i].streamId, buffers[i].bufferId, PointsAt(open, buffers[i].releaseFence)) in Fenced(open, buffers)
    decreases |buffers|
  {
    if i < |buffers| - 1 {
      BufferIsFenced(open, buffers[..|buffers| - 1], i);
    }
  }
}
