/** What one slot of the vendor HAL may do under its lock
    (hal/aidl-v1/VirtualCameraStableHal.cpp), as relations between the state before and
    after each locked section. Fences are the sets of points they wait for; `signaled` is
    what had fired by the end of the section. */
module HalSpec {
  import opened Wrappers
  import opened ReadFences

  const MAX_IDENTITY: int := 0x7fff_ffff_ffff_ffff
  const MAX_PENDING_READS: nat := 16
  const RGBA_8888: int := 1

  datatype Desc = Desc(width: int, height: int, format: int)

  /** The newest frame of a slot; `ahb == 0` is the null pointer of an empty slot. */
  datatype Frame = Frame(ahb: nat, desc: Desc, timestamp: int, sequence: nat, token: int,
                         acquire: Option<set<Point>>, pending: seq<set<Point>>, inflight: nat, retiring: bool)

  const EMPTY_FRAME: Frame := Frame(0, Desc(0, 0, 0), 0, 0, 0, None, [], 0, false)

  /** `caps` is the registration number of the slot's descriptor, if any. */
  datatype Slot = Slot(frame: Frame, owner: int, config: int, ownerClosed: bool, caps: Option<int>,
                       ready: bool, width: int, height: int)

  /** A slot together with the counters all slots share. */
  datatype Cell = Cell(slot: Slot, next: int, received: nat)

  /** What a capture holds between acquireLatest and releaseFrame. */
  datatype Lease = Lease(ahb: nat, sequence: nat, token: int, desc: Desc)

  datatype Outcome = Accepted(retired: Option<set<Point>>) | Rejected(code: int)

  const EMPTY_SLOT: Slot := Slot(EMPTY_FRAME, 0, 0, false, None, false, 0, 0)

  ghost predicate OnlyFrame(c: Cell, c': Cell) {
    c' == c.(slot := c.slot.(frame := c'.slot.frame))
  }

  /** reapRetiringLocked */
  ghost predicate Reap(f: Frame, f': Frame, signaled: set<Point>) {
    if !f.retiring then f' == f
    else if f' == EMPTY_FRAME then f.inflight == 0 && AllPoints(f.pending) <= signaled
    else
      f' == f.(pending := f'.pending) && Settled(f.pending, f'.pending, signaled) &&
      (f.inflight > 0 || f'.pending != [])
  }

  /** dropLatestLocked */
  ghost predicate Drop(f: Frame, f': Frame, signaled: set<Point>) {
    Reap(f.(retiring := true), f', signaled)
  }

  ghost predicate Admitted(s: Slot, token: int, desc: Desc) {
    s.config == token && (s.caps.None? || (s.ready && desc == Desc(s.width, s.height, RGBA_8888)))
  }

  /** The first half of enqueue, up to the wait for readers; None means it goes on. */
  ghost predicate BeforeWait(c: Cell, c': Cell, token: int, desc: Desc, signaled: set<Point>, res: Option<int>) {
    OnlyFrame(c, c') &&
    if !Admitted(c.slot, token, desc) then c' == c && res == Some(7)
    else
      Reap(c.slot.frame, c'.slot.frame, signaled) &&
      res == if c'.slot.frame.retiring then Some(4) else None
  }

  /** The second half, after the wait ended with the readers gone or with its timeout. */
  ghost predicate AfterWait(c: Cell, c': Cell, token: int, desc: Desc, ahb: nat, timestamp: int,
                            acquire: Option<set<Point>>, signaled: set<Point>, res: Outcome) {
    var f, f' := c.slot.frame, c'.slot.frame;
    if f.ahb != 0 && f.inflight > 0 then c' == c && res == Rejected(4)
    else if !Admitted(c.slot, token, desc) then c' == c && res == Rejected(7)
    else match res
      case Rejected(code) =>
        OnlyFrame(c, c') &&
        (|| (code == 4 && f.retiring && f'.retiring && Reap(f, f', signaled))
         || (code == 6 && !f.retiring && |f'.pending| > 1 && f' == f.(pending := f'.pending) &&
             Settled(f.pending, f'.pending, signaled)))
      case Accepted(retired) =>
        c' == c.(received := c.received + 1, slot := c.slot.(frame :=
          Frame(ahb, desc, timestamp, c.received + 1, token, acquire, [], 0, false))) &&
        (if f.retiring then Reap(f, EMPTY_FRAME, signaled) && retired == None
         else Settled(f.pending, if retired.Some? then [retired.value] else [], signaled))
  }

  ghost predicate AcquireLatest(c: Cell, c': Cell, token: int, after: nat, signaled: set<Point>, res: Option<Lease>) {
    var f, f' := c.slot.frame, c'.slot.frame;
    OnlyFrame(c, c') &&
    if f.token != token || (token > 0 && c.slot.config != token) || f.ahb == 0 || f.retiring || f.sequence <= after
    then c' == c && res == None
    else
      Settled(f.pending, f'.pending, signaled) &&
      if res.Some? then
        && |f'.pending| + f.inflight < MAX_PENDING_READS
        && f' == f.(pending := f'.pending, inflight := f.inflight + 1)
        && res.value == Lease(f.ahb, f.sequence, f.token, f.desc)
      else
        && f' == f.(pending := f'.pending)
        && (|f'.pending| + f.inflight >= MAX_PENDING_READS || f.acquire.Some?)
  }

  ghost predicate ReleaseFrame(c: Cell, c': Cell, ahb: nat, fences: seq<set<Point>>, signaled: set<Point>) {
    var f, f' := c.slot.frame, c'.slot.frame;
    OnlyFrame(c, c') &&
    if f.ahb != ahb then c' == c
    else
      var f1 := f.(pending := f.pending + fences, inflight := if f.inflight > 0 then f.inflight - 1 else 0);
      if f.retiring then Reap(f1, f', signaled)
      else f' == f1.(pending := f'.pending) && Settled(f1.pending, f'.pending, signaled)
  }

  ghost predicate AllocateIdentity(c: Cell, c': Cell, identity: int) {
    if c.next == MAX_IDENTITY then c' == c && identity == 0
    else c' == c.(next := c.next + 1) && identity == c.next + 1
  }

  /** notifyStreamsConfigured up to the callback. */
  ghost predicate NotifyConfigured(c: Cell, c': Cell, owner: int, width: int, height: int,
                                   signaled: set<Point>, token: int) {
    if owner <= 0 || owner < c.slot.owner || (owner == c.slot.owner && c.slot.ownerClosed) || c.next == MAX_IDENTITY
    then c' == c && token == 0
    else
      && token == c.next + 1
      && Drop(c.slot.frame, c'.slot.frame, signaled)
      && c' == c.(next := token, slot := c.slot.(owner := owner, ownerClosed := false, config := token,
                  ready := c.slot.caps.None?, width := width, height := height, frame := c'.slot.frame))
  }

  ghost predicate NotifyClosed(c: Cell, c': Cell, owner: int, token: int, signaled: set<Point>) {
    if owner <= 0 || token <= 0 || c.slot.owner != owner || c.slot.config != token then c' == c
    else
      && Drop(c.slot.frame, c'.slot.frame, signaled)
      && c' == c.(slot := c.slot.(config := 0, ready := false, ownerClosed := true, frame := c'.slot.frame))
  }

  ghost predicate SetReady(c: Cell, c': Cell, token: int, ready: bool, signaled: set<Point>, ok: bool) {
    if token <= 0 || c.slot.config != token || c.slot.caps.None? || c.slot.ownerClosed then c' == c && !ok
    else
      && ok
      && (if ready then c'.slot.frame == c.slot.frame else Drop(c.slot.frame, c'.slot.frame, signaled))
      && c' == c.(slot := c.slot.(ready := ready, config := if ready then token else 0, frame := c'.slot.frame))
  }

  ghost predicate RegisterProducer(c: Cell, c': Cell, registration: int, ok: bool) {
    if c.slot.caps.Some? || registration <= 0 then c' == c && !ok
    else ok && c' == c.(slot := c.slot.(caps := Some(registration), ready := false, config := 0))
  }

  /** What removeProducer does to its slot and setCallback to every slot when the
      callback object is replaced. */
  ghost predicate Revoke(c: Cell, c': Cell, signaled: set<Point>) {
    && Drop(c.slot.frame, c'.slot.frame, signaled)
    && c' == c.(next := if c.next < MAX_IDENTITY then c.next + 1 else c.next,
                slot := c.slot.(config := 0, ready := false, ownerClosed := true, caps := None,
                        owner := if c.next < MAX_IDENTITY then c.next + 1 else c.slot.owner,
                        frame := c'.slot.frame))
  }
}
