/** The v2 shared-memory ring (v2-shared-memory/SharedBufferPool.h) between a renderer
    process (RendererInterface.h, virtual_camera_writer_v2.cpp) and the HAL
    (HalInterface.h): every interleaving of their atomic loads and stores, each taken as one
    sequentially consistent step. A run covers fewer than 2^32 writes per index. */
module V2Protocol {
  import opened Wrappers

  const MAX_BUFFERS: nat := 4
  const RING_SIZE: nat := 16

  datatype Entry = Entry(buffer: nat, timestamp: int)

  /** The control ring; `busy[b]` is bufferState[b] == 1. */
  datatype Shared = Shared(write: nat, read: nat, slots: seq<Entry>,
                           relWrite: nat, relRead: nat, relSlots: seq<nat>, busy: seq<bool>)

  /** Where the renderer is: draining the release ring, looking for a free buffer, or
      submitting. Its own indices need no load. */
  datatype Producer =
    | PIdle
    | Drain
    | Drained          // an entry is pending; its index is not stored yet
    | Scan(at: nat)
    | CheckRoom(entry: Entry)
    | FillSlot(entry: Entry)
    | Publish(entry: Entry)
    | NoRoom(entry: Entry)

  /** Where the HAL is. `latest` is the frame kept so far; while a skipped buffer is released,
      `next` is the newer frame. `drain` tells acquireLatestFrame from acquireNextFrame. */
  datatype Consumer =
    | CIdle
    | Poll(latest: Option<nat>, drain: bool)
    | Take(latest: Option<nat>, drain: bool)
    | Advance(out: Entry, latest: Option<nat>, drain: bool)
    | RelCheck(buffer: nat, next: Option<nat>)
    | RelFill(buffer: nat, next: Option<nat>)
    | RelFree(buffer: nat, next: Option<nat>)
    | RelPublish(buffer: nat, next: Option<nat>)

  /** `owned`: frames the renderer began and did not submit; `held`: frames the HAL returned to
      its caller; `lost`: buffers whose release was refused. `submitted` and `taken` are the
      histories of both ends. */
  datatype State = State(ring: Shared, producer: Producer, consumer: Consumer, owned: multiset<nat>, held: multiset<nat>,
                         lost: multiset<nat>, submitted: seq<Entry>, taken: seq<Entry>)

  ghost predicate Init(n: nat, s: State) {
    1 <= n <= MAX_BUFFERS && |s.ring.slots| == RING_SIZE && |s.ring.relSlots| == RING_SIZE &&
    s == State(Shared(0, 0, s.ring.slots, 0, 0, s.ring.relSlots, seq(n, i => false)), PIdle, CIdle, multiset{}, multiset{}, multiset{}, [], [])
  }

  // ---------------------------------------------------------------- renderer steps

  ghost predicate ProducerStep(s: State, s': State) {
    var ring := s.ring;
    match s.producer
    case PIdle =>
      (|| s' == s.(producer := Drain)                                              // beginFrame
       || (exists e: Entry :: e.buffer in s.owned && s' == s.(producer := CheckRoom(e)))  // submitFrame, endFrame
       || (exists b :: b in s.owned && b < |ring.busy| &&                          // the CPU lock failed: releaseBuffer
             s' == s.(owned := s.owned - multiset{b}, ring := ring.(busy := ring.busy[b := false]))))
    case Drain => s' == s.(producer := if ring.relRead >= ring.relWrite then Scan(0) else Drained)
    case Drained => s' == s.(producer := Drain, ring := ring.(relRead := ring.relRead + 1))
    case Scan(at) =>
      if at >= |ring.busy| then s' == s.(producer := PIdle)
      else if ring.busy[at] then s' == s.(producer := Scan(at + 1))
      else s' == s.(producer := PIdle, owned := s.owned + multiset{at}, ring := ring.(busy := ring.busy[at := true]))
    case CheckRoom(e) => s' == s.(producer := if ring.write - ring.read >= RING_SIZE then NoRoom(e) else FillSlot(e))
    case FillSlot(e) =>
      |ring.slots| == RING_SIZE &&
      s' == s.(producer := Publish(e), ring := ring.(slots := ring.slots[ring.write % RING_SIZE := e]))
    case Publish(e) =>
      s' == s.(producer := PIdle, owned := s.owned - multiset{e.buffer}, submitted := s.submitted + [e],
               ring := ring.(write := ring.write + 1))
    case NoRoom(e) => // tryWrite failed: releaseBuffer, the frame is dropped
      e.buffer < |ring.busy| &&
      s' == s.(producer := PIdle, owned := s.owned - multiset{e.buffer}, ring := ring.(busy := ring.busy[e.buffer := false]))
  }

  // ---------------------------------------------------------------- HAL steps

  function AfterRelease(next: Option<nat>): Consumer {
    if next.Some? then Poll(next, true) else CIdle
  }

  ghost predicate ConsumerStep(s: State, s': State) {
    var ring := s.ring;
    match s.consumer
    case CIdle =>
      (|| s' == s.(consumer := Poll(None, true))
       || s' == s.(consumer := Poll(None, false))
       || (exists b :: b in s.held && s' == s.(consumer := RelCheck(b, None), held := s.held - multiset{b}))) // releaseFrame
    case Poll(latest, drain) =>
      if ring.read >= ring.write
      then s' == s.(consumer := CIdle, held := if latest.Some? then s.held + multiset{latest.value} else s.held)
      else s' == s.(consumer := Take(latest, drain))
    case Take(latest, drain) =>
      |ring.slots| == RING_SIZE && s' == s.(consumer := Advance(ring.slots[ring.read % RING_SIZE], latest, drain))
    case Advance(out, latest, drain) =>
      var moved := s.(ring := ring.(read := ring.read + 1), taken := s.taken + [out]);
      if latest.Some? then s' == moved.(consumer := RelCheck(latest.value, Some(out.buffer)))
      else if drain then s' == moved.(consumer := Poll(Some(out.buffer), true))
      else s' == moved.(consumer := CIdle, held := s.held + multiset{out.buffer})
    case RelCheck(b, next) =>
      if ring.relWrite - ring.relRead >= RING_SIZE
      then s' == s.(consumer := AfterRelease(next), lost := s.lost + multiset{b})
      else s' == s.(consumer := RelFill(b, next))
    case RelFill(b, next) =>
      |ring.relSlots| == RING_SIZE &&
      s' == s.(consumer := RelFree(b, next), ring := ring.(relSlots := ring.relSlots[ring.relWrite % RING_SIZE := b]))
    case RelFree(b, next) =>
      b < |ring.busy| && s' == s.(consumer := RelPublish(b, next), ring := ring.(busy := ring.busy[b := false]))
    case RelPublish(b, next) =>
      s' == s.(consumer := AfterRelease(next), ring := ring.(relWrite := ring.relWrite + 1))
  }

  ghost predicate Next(s: State, s': State) {
    ProducerStep(s, s') || ConsumerStep(s, s')
  }

  ghost predicate Run(n: nat, run: seq<State>) {
    run != [] && Init(n, run[0]) && forall i :: 0 <= i < |run| - 1 ==> Next(run[i], run[i + 1])
  }

  // ---------------------------------------------------------------- invariants

  /** The submitted frame is one the renderer owns. */
  ghost predicate Submitting(s: State) {
    (s.producer.CheckRoom? || s.producer.FillSlot? || s.producer.Publish? || s.producer.NoRoom?) ==>
      s.producer.entry.buffer in s.owned
  }

  ghost function OptBag(b: Option<nat>): multiset<nat> {
    if b.Some? then multiset{b.value} else multiset{}
  }

  /** Buffers the HAL is working on, between the ring and its caller or the release. */
  ghost function Carried(c: Consumer): multiset<nat> {
    match c
    case CIdle => multiset{}
    case Poll(latest, _) => OptBag(latest)
    case Take(latest, _) => OptBag(latest)
    case Advance(_, latest, _) => OptBag(latest)
    case RelCheck(b, next) => multiset{b} + OptBag(next)
    case RelFill(b, next) => multiset{b} + OptBag(next)
    case RelFree(b, next) => multiset{b} + OptBag(next)
    case RelPublish(_, next) => OptBag(next)
  }

  ghost function Buffers(entries: seq<Entry>): multiset<nat> {
    if entries == [] then multiset{}
    else Buffers(entries[..|entries| - 1]) + multiset{entries[|entries| - 1].buffer}
  }

  /** The frames between submission and reading. */
  ghost function InRing(s: State): seq<Entry>
    requires s.ring.read <= |s.submitted|
  {
    s.submitted[s.ring.read..]
  }

  ghost function Busy(s: State): set<nat> {
    set b | 0 <= b < |s.ring.busy| && s.ring.busy[b]
  }

  ghost predicate Indices(s: State) {
    && |s.ring.slots| == RING_SIZE && |s.ring.relSlots| == RING_SIZE
    && s.ring.read <= s.ring.write == |s.submitted|
    && s.ring.relRead <= s.ring.relWrite
  }

  /** The ring holds the submitted frames not read yet, and frames are read in the order they
      were submitted. */
  ghost predicate InOrder(s: State)
    requires Indices(s)
  {
    && (forall i :: s.ring.read <= i < s.ring.write ==> s.ring.slots[i % RING_SIZE] == s.submitted[i])
    && s.taken == s.submitted[..s.ring.read]
    && (s.producer.Publish? ==> s.ring.write - s.ring.read < RING_SIZE &&
                                s.ring.slots[s.ring.write % RING_SIZE] == s.producer.entry)
    && (s.producer.FillSlot? ==> s.ring.write - s.ring.read < RING_SIZE)
    && ((s.consumer.Take? || s.consumer.Advance?) ==> s.ring.read < s.ring.write)
    && (s.consumer.Advance? ==> s.consumer.out == s.submitted[s.ring.read])
    && (s.producer.Drained? ==> s.ring.relRead < s.ring.relWrite)
  }

  /** Where the buffers are that are not free. */
  ghost function Placed(s: State): multiset<nat>
    requires s.ring.read <= |s.submitted|
  {
    (s.owned + Buffers(InRing(s))) + (Carried(s.consumer) + s.held)
  }

  /** Every buffer is in exactly one place: free, with the renderer, in the submit ring, being
      moved by the HAL, or with the HAL's caller. */
  ghost predicate OnePlace(s: State)
    requires Indices(s)
  {
    Placed(s) == multiset(Busy(s)) && s.lost == multiset{}
  }

  ghost function Releasing(c: Consumer): nat {
    if c.RelPublish? then 1 else 0
  }

  /** Release entries pending, the one being published, and busy buffers. */
  ghost function Potential(s: State): int {
    s.ring.relWrite - s.ring.relRead + Releasing(s.consumer) + |Busy(s)|
  }

  ghost predicate PotentialBounded(n: nat, s: State) {
    Potential(s) <= if s.producer.Scan? then n + 1 else n + 2
  }

  ghost predicate Inv(n: nat, s: State) {
    && n <= MAX_BUFFERS && |s.ring.busy| == n
    && Indices(s) && Submitting(s) && InOrder(s) && OnePlace(s) && PotentialBounded(n, s)
    && !s.producer.NoRoom?
  }

  // ---------------------------------------------------------------- proof

  lemma {:induction false} BuffersCount(entries: seq<Entry>)
    ensures |Buffers(entries)| == |entries|
  {
    if entries != [] {
      BuffersCount(entries[..|entries| - 1]);
    }
  }

  lemma {:induction false} BuffersSplit(first: Entry, rest: seq<Entry>)
    ensures Buffers([first] + rest) == multiset{first.buffer} + Buffers(rest)
  {
    var all := [first] + rest;
    if rest == [] {
      assert all[..|all| - 1] == [];
    } else {
      BuffersSplit(first, rest[..|rest| - 1]);
      assert all[..|all| - 1] == [first] + rest[..|rest| - 1];
    }
  }

  lemma {:induction false} BelowBound(s: set<nat>, n: nat)
    requires forall b :: b in s ==> b < n
    ensures |s| <= n
  {
    if n > 0 {
      BelowBound(s - {n - 1}, n - 1);
    }
  }

  lemma BusyCount(n: nat, s: State)
    requires Inv(n, s)
    ensures |Busy(s)| <= n
  {
    BelowBound(Busy(s), n);
  }

  /** The submit ring always has room for a frame the renderer owns. */
  lemma RoomToSubmit(n: nat, s: State, b: nat)
    requires Inv(n, s) && b in s.owned
    ensures s.ring.write - s.ring.read < n
  {
    BuffersCount(InRing(s));
    BusyCount(n, s);
    assert |Placed(s)| == |Busy(s)|;
  }

  lemma InitInv(n: nat, s: State)
    requires Init(n, s)
    ensures Inv(n, s)
  {
    assert Busy(s) == {};
  }

  lemma SetBusy(s: State, s': State, b: nat, value: bool)
    requires b < |s.ring.busy| && s'.ring.busy == s.ring.busy[b := value] && s.ring.busy[b] != value
    ensures if value then multiset(Busy(s')) == multiset(Busy(s)) + multiset{b} && |Busy(s')| == |Busy(s)| + 1
            else multiset(Busy(s')) == multiset(Busy(s)) - multiset{b} && |Busy(s')| == |Busy(s)| - 1
  {
    assert Busy(s') == if value then Busy(s) + {b} else Busy(s) - {b};
  }

  lemma PlacedIsBusy(s: State, b: nat)
    requires Indices(s) && OnePlace(s) && b in Placed(s)
    ensures b < |s.ring.busy| && s.ring.busy[b]
  {
    assert b in Busy(s);
  }

  /** A renderer step that only moves its program counter. */
  lemma ProducerMoves(n: nat, s: State, s': State)
    requires Inv(n, s) && s' == s.(producer := s'.producer)
    requires Submitting(s') && InOrder(s') && !s'.producer.NoRoom?
    requires s'.producer.Scan? ==> Potential(s) <= n + 1
    ensures Inv(n, s')
  {
  }

  /** A buffer the renderer owns goes back to free without being submitted. */
  lemma GiveBackInv(n: nat, s: State, s': State, b: nat)
    requires Inv(n, s) && s.producer.PIdle? && b in s.owned && b < |s.ring.busy|
    requires s' == s.(owned := s.owned - multiset{b}, ring := s.ring.(busy := s.ring.busy[b := false]))
    ensures Inv(n, s')
  {
    PlacedIsBusy(s, b);
    SetBusy(s, s', b, false);
  }

  lemma ClaimInv(n: nat, s: State, s': State)
    requires Inv(n, s) && s.producer.Scan? && ProducerStep(s, s')
    ensures Inv(n, s')
  {
    var at := s.producer.at;
    if at < |s.ring.busy| && !s.ring.busy[at] {
      SetBusy(s, s', at, true);
    } else {
      ProducerMoves(n, s, s');
    }
  }

  /** Fewer than RING_SIZE entries never share a slot. */
  lemma SlotsApart(i: nat, write: nat)
    requires i < write < i + RING_SIZE
    ensures i % RING_SIZE != write % RING_SIZE
  {
  }

  /** The slot being filled is none the HAL may still read. */
  lemma FillInv(n: nat, s: State, s': State)
    requires Inv(n, s) && s.producer.FillSlot? && ProducerStep(s, s')
    ensures Inv(n, s')
  {
    forall i | s.ring.read <= i < s.ring.write ensures s'.ring.slots[i % RING_SIZE] == s.submitted[i] {
      SlotsApart(i, s.ring.write);
    }
    assert Busy(s') == Busy(s);
  }

  lemma PublishInv(n: nat, s: State, s': State)
    requires Inv(n, s) && s.producer.Publish? && ProducerStep(s, s')
    ensures Inv(n, s')
  {
    var e := s.producer.entry;
    assert InRing(s') == InRing(s) + [e];
    assert InRing(s')[..|InRing(s)|] == InRing(s);
    assert Busy(s') == Busy(s);
    PublishOrder(n, s, s');
  }

  lemma PublishOrder(n: nat, s: State, s': State)
    requires Inv(n, s) && s.producer.Publish? && ProducerStep(s, s')
    ensures Indices(s') && InOrder(s')
  {
  }

  lemma ProducerInv(n: nat, s: State, s': State)
    requires Inv(n, s) && ProducerStep(s, s')
    ensures Inv(n, s')
  {
    match s.producer
    case PIdle =>
      if b :| b in s.owned && b < |s.ring.busy| && s' == s.(owned := s.owned - multiset{b}, ring := s.ring.(busy := s.ring.busy[b := false])) {
        GiveBackInv(n, s, s', b);
      } else {
        ProducerMoves(n, s, s');
      }
    case Drain =>
      BusyCount(n, s);
      ProducerMoves(n, s, s');
    case Drained => assert Busy(s') == Busy(s);
    case Scan(at) => ClaimInv(n, s, s');
    case CheckRoom(e) =>
      RoomToSubmit(n, s, e.buffer);
      ProducerMoves(n, s, s');
    case FillSlot(e) => FillInv(n, s, s');
    case Publish(e) => PublishInv(n, s, s');
  }

  /** A HAL step that only hands its buffers on. */
  lemma ConsumerMoves(n: nat, s: State, s': State)
    requires Inv(n, s) && s' == s.(consumer := s'.consumer, held := s'.held)
    requires Carried(s'.consumer) + s'.held == Carried(s.consumer) + s.held
    requires Releasing(s'.consumer) == Releasing(s.consumer) && InOrder(s')
    ensures Inv(n, s')
  {
    assert Busy(s') == Busy(s);
    assert Placed(s') == Placed(s);
  }

  lemma MoveOne(a: multiset<nat>, b: multiset<nat>, x: nat, c: multiset<nat>)
    ensures (a + (multiset{x} + b)) + c == (a + b) + (c + multiset{x})
  {
  }

  lemma AdvancePlaces(s: State, s': State)
    requires Indices(s) && s.ring.read < s.ring.write && s.consumer.Advance? && ConsumerStep(s, s')
    requires s.consumer.out == s.submitted[s.ring.read]
    ensures Placed(s') == Placed(s)
  {
    var out := s.consumer.out;
    assert InRing(s) == [out] + InRing(s');
    BuffersSplit(out, InRing(s'));
    MoveOne(s.owned, Buffers(InRing(s')), out.buffer, Carried(s.consumer) + s.held);
    assert Carried(s'.consumer) + s'.held == Carried(s.consumer) + s.held + multiset{out.buffer};
    hide Carried, Buffers, InRing, ConsumerStep, Indices;
  }

  lemma AdvanceInv(n: nat, s: State, s': State)
    requires Inv(n, s) && s.consumer.Advance? && ConsumerStep(s, s')
    ensures Inv(n, s')
  {
    AdvancePlaces(s, s');
    assert Busy(s') == Busy(s);
    AdvanceOrder(n, s, s');
  }

  lemma AdvanceOrder(n: nat, s: State, s': State)
    requires Inv(n, s) && s.consumer.Advance? && ConsumerStep(s, s')
    ensures Indices(s') && InOrder(s')
  {
    assert s.submitted[..s.ring.read + 1] == s.submitted[..s.ring.read] + [s.submitted[s.ring.read]];
  }

  lemma RelFreeInv(n: nat, s: State, s': State)
    requires Inv(n, s) && s.consumer.RelFree? && ConsumerStep(s, s')
    ensures Inv(n, s')
  {
    var b := s.consumer.buffer;
    PlacedIsBusy(s, b);
    SetBusy(s, s', b, false);
  }

  /** The release ring always has room, so no release is refused and no buffer is lost. */
  lemma RoomToRelease(n: nat, s: State)
    requires Inv(n, s)
    ensures s.ring.relWrite - s.ring.relRead < RING_SIZE
  {
  }

  lemma RelFillInv(n: nat, s: State, s': State)
    requires Inv(n, s) && s.consumer.RelFill? && ConsumerStep(s, s')
    ensures Inv(n, s')
  {
    assert Busy(s') == Busy(s);
    assert Placed(s') == Placed(s);
    assert InOrder(s');
  }

  lemma RelPublishInv(n: nat, s: State, s': State)
    requires Inv(n, s) && s.consumer.RelPublish? && ConsumerStep(s, s')
    ensures Inv(n, s')
  {
    assert Busy(s') == Busy(s);
    assert Carried(s'.consumer) == Carried(s.consumer);
    assert Placed(s') == Placed(s);
    assert InOrder(s');
  }

  lemma ConsumerInv(n: nat, s: State, s': State)
    requires Inv(n, s) && ConsumerStep(s, s')
    ensures Inv(n, s')
  {
    if s.consumer.Advance? {
      AdvanceInv(n, s, s');
    } else if s.consumer.RelFill? {
      RelFillInv(n, s, s');
    } else if s.consumer.RelPublish? {
      RelPublishInv(n, s, s');
    } else if s.consumer.RelFree? {
      RelFreeInv(n, s, s');
    } else {
      RoomToRelease(n, s);
      ConsumerMoves(n, s, s');
    }
  }

  // ---------------------------------------------------------------- whole runs

  lemma {:induction false} RunInv(n: nat, run: seq<State>, i: nat)
    requires Run(n, run) && i < |run|
    ensures Inv(n, run[i])
  {
    if i == 0 {
      InitInv(n, run[0]);
    } else {
      RunInv(n, run, i - 1);
      if ProducerStep(run[i - 1], run[i]) {
        ProducerInv(n, run[i - 1], run[i]);
      } else {
        ConsumerInv(n, run[i - 1], run[i]);
      }
    }
  }

  /** Every buffer is in exactly one place at every moment of every run. */
  lemma EveryBufferInOnePlace(n: nat, run: seq<State>, i: nat, b: nat)
    requires Run(n, run) && i < |run| && b < n
    ensures |run[i].ring.busy| == n && run[i].ring.read <= |run[i].submitted|
    ensures run[i].owned[b] + Buffers(InRing(run[i]))[b] + Carried(run[i].consumer)[b] + run[i].held[b] ==
            if run[i].ring.busy[b] then 1 else 0
    ensures run[i].lost == multiset{}
  {
    RunInv(n, run, i);
    assert Placed(run[i])[b] == multiset(Busy(run[i]))[b];
  }

  /** Neither ring is ever full when its writer looks, so tryWrite and tryWriteRelease never
      fail. */
  lemma RingsNeverFull(n: nat, run: seq<State>, i: nat)
    requires Run(n, run) && i < |run|
    ensures !run[i].producer.NoRoom?
    ensures run[i].producer.CheckRoom? ==> run[i].ring.write - run[i].ring.read < n
    ensures run[i].consumer.RelCheck? ==> run[i].ring.relWrite - run[i].ring.relRead <= n + 2 < RING_SIZE
    ensures run[i].owned == multiset{} ==> run[i].ring.write - run[i].ring.read <= n
  {
    RunInv(n, run, i);
    var s := run[i];
    if s.producer.CheckRoom? {
      RoomToSubmit(n, s, s.producer.entry.buffer);
    }
    BuffersCount(InRing(s));
    BusyCount(n, s);
    assert |Placed(s)| == |Busy(s)|;
  }

  /** The HAL reads exactly the submitted frames, each once and in submission order. */
  lemma FramesReadInOrder(n: nat, run: seq<State>, i: nat)
    requires Run(n, run) && i < |run|
    ensures run[i].ring.read <= |run[i].submitted| && run[i].taken == run[i].submitted[..run[i].ring.read]
    ensures forall j :: run[i].ring.read <= j < |run[i].submitted| && |run[i].ring.slots| == RING_SIZE ==>
              run[i].ring.slots[j % RING_SIZE] == run[i].submitted[j]
  {
    RunInv(n, run, i);
  }
}
