/** The vendor HAL endpoint (hal/aidl-v1/VirtualCameraStableHal.cpp): per-slot state arrays
    updated in place under one lock, with the fds it owns. Each method is one locked section
    and is tied to the relation `HalSpec` gives for it; enqueue is cut at its wait. */
module StableHal {
  import opened Wrappers
  import opened ReadFences
  import opened HalSpec

  const MAX_CAMERAS: nat := 4

  /** The Frame record of VirtualCameraStableHal.h; a negative fd is no fence. */
  datatype Entry = Entry(ahb: nat, desc: Desc, timestamp: int, sequence: nat, token: int,
                         acquireFence: Fd, readFences: seq<Fd>, inflight: nat, retiring: bool)

  const NO_FRAME: Entry := Entry(0, Desc(0, 0, 0), 0, 0, 0, -1, [], 0, false)

  ghost function Fds(e: Entry): set<Fd> {
    FdSet(e.readFences) + if e.acquireFence >= 0 then {e.acquireFence} else {}
  }

  ghost predicate EntryOwned(open: map<Fd, set<Point>>, e: Entry) {
    Owned(open, e.readFences) && e.acquireFence >= -1 &&
    (e.acquireFence >= 0 ==> e.acquireFence in open && e.acquireFence !in FdSet(e.readFences))
  }

  ghost predicate EntriesOwned(open: map<Fd, set<Point>>, latest: seq<Entry>) {
    (forall i :: 0 <= i < |latest| ==> EntryOwned(open, latest[i])) &&
    (forall i, j :: 0 <= i < j < |latest| ==> Fds(latest[i]) !! Fds(latest[j]))
  }

  ghost function AllFds(latest: seq<Entry>): set<Fd> {
    set i, fd | 0 <= i < |latest| && fd in Fds(latest[i]) :: fd
  }

  ghost function FenceOf(open: map<Fd, set<Point>>, fd: Fd): Option<set<Point>>
    requires fd >= 0 ==> fd in open
  {
    if fd >= 0 then Some(open[fd]) else None
  }

  /** The entry with its fds read as the points they wait for. */
  ghost function FrameOf(open: map<Fd, set<Point>>, e: Entry): Frame
    requires EntryOwned(open, e)
  {
    Frame(e.ahb, e.desc, e.timestamp, e.sequence, e.token, FenceOf(open, e.acquireFence),
          Values(open, e.readFences), e.inflight, e.retiring)
  }

  /** Replacing one entry disturbs no other slot, provided its fds are its own. */
  lemma ReplaceEntry(open: map<Fd, set<Point>>, open': map<Fd, set<Point>>, latest: seq<Entry>, slot: nat, e': Entry)
    requires EntriesOwned(open, latest) && slot < |latest| && EntryOwned(open', e')
    requires forall fd :: fd in AllFds(latest) - Fds(latest[slot]) ==> fd in open' && open'[fd] == open[fd] && fd !in Fds(e')
    ensures EntriesOwned(open', latest[slot := e'])
    ensures forall i :: 0 <= i < |latest| && i != slot ==> FrameOf(open', latest[slot := e'][i]) == FrameOf(open, latest[i])
    ensures AllFds(latest[slot := e']) == AllFds(latest) - Fds(latest[slot]) + Fds(e')
  {
    var latest' := latest[slot := e'];
    forall i, fd | 0 <= i < |latest| && i != slot && fd in Fds(latest[i]) ensures fd in AllFds(latest) - Fds(latest[slot]) {
    }
    forall i | 0 <= i < |latest| && i != slot
      ensures EntryOwned(open', latest[i]) && FrameOf(open', latest[i]) == FrameOf(open, latest[i])
    {
      assert forall j :: 0 <= j < |latest[i].readFences| ==> latest[i].readFences[j] in Fds(latest[i]);
      assert Values(open', latest[i].readFences) == Values(open, latest[i].readFences);
    }
    forall fd | fd in AllFds(latest) - Fds(latest[slot]) + Fds(e') ensures fd in AllFds(latest') {
      if fd in Fds(e') {
        assert latest'[slot] == e';
      } else {
        var i :| 0 <= i < |latest| && fd in Fds(latest[i]);
        assert latest'[i] == latest[i];
      }
    }
  }

  /** Fds the entry gained are new and those it lost are closed, so nobody else's are touched. */
  lemma ForeignUntouched(open: map<Fd, set<Point>>, open': map<Fd, set<Point>>, latest: seq<Entry>, slot: nat, e': Entry)
    requires slot < |latest| && AllFds(latest[slot := e']) == AllFds(latest) - Fds(latest[slot]) + Fds(e')
    requires open'.Keys == open.Keys - Fds(latest[slot]) + Fds(e')
    requires Fds(e') !! open.Keys - Fds(latest[slot])
    requires forall fd :: fd in open && fd !in Fds(latest[slot]) ==> open'[fd] == open[fd]
    ensures open' - AllFds(latest[slot := e']) == open - AllFds(latest)
  {
    assert forall fd :: fd in Fds(latest[slot]) ==> fd in AllFds(latest);
    var foreign, foreign' := open - AllFds(latest), open' - AllFds(latest[slot := e']);
    assert foreign'.Keys == foreign.Keys;
    assert forall fd :: fd in foreign ==> foreign'[fd] == foreign[fd];
  }

  lemma OwnedAreOpen(open: map<Fd, set<Point>>, latest: seq<Entry>)
    requires EntriesOwned(open, latest)
    ensures AllFds(latest) <= open.Keys
  {
  }

  ghost function Opt(fd: Fd): set<Fd> {
    if fd >= 0 then {fd} else {}
  }

  /** A swap in terms of the fds the HAL owned before (`mine`) and owns after. */
  lemma SwappedForeign(open: map<Fd, set<Point>>, mine: set<Fd>, retiredFd: Fd, closedFd: Fd, newFd: Fd)
    requires mine <= open.Keys && Opt(retiredFd) + Opt(closedFd) <= mine && Opt(newFd) <= open.Keys - mine
    requires Opt(retiredFd) !! Opt(closedFd)
    ensures Without(open, closedFd) - (mine - (Opt(retiredFd) + Opt(closedFd)) + Opt(newFd)) ==
            With(Without(open - mine, newFd), retiredFd, FenceIn(open, retiredFd))
  {
    var foreign := Without(open, closedFd) - (mine - (Opt(retiredFd) + Opt(closedFd)) + Opt(newFd));
    var expected := With(Without(open - mine, newFd), retiredFd, FenceIn(open, retiredFd));
    assert Without(open, closedFd).Keys == open.Keys - Opt(closedFd);
    assert foreign.Keys == open.Keys - mine - Opt(newFd) + Opt(retiredFd);
    assert expected.Keys == open.Keys - mine - Opt(newFd) + Opt(retiredFd);
    assert forall fd :: fd in foreign ==> foreign[fd] == expected[fd];
  }

  lemma FdsOfFew(open: map<Fd, set<Point>>, e: Entry)
    requires EntryOwned(open, e) && |e.readFences| <= 1
    ensures Fds(e) == Opt(LastFence(e)) + Opt(e.acquireFence) && Opt(LastFence(e)) !! Opt(e.acquireFence)
    ensures |e.readFences| == 1 <==> LastFence(e) >= 0
  {
  }

  function LastFence(e: Entry): Fd {
    if |e.readFences| > 0 then e.readFences[|e.readFences| - 1] else -1
  }

  lemma SwapFacts(open: map<Fd, set<Point>>, latest: seq<Entry>, slot: nat, cur: Entry)
    requires EntriesOwned(open, latest) && slot < |latest| && |latest[slot].readFences| <= 1
    requires cur.readFences == [] && cur.acquireFence >= -1 && Opt(cur.acquireFence) <= open.Keys - AllFds(latest)
    ensures var retired := latest[slot]; var open' := Without(open, retired.acquireFence); var latest' := latest[slot := cur];
            && EntriesOwned(open', latest')
            && (forall i :: 0 <= i < |latest| && i != slot ==> FrameOf(open', latest'[i]) == FrameOf(open, latest[i]))
            && (cur.acquireFence >= 0 ==> cur.acquireFence in open' && open'[cur.acquireFence] == open[cur.acquireFence])
            && open' - AllFds(latest') ==
                 With(Without(open - AllFds(latest), cur.acquireFence), LastFence(retired), FenceIn(open, LastFence(retired)))
            && Values(open, retired.readFences) == (if LastFence(retired) >= 0 then [open[LastFence(retired)]] else [])
  {
    var retired := latest[slot];
    var open' := Without(open, retired.acquireFence);
    OwnedAreOpen(open, latest);
    FdsOfFew(open, retired);
    assert EntryOwned(open, cur);
    FdsOfFew(open, cur);
    assert Fds(retired) <= AllFds(latest) by {
      assert forall fd :: fd in Fds(retired) ==> fd in AllFds(latest);
    }
    ReplaceEntry(open, open', latest, slot, cur);
    SwappedForeign(open, AllFds(latest), LastFence(retired), retired.acquireFence, cur.acquireFence);
  }

  ghost function FenceIn(open: map<Fd, set<Point>>, fd: Fd): Option<set<Point>> {
    if fd >= 0 && fd in open then Some(open[fd]) else None
  }

  /** Fds the HAL does not own may come and go. */
  lemma KeepEntries(open: map<Fd, set<Point>>, open': map<Fd, set<Point>>, latest: seq<Entry>)
    requires EntriesOwned(open, latest)
    requires forall fd :: fd in AllFds(latest) ==> fd in open' && (fd in open ==> open'[fd] == open[fd])
    ensures EntriesOwned(open', latest)
    ensures forall i :: 0 <= i < |latest| ==> FrameOf(open', latest[i]) == FrameOf(open, latest[i])
  {
    if |latest| > 0 {
      OwnedAreOpen(open, latest);
      forall i | 0 <= i < |latest|
        ensures EntryOwned(open', latest[i]) && FrameOf(open', latest[i]) == FrameOf(open, latest[i])
      {
        assert forall fd :: fd in Fds(latest[i]) ==> fd in AllFds(latest);
        assert forall j :: 0 <= j < |latest[i].readFences| ==> latest[i].readFences[j] in Fds(latest[i]);
        assert Values(open', latest[i].readFences) == Values(open, latest[i].readFences);
      }
    }
  }

  /** Changing what is not an fd leaves ownership alone. */
  lemma SameFds(open: map<Fd, set<Point>>, latest: seq<Entry>, latest': seq<Entry>, slot: nat)
    requires EntriesOwned(open, latest) && slot < |latest| == |latest'| && latest' == latest[slot := latest'[slot]]
    requires latest'[slot].readFences == latest[slot].readFences && latest'[slot].acquireFence == latest[slot].acquireFence
    ensures EntriesOwned(open, latest') && AllFds(latest') == AllFds(latest)
  {
    assert forall i :: 0 <= i < |latest| ==> Fds(latest'[i]) == Fds(latest[i]);
  }

  lemma ValuesConcat(open: map<Fd, set<Point>>, a: seq<Fd>, b: seq<Fd>)
    requires Owned(open, a) && Owned(open, b) && FdSet(a) !! FdSet(b)
    ensures Owned(open, a + b) && FdSet(a + b) == FdSet(a) + FdSet(b)
    ensures Values(open, a + b) == Values(open, a) + Values(open, b)
  {
    forall i, j | 0 <= i < j < |a + b| ensures (a + b)[i] != (a + b)[j] {
      if i < |a| <= j {
        assert a[i] in FdSet(a) && b[j - |a|] in FdSet(b);
      }
    }
    assert forall fd :: fd in FdSet(b) ==> fd in FdSet(a + b) by {
      assert forall i :: 0 <= i < |b| ==> (a + b)[|a| + i] == b[i];
    }
    assert forall fd :: fd in FdSet(a) ==> fd in FdSet(a + b) by {
      assert forall i :: 0 <= i < |a| ==> (a + b)[i] == a[i];
    }
    assert Owned(open, a + b);
  }

  ghost function Without(foreign: map<Fd, set<Point>>, fd: Fd): map<Fd, set<Point>> {
    if fd >= 0 then foreign - {fd} else foreign
  }

  ghost function With(foreign: map<Fd, set<Point>>, fd: Fd, fence: Option<set<Point>>): map<Fd, set<Point>> {
    if fence.Some? then foreign[fd := fence.value] else foreign
  }

  ghost function Retired(outcome: Outcome): Option<set<Point>> {
    if outcome.Accepted? then outcome.retired else None
  }

  /** The shared counter after `n` further allocations; it sticks at its maximum. */
  function Bumped(next: int, n: nat): int {
    if next + n < MAX_IDENTITY then next + n else MAX_IDENTITY
  }

  /** Revoke on one slot, when the counter stood at `next`. */
  ghost predicate SlotRevoked(s: Slot, s': Slot, next: int, signaled: set<Point>) {
    Revoke(Cell(s, next, 0), Cell(s', if next < MAX_IDENTITY then next + 1 else next, 0), signaled)
  }

  predicate ValidSlot(slot: int) {
    0 <= slot < MAX_CAMERAS
  }

  class StableHal {
    const driver: SyncDriver
    var latest: seq<Entry>
    var sessionOwners: seq<int>
    var configurations: seq<int>
    var ownerClosed: seq<bool>
    var capabilities: seq<Option<int>>
    var ready: seq<bool>
    var sourceWidths: seq<int>
    var sourceHeights: seq<int>
    var nextIdentity: int
    var framesReceived: nat
    var callback: nat // identity of the registered callback object, 0 for none

    ghost predicate Valid()
      reads this, driver
    {
      && |latest| == |sessionOwners| == |configurations| == |ownerClosed| == MAX_CAMERAS
      && |capabilities| == |ready| == |sourceWidths| == |sourceHeights| == MAX_CAMERAS
      && EntriesOwned(driver.open, latest)
    }

    ghost function CellAt(slot: nat): Cell
      reads this, driver
      requires Valid() && slot < MAX_CAMERAS
    {
      Cell(Slot(FrameOf(driver.open, latest[slot]), sessionOwners[slot], configurations[slot], ownerClosed[slot],
                capabilities[slot], ready[slot], sourceWidths[slot], sourceHeights[slot]),
           nextIdentity, framesReceived)
    }

    /** Open fds that do not belong to the HAL, with what they wait for. */
    ghost function Foreign(): map<Fd, set<Point>>
      reads this, driver
    {
      driver.open - AllFds(latest)
    }

    constructor (driver: SyncDriver)
      ensures Valid() && this.driver == driver && nextIdentity == 0 && framesReceived == 0 && callback == 0
      ensures forall slot :: 0 <= slot < MAX_CAMERAS ==> CellAt(slot) == Cell(EMPTY_SLOT, 0, 0)
    {
      this.driver := driver;
      latest := [NO_FRAME, NO_FRAME, NO_FRAME, NO_FRAME];
      sessionOwners, configurations := [0, 0, 0, 0], [0, 0, 0, 0];
      ownerClosed, ready := [false, false, false, false], [false, false, false, false];
      capabilities := [None, None, None, None];
      sourceWidths, sourceHeights := [0, 0, 0, 0], [0, 0, 0, 0];
      nextIdentity, framesReceived, callback := 0, 0, 0;
    }

    /** Only this slot's part of the state may change. */
    twostate predicate OthersKept(slot: nat)
      reads this, driver
      requires old(Valid()) && Valid()
    {
      callback == old(callback) &&
      forall i :: 0 <= i < MAX_CAMERAS && i != slot ==> CellAt(i).slot == old(CellAt(i)).slot
    }

    /** No reader is out and every read recorded on the frame has fired; waits report it. */
    ghost predicate Unread(slot: nat)
      reads this, driver
      requires slot < |latest|
    {
      latest[slot].inflight == 0 &&
      forall fd :: fd in FdSet(latest[slot].readFences) ==> fd !in driver.faulty && fd in driver.open && driver.open[fd] <= driver.signaled
    }

    method ReapRetiring(slot: nat) returns (done: bool)
      requires Valid() && slot < MAX_CAMERAS
      modifies this`latest, driver
      ensures Valid() && OthersKept(slot) && old(driver.signaled) <= driver.signaled && Foreign() == old(Foreign())
      ensures OnlyFrame(old(CellAt(slot)), CellAt(slot))
      ensures Reap(old(CellAt(slot)).slot.frame, CellAt(slot).slot.frame, driver.signaled)
      ensures done <==> !CellAt(slot).slot.frame.retiring
      ensures old(Unread(slot)) ==> done
    {
      var cur := latest[slot];
      if !cur.retiring {
        return true;
      }
      ghost var open := driver.open;
      var kept, finished := RetiredFrameReady(driver, cur.inflight, cur.readFences);
      assert kept != [] ==> kept[0] in FdSet(kept);
      if finished && cur.acquireFence >= 0 {
        driver.Close(cur.acquireFence);
      }
      cur := if finished then NO_FRAME else cur.(readFences := kept);
      ReplaceEntry(open, driver.open, latest, slot, cur);
      ForeignUntouched(open, driver.open, latest, slot, cur);
      latest := latest[slot := cur];
      return finished;
    }

    method DropLatest(slot: nat)
      requires Valid() && slot < MAX_CAMERAS
      modifies this`latest, driver
      ensures Valid() && OthersKept(slot) && old(driver.signaled) <= driver.signaled && Foreign() == old(Foreign())
      ensures OnlyFrame(old(CellAt(slot)), CellAt(slot))
      ensures Drop(old(CellAt(slot)).slot.frame, CellAt(slot).slot.frame, driver.signaled)
      ensures old(Unread(slot)) ==> CellAt(slot).slot.frame == EMPTY_FRAME
    {
      ghost var before := latest;
      latest := latest[slot := latest[slot].(retiring := true)];
      SameFds(driver.open, before, latest, slot);
      var _ := ReapRetiring(slot);
    }

    method AcquireLatest(slot: int, afterSequence: nat, configurationToken: int)
      returns (ahb: nat, timestampNs: int, acquireFenceFd: Fd, sequence: nat, ghost lease: Option<Lease>)
      requires Valid()
      modifies this`latest, driver
      ensures Valid() && old(driver.signaled) <= driver.signaled
      ensures lease.Some? <==> ahb != 0
      ensures !ValidSlot(slot) ==> ahb == 0 && latest == old(latest) && Foreign() == old(Foreign())
      ensures ValidSlot(slot) ==> OthersKept(slot)
      ensures ValidSlot(slot) ==>
                HalSpec.AcquireLatest(old(CellAt(slot)), CellAt(slot), configurationToken, afterSequence, driver.signaled, lease)
      ensures lease.Some? ==> lease.value.ahb == ahb && lease.value.sequence == sequence
      ensures lease.Some? ==> timestampNs == old(CellAt(slot)).slot.frame.timestamp
      // a fenced frame is lent with its own duplicate of the fence, never without
      ensures lease.Some? ==> (acquireFenceFd >= 0 <==> old(CellAt(slot)).slot.frame.acquire.Some?)
      ensures acquireFenceFd >= 0 ==> lease.Some? && acquireFenceFd !in old(Foreign())
      ensures Foreign() == if acquireFenceFd < 0 then old(Foreign())
                           else old(Foreign())[acquireFenceFd := old(CellAt(slot)).slot.frame.acquire.value]
    {
      ahb, timestampNs, acquireFenceFd, sequence, lease := 0, 0, -1, 0, None;
      if !ValidSlot(slot) {
        return;
      }
      var cur := latest[slot];
      if cur.token != configurationToken || (configurationToken > 0 && configurations[slot] != configurationToken) {
        return;
      }
      if cur.ahb == 0 || cur.retiring {
        return;
      }
      if cur.sequence <= afterSequence {
        return;
      }
      var _ := Consolidate(slot);
      cur := latest[slot];
      if |cur.readFences| + cur.inflight >= MAX_PENDING_READS {
        return;
      }
      var ok;
      acquireFenceFd, ok := Borrow(slot);
      if ok {
        ahb, timestampNs, sequence := cur.ahb, cur.timestamp, cur.sequence;
        lease := Some(Lease(cur.ahb, cur.sequence, cur.token, cur.desc));
      }
    }

    /** The last step of acquireLatest: duplicate the producer's fence and count the reader. */
    method Borrow(slot: nat) returns (acquireFenceFd: Fd, ok: bool)
      requires Valid() && slot < MAX_CAMERAS
      modifies this`latest, driver
      ensures Valid() && OthersKept(slot) && old(driver.signaled) <= driver.signaled
      ensures var f := old(CellAt(slot)).slot.frame;
              && CellAt(slot) == old(CellAt(slot)).(slot := old(CellAt(slot)).slot.(frame :=
                   f.(inflight := if ok then f.inflight + 1 else f.inflight)))
              && (!ok ==> f.acquire.Some? && acquireFenceFd < 0)
              && (ok ==> (acquireFenceFd >= 0 <==> f.acquire.Some?))
              && (acquireFenceFd >= 0 ==> acquireFenceFd !in old(driver.open))
              && Foreign() == if acquireFenceFd < 0 then old(Foreign()) else old(Foreign())[acquireFenceFd := f.acquire.value]
    {
      ghost var open := driver.open;
      var cur := latest[slot];
      acquireFenceFd, ok := DuplicateAcquireFence(driver, cur.acquireFence);
      cur := cur.(inflight := cur.inflight + if ok then 1 else 0);
      OwnedAreOpen(open, latest);
      ReplaceEntry(open, driver.open, latest, slot, cur);
      latest := latest[slot := cur];
      assert Values(driver.open, cur.readFences) == Values(open, cur.readFences);
      assert Fds(cur) == Fds(old(latest)[slot]);
      assert AllFds(latest) == AllFds(old(latest));
    }

    /** consolidateFences(cur.readFences) on the slot's frame */
    method Consolidate(slot: nat) returns (ok: bool)
      requires Valid() && slot < MAX_CAMERAS
      modifies this`latest, driver
      ensures Valid() && OthersKept(slot) && old(driver.signaled) <= driver.signaled && Foreign() == old(Foreign())
      ensures driver.open.Keys - AllFds(latest) == old(driver.open.Keys - AllFds(latest))
      ensures latest == old(latest)[slot := old(latest)[slot].(readFences := latest[slot].readFences)]
      ensures CellAt(slot) == old(CellAt(slot)).(slot := old(CellAt(slot)).slot.(frame :=
                old(CellAt(slot)).slot.frame.(pending := CellAt(slot).slot.frame.pending)))
      ensures Settled(old(CellAt(slot)).slot.frame.pending, CellAt(slot).slot.frame.pending, driver.signaled)
      ensures ok <==> |CellAt(slot).slot.frame.pending| <= 1
    {
      ghost var open := driver.open;
      var cur := latest[slot];
      var merged, done, kept := ConsolidateReadFences(driver, cur.readFences);
      cur := cur.(readFences := merged);
      ReplaceEntry(open, driver.open, latest, slot, cur);
      ForeignUntouched(open, driver.open, latest, slot, cur);
      latest := latest[slot := cur];
      return done;
    }

    /** readFences.insert(end): the fds now belong to the frame. */
    method TakeFences(slot: nat, fences: seq<Fd>)
      requires Valid() && slot < MAX_CAMERAS
      requires Owned(driver.open, fences) && FdSet(fences) !! AllFds(latest)
      modifies this`latest
      ensures Valid() && OthersKept(slot) && Foreign() == old(Foreign()) - FdSet(fences)
      ensures latest[slot].ahb == old(latest)[slot].ahb && latest[slot].inflight == old(latest)[slot].inflight
      ensures CellAt(slot) == old(CellAt(slot)).(slot := old(CellAt(slot)).slot.(frame :=
                old(CellAt(slot)).slot.frame.(pending := old(CellAt(slot)).slot.frame.pending + Values(driver.open, fences))))
    {
      var cur := latest[slot];
      assert FdSet(cur.readFences) <= AllFds(latest) by {
        assert forall fd :: fd in FdSet(cur.readFences) ==> fd in Fds(latest[slot]);
      }
      ValuesConcat(driver.open, cur.readFences, fences);
      cur := cur.(readFences := cur.readFences + fences);
      OwnedAreOpen(driver.open, latest);
      assert cur.acquireFence >= 0 ==> cur.acquireFence in Fds(latest[slot]) && cur.acquireFence in AllFds(latest);
      ReplaceEntry(driver.open, driver.open, latest, slot, cur);
      latest := latest[slot := cur];
      assert AllFds(latest) == AllFds(old(latest)) + FdSet(fences) by {
        assert forall fd :: fd in Fds(old(latest)[slot]) ==> fd in AllFds(old(latest));
      }
    }

    method CloseAll(fences: seq<Fd>)
      requires Valid() && Owned(driver.open, fences) && FdSet(fences) !! AllFds(latest)
      modifies driver`open
      ensures Valid() && Foreign() == old(Foreign()) - FdSet(fences)
      ensures forall slot :: 0 <= slot < MAX_CAMERAS ==> CellAt(slot) == old(CellAt(slot))
    {
      for i := 0 to |fences|
        invariant driver.open == old(driver.open) - FdSet(fences[..i])
      {
        assert fences[..i + 1] == fences[..i] + [fences[i]];
        assert FdSet(fences[..i + 1]) == FdSet(fences[..i]) + {fences[i]};
        driver.Close(fences[i]);
      }
      assert fences[..|fences|] == fences;
      KeepEntries(old(driver.open), driver.open, latest);
    }

    /** Takes over the fds of one capture's reads; they end up in the frame or closed. */
    method ReleaseFrame(slot: int, ahb: nat, fences: seq<Fd>)
      requires Valid() && Owned(driver.open, fences) && FdSet(fences) !! AllFds(latest)
      modifies this`latest, driver
      ensures Valid() && old(driver.signaled) <= driver.signaled
      ensures Foreign() == old(Foreign()) - FdSet(fences)
      ensures ValidSlot(slot) ==> OthersKept(slot)
      ensures ValidSlot(slot) ==>
                HalSpec.ReleaseFrame(old(CellAt(slot)), CellAt(slot), ahb, Values(old(driver.open), fences), driver.signaled)
      ensures !ValidSlot(slot) ==> latest == old(latest)
    {
      if ValidSlot(slot) && latest[slot].ahb == ahb {
        TakeFences(slot, fences);
        var _ := Consolidate(slot);
        label BeforeCount:
        var cur := latest[slot];
        latest := latest[slot := cur.(inflight := if cur.inflight > 0 then cur.inflight - 1 else 0)];
        SameFds(driver.open, old@BeforeCount(latest), latest, slot);
        if cur.retiring {
          var _ := ReapRetiring(slot);
        }
      } else {
        CloseAll(fences);
      }
    }

    predicate Admits(slot: nat, token: int, desc: Desc)
      reads this
      requires slot < |configurations| && slot < |capabilities| && slot < |ready| && slot < |sourceWidths| && slot < |sourceHeights|
    {
      configurations[slot] == token &&
      (capabilities[slot].None? || (ready[slot] && desc == Desc(sourceWidths[slot], sourceHeights[slot], RGBA_8888)))
    }

    /** A rejected submission's producer fence is closed: the caller keeps its own. */
    method Reject(acquireFd: Fd)
      requires Valid() && (acquireFd >= 0 ==> acquireFd in Foreign())
      modifies driver`open
      ensures Valid() && Foreign() == Without(old(Foreign()), acquireFd)
      ensures forall slot :: 0 <= slot < MAX_CAMERAS ==> CellAt(slot) == old(CellAt(slot))
    {
      if acquireFd >= 0 {
        driver.Close(acquireFd);
        KeepEntries(old(driver.open), driver.open, latest);
      }
    }

    method EnqueueBeforeWait(slot: nat, token: int, desc: Desc, acquireFd: Fd) returns (res: Option<int>)
      requires Valid() && slot < MAX_CAMERAS && (acquireFd >= 0 ==> acquireFd in Foreign())
      modifies this`latest, driver
      ensures Valid() && OthersKept(slot) && old(driver.signaled) <= driver.signaled
      ensures BeforeWait(old(CellAt(slot)), CellAt(slot), token, desc, driver.signaled, res)
      ensures Foreign() == if res.Some? then Without(old(Foreign()), acquireFd) else old(Foreign())
    {
      if !Admits(slot, token, desc) {
        Reject(acquireFd);
        return Some(7);
      }
      var done := ReapRetiring(slot);
      if !done {
        Reject(acquireFd);
        return Some(4);
      }
      return None;
    }

    /** Reap a retiring frame and bring the frame's read fences down to one; 0 on success. */
    method MakeRoom(slot: nat) returns (code: int)
      requires Valid() && slot < MAX_CAMERAS
      modifies this`latest, driver
      ensures Valid() && OthersKept(slot) && old(driver.signaled) <= driver.signaled && Foreign() == old(Foreign())
      ensures OnlyFrame(old(CellAt(slot)), CellAt(slot))
      ensures code == 0 || code == 4 || code == 6
      ensures var f, f' := old(CellAt(slot)).slot.frame, CellAt(slot).slot.frame;
              && (code == 4 ==> f.retiring && f'.retiring && Reap(f, f', driver.signaled))
              && (code == 6 ==> !f.retiring && |f'.pending| > 1)
              && (code == 0 ==> |f'.pending| <= 1)
              && (code != 4 && f.retiring ==> code == 0 && f'.pending == [] && Reap(f, EMPTY_FRAME, driver.signaled))
              && (!f.retiring ==> f' == f.(pending := f'.pending) && Settled(f.pending, f'.pending, driver.signaled))
    {
      var done := ReapRetiring(slot);
      if !done {
        return 4;
      }
      var ok := Consolidate(slot);
      return if ok then 0 else 6;
    }

    /** `ahb` is the imported buffer; on success the frame owns it and the producer's fence, and
        the caller owns the retired frame's read fence. */
    method EnqueueAfterWait(slot: nat, token: int, desc: Desc, ahb: nat, timestampNs: int, acquireFd: Fd)
      returns (code: int, retiredFd: Fd, ghost outcome: Outcome)
      requires Valid() && slot < MAX_CAMERAS && acquireFd >= -1 && (acquireFd >= 0 ==> acquireFd in Foreign())
      modifies this`latest, this`framesReceived, driver
      ensures Valid() && old(driver.signaled) <= driver.signaled
      ensures forall i :: 0 <= i < MAX_CAMERAS && i != slot ==> CellAt(i).slot == old(CellAt(i)).slot
      ensures AfterWait(old(CellAt(slot)), CellAt(slot), token, desc, ahb, timestampNs,
                        FenceOf(old(driver.open), acquireFd), driver.signaled, outcome)
      ensures code == (if outcome.Rejected? then outcome.code else 0) && (code == 0 <==> outcome.Accepted?)
      ensures retiredFd >= 0 <==> Retired(outcome).Some?
      ensures Foreign() == With(Without(old(Foreign()), acquireFd), retiredFd, Retired(outcome))
    {
      var cur := latest[slot];
      if cur.ahb != 0 && cur.inflight > 0 {
        Reject(acquireFd);
        return 4, -1, Rejected(4);
      }
      if !Admits(slot, token, desc) {
        Reject(acquireFd);
        return 7, -1, Rejected(7);
      }
      code := MakeRoom(slot);
      if code != 0 {
        Reject(acquireFd);
        return code, -1, Rejected(code);
      }
      ghost var fence;
      retiredFd, fence := Swap(slot, token, desc, ahb, timestampNs, acquireFd);
      outcome := Accepted(fence);
    }

    /** Installs the new frame; the old one's buffer and producer fence are dropped and its one
        remaining read fence goes to the caller. */
    method Swap(slot: nat, token: int, desc: Desc, ahb: nat, timestampNs: int, acquireFd: Fd)
      returns (retiredFd: Fd, ghost fence: Option<set<Point>>)
      requires Valid() && slot < MAX_CAMERAS && acquireFd >= -1 && (acquireFd >= 0 ==> acquireFd in Foreign())
      requires |latest[slot].readFences| <= 1
      modifies this`latest, this`framesReceived, driver`open
      ensures Valid()
      ensures forall i :: 0 <= i < MAX_CAMERAS && i != slot ==> CellAt(i).slot == old(CellAt(i)).slot
      ensures CellAt(slot) == old(CellAt(slot)).(received := old(framesReceived) + 1, slot := old(CellAt(slot)).slot.(frame :=
                Frame(ahb, desc, timestampNs, old(framesReceived) + 1, token, FenceOf(old(driver.open), acquireFd), [], 0, false)))
      ensures retiredFd >= 0 <==> fence.Some?
      ensures old(CellAt(slot)).slot.frame.pending == if fence.Some? then [fence.value] else []
      ensures Foreign() == With(Without(old(Foreign()), acquireFd), retiredFd, fence)
    {
      var retired := latest[slot];
      retiredFd := LastFence(retired);
      fence := FenceIn(driver.open, retiredFd);
      framesReceived := framesReceived + 1;
      var cur := Entry(ahb, desc, timestampNs, framesReceived, token, acquireFd, [], 0, false);
      SwapFacts(driver.open, latest, slot, cur);
      FdsOfFew(driver.open, retired);
      if retired.acquireFence >= 0 {
        driver.Close(retired.acquireFence);
      }
      latest := latest[slot := cur];
    }

    method AllocateSessionIdentity() returns (identity: int)
      requires Valid()
      modifies this`nextIdentity
      ensures Valid() && latest == old(latest)
      ensures forall slot :: 0 <= slot < MAX_CAMERAS ==> AllocateIdentity(old(CellAt(slot)), CellAt(slot), identity)
    {
      if nextIdentity == MAX_IDENTITY {
        return 0;
      }
      nextIdentity := nextIdentity + 1;
      return nextIdentity;
    }

    /** The locked part of notifyStreamsConfigured; the callback then gets `registration`. */
    method NotifyStreamsConfigured(slot: int, owner: int, width: int, height: int)
      returns (token: int, registration: int)
      requires Valid()
      modifies this, driver
      ensures Valid() && old(driver.signaled) <= driver.signaled && Foreign() == old(Foreign())
      ensures callback == old(callback) && framesReceived == old(framesReceived)
      ensures !ValidSlot(slot) ==> token == 0 && nextIdentity == old(nextIdentity) && latest == old(latest)
      ensures ValidSlot(slot) ==> OthersKept(slot)
      ensures ValidSlot(slot) ==>
                NotifyConfigured(old(CellAt(slot)), CellAt(slot), owner, width, height, driver.signaled, token)
      ensures token != 0 ==> registration == (if old(capabilities)[slot].Some? then old(capabilities)[slot].value else 0)
    {
      token, registration := 0, 0;
      if !ValidSlot(slot) || owner <= 0 || owner < sessionOwners[slot] ||
         (owner == sessionOwners[slot] && ownerClosed[slot]) || nextIdentity == MAX_IDENTITY {
        return;
      }
      token := Reconfigure(slot, owner, width, height);
      if capabilities[slot].Some? {
        registration := capabilities[slot].value;
      }
    }

    method Reconfigure(slot: nat, owner: int, width: int, height: int) returns (token: int)
      requires Valid() && slot < MAX_CAMERAS && nextIdentity != MAX_IDENTITY
      modifies this, driver
      ensures Valid() && OthersKept(slot) && old(driver.signaled) <= driver.signaled && Foreign() == old(Foreign())
      ensures framesReceived == old(framesReceived) && capabilities == old(capabilities)
      ensures token == old(nextIdentity) + 1 && Drop(old(CellAt(slot)).slot.frame, CellAt(slot).slot.frame, driver.signaled)
      ensures CellAt(slot) == Cell(Slot(CellAt(slot).slot.frame, owner, token, false, old(capabilities)[slot],
                                        old(capabilities)[slot].None?, width, height), token, old(framesReceived))
    {
      sessionOwners := sessionOwners[slot := owner];
      ownerClosed := ownerClosed[slot := false];
      nextIdentity := nextIdentity + 1;
      token := nextIdentity;
      configurations := configurations[slot := token];
      ready := ready[slot := capabilities[slot].None?];
      sourceWidths := sourceWidths[slot := width];
      sourceHeights := sourceHeights[slot := height];
      DropLatest(slot);
    }

    /** The locked part of notifyCameraClosed; the callback, if any, is for the registration told. */
    method NotifyCameraClosed(slot: int, owner: int, configurationToken: int) returns (told: Option<int>)
      requires Valid()
      modifies this, driver
      ensures Valid() && old(driver.signaled) <= driver.signaled && Foreign() == old(Foreign())
      ensures callback == old(callback) && framesReceived == old(framesReceived) && nextIdentity == old(nextIdentity)
      ensures !ValidSlot(slot) ==> latest == old(latest) && told == None
      ensures ValidSlot(slot) ==> OthersKept(slot)
      ensures ValidSlot(slot) ==> NotifyClosed(old(CellAt(slot)), CellAt(slot), owner, configurationToken, driver.signaled)
      ensures ValidSlot(slot) ==> (told.Some? <==> owner > 0 && configurationToken > 0 && old(CellAt(slot)).slot.owner == owner
                                                     && old(CellAt(slot)).slot.config == configurationToken)
      ensures told.Some? ==> told.value == (if old(capabilities)[slot].Some? then old(capabilities)[slot].value else 0)
    {
      told := None;
      if !ValidSlot(slot) || owner <= 0 || configurationToken <= 0 || sessionOwners[slot] != owner ||
         configurations[slot] != configurationToken {
        return;
      }
      configurations := configurations[slot := 0];
      ready := ready[slot := false];
      ownerClosed := ownerClosed[slot := true];
      told := Some(if capabilities[slot].Some? then capabilities[slot].value else 0);
      DropLatest(slot);
    }

    method SetConfigurationReady(slot: int, token: int, isReady: bool) returns (ok: bool)
      requires Valid()
      modifies this, driver
      ensures Valid() && old(driver.signaled) <= driver.signaled && Foreign() == old(Foreign())
      ensures callback == old(callback) && framesReceived == old(framesReceived) && nextIdentity == old(nextIdentity)
      ensures !ValidSlot(slot) ==> !ok && latest == old(latest)
      ensures ValidSlot(slot) ==> OthersKept(slot)
      ensures ValidSlot(slot) ==> SetReady(old(CellAt(slot)), CellAt(slot), token, isReady, driver.signaled, ok)
    {
      if !ValidSlot(slot) || token <= 0 || configurations[slot] != token || capabilities[slot].None? || ownerClosed[slot] {
        return false;
      }
      ready := ready[slot := isReady];
      if !isReady {
        configurations := configurations[slot := 0];
        DropLatest(slot);
      }
      return true;
    }

    /** `owner` is the caller's callback object; `valid` is the descriptor's own check. */
    method RegisterProducer(slot: int, registration: int, valid: bool, owner: nat) returns (ok: bool)
      requires Valid() && (valid ==> registration > 0)
      modifies this
      ensures Valid() && Foreign() == old(Foreign()) && latest == old(latest)
      ensures callback == old(callback) && framesReceived == old(framesReceived) && nextIdentity == old(nextIdentity)
      ensures ValidSlot(slot) ==> OthersKept(slot)
      ensures ok <==> ValidSlot(slot) && valid && owner != 0 && callback == owner && old(capabilities)[slot].None?
      ensures ValidSlot(slot) && ok ==> HalSpec.RegisterProducer(old(CellAt(slot)), CellAt(slot), registration, true)
      ensures ValidSlot(slot) && !ok ==> CellAt(slot) == old(CellAt(slot))
    {
      if !ValidSlot(slot) || !valid || owner == 0 {
        return false;
      }
      if callback == 0 || callback != owner || capabilities[slot].Some? {
        return false;
      }
      capabilities := capabilities[slot := Some(registration)];
      ready := ready[slot := false];
      configurations := configurations[slot := 0];
      return true;
    }

    method RemoveProducer(slot: int, registration: int, owner: nat) returns (ok: bool)
      requires Valid()
      modifies this, driver
      ensures Valid() && old(driver.signaled) <= driver.signaled && Foreign() == old(Foreign())
      ensures callback == old(callback) && framesReceived == old(framesReceived)
      ensures ok <==> ValidSlot(slot) && owner != 0 && callback == owner && old(capabilities)[slot] == Some(registration)
      ensures ValidSlot(slot) ==> OthersKept(slot)
      ensures ok ==> Revoke(old(CellAt(slot)), CellAt(slot), driver.signaled)
      ensures !ok ==> nextIdentity == old(nextIdentity) && forall i :: 0 <= i < MAX_CAMERAS ==> CellAt(i) == old(CellAt(i))
    {
      if !ValidSlot(slot) || owner == 0 {
        return false;
      }
      if callback == 0 || callback != owner || capabilities[slot] != Some(registration) {
        return false;
      }
      RevokeSlot(slot);
      return true;
    }

    /** The statements removeProducer and setCallback share, for one slot. */
    method RevokeSlot(slot: nat)
      requires Valid() && slot < MAX_CAMERAS
      modifies this, driver
      ensures Valid() && OthersKept(slot) && old(driver.signaled) <= driver.signaled && Foreign() == old(Foreign())
      ensures framesReceived == old(framesReceived)
      ensures Revoke(old(CellAt(slot)), CellAt(slot), driver.signaled)
    {
      configurations := configurations[slot := 0];
      ownerClosed := ownerClosed[slot := true];
      ready := ready[slot := false];
      capabilities := capabilities[slot := None];
      DropLatest(slot);
      ReplaceOwner(slot);
    }

    method ReplaceOwner(slot: nat)
      requires Valid() && slot < MAX_CAMERAS
      modifies this`nextIdentity, this`sessionOwners
      ensures Valid() && OthersKept(slot)
      ensures var c := old(CellAt(slot));
              CellAt(slot) == if c.next < MAX_IDENTITY then c.(next := c.next + 1, slot := c.slot.(owner := c.next + 1)) else c
    {
      if nextIdentity < MAX_IDENTITY {
        nextIdentity := nextIdentity + 1;
        sessionOwners := sessionOwners[slot := nextIdentity];
      }
    }

    /** Registering another callback object revokes every slot, in order; an outdated one is
        refused. */
    method SetCallback(newCallback: nat, version: int) returns (code: int)
      requires Valid() && nextIdentity <= MAX_IDENTITY
      modifies this, driver
      ensures Valid() && old(driver.signaled) <= driver.signaled && Foreign() == old(Foreign())
      ensures framesReceived == old(framesReceived)
      ensures code == if newCallback != 0 && version < 6 then 7 else 0
      ensures callback == if code == 0 then newCallback else old(callback)
      ensures code != 0 || old(callback) == 0 || old(callback) == newCallback ==>
                forall i :: 0 <= i < MAX_CAMERAS ==> CellAt(i) == old(CellAt(i))
      ensures code == 0 && old(callback) != 0 && old(callback) != newCallback ==>
                nextIdentity == Bumped(old(nextIdentity), MAX_CAMERAS) &&
                forall i :: 0 <= i < MAX_CAMERAS ==>
                  SlotRevoked(old(CellAt(i)).slot, CellAt(i).slot, Bumped(old(nextIdentity), i), driver.signaled)
    {
      if newCallback != 0 && version < 6 {
        return 7;
      }
      if callback != 0 && callback != newCallback {
        RevokeAll();
      }
      label Revoked:
      callback := newCallback;
      assert forall i :: 0 <= i < MAX_CAMERAS ==> CellAt(i) == old@Revoked(CellAt(i));
      return 0;
    }

    method RevokeAll()
      requires Valid() && nextIdentity <= MAX_IDENTITY
      modifies this, driver
      ensures Valid() && old(driver.signaled) <= driver.signaled && Foreign() == old(Foreign())
      ensures callback == old(callback) && framesReceived == old(framesReceived)
      ensures nextIdentity == Bumped(old(nextIdentity), MAX_CAMERAS)
      ensures forall i :: 0 <= i < MAX_CAMERAS ==>
                  SlotRevoked(old(CellAt(i)).slot, CellAt(i).slot, Bumped(old(nextIdentity), i), driver.signaled)
    {
      for slot := 0 to MAX_CAMERAS
        invariant Valid() && old(driver.signaled) <= driver.signaled && Foreign() == old(Foreign())
        invariant callback == old(callback) && framesReceived == old(framesReceived)
        invariant nextIdentity == Bumped(old(nextIdentity), slot)
        invariant forall i :: 0 <= i < slot ==>
                    SlotRevoked(old(CellAt(i)).slot, CellAt(i).slot, Bumped(old(nextIdentity), i), driver.signaled)
        invariant forall i :: slot <= i < MAX_CAMERAS ==> CellAt(i).slot == old(CellAt(i)).slot
      {
        label Before:
        RevokeSlot(slot);
        forall i | 0 <= i < slot
          ensures SlotRevoked(old(CellAt(i)).slot, CellAt(i).slot, Bumped(old(nextIdentity), i), driver.signaled)
        {
          assert CellAt(i).slot == old@Before(CellAt(i)).slot;
        }
      }
    }
  }
}
