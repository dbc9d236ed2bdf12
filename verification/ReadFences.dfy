/** Read-fence bookkeeping of the vendor HAL (hal/core/ReadFenceSet.h).

    A sync fence stands for a finite set of completion points; it has fired once all
    of them are signaled. Fds are linear: closing one that is not open is impossible. */
module ReadFences {

  type Point = nat
  type Fd = int

  /** The sync driver as one process sees it. Signals may arrive during any call, a
      merge or a duplication may fail, and waiting on a `faulty` fd may report an error
      even after its fence fired. */
  class SyncDriver {
    var open: map<Fd, set<Point>>
    var signaled: set<Point>
    const faulty: set<Fd>
    ghost var failures: nat     // how many duplications failed

    constructor (faulty: set<Fd>)
      ensures open == map[] && signaled == {} && this.faulty == faulty && failures == 0
    {
      open := map[];
      signaled := {};
      this.faulty := faulty;
      failures := 0;
    }

    /** sync_wait(fd, 0) */
    method Poll(fd: Fd) returns (r: int)
      requires fd in open
      modifies this`signaled
      ensures old(signaled) <= signaled
      ensures r == 0 ==> open[fd] <= signaled
      ensures r != 0 ==> fd in faulty || !(open[fd] <= old(signaled))
    {
      var arrived: set<Point> := *;
      signaled := signaled + arrived;
      var error: bool := *;
      r := if open[fd] <= signaled && !(error && fd in faulty) then 0 else -1;
    }

    /** sync_merge */
    method Merge(a: Fd, b: Fd) returns (fd: Fd)
      requires a in open && b in open
      modifies this`open, this`signaled
      ensures old(signaled) <= signaled
      ensures fd < 0 ==> open == old(open)
      ensures fd >= 0 ==> fd !in old(open) && open == old(open)[fd := old(open)[a] + old(open)[b]]
    {
      fd := NewFd(open[a] + open[b]);
    }

    /** dup */
    method Duplicate(a: Fd) returns (fd: Fd)
      requires a in open
      modifies this
      ensures old(signaled) <= signaled
      ensures fd < 0 ==> open == old(open)
      ensures failures == old(failures) + if fd < 0 then 1 else 0
      ensures fd >= 0 ==> fd !in old(open) && open == old(open)[fd := old(open)[a]]
    {
      fd := NewFd(open[a]);
      if fd < 0 {
        failures := failures + 1;
      }
    }

    method NewFd(points: set<Point>) returns (fd: Fd)
      modifies this`open, this`signaled
      ensures old(signaled) <= signaled
      ensures fd < 0 ==> open == old(open)
      ensures fd >= 0 ==> fd !in old(open) && open == old(open)[fd := points]
    {
      var arrived: set<Point> := *;
      signaled := signaled + arrived;
      var fails: bool := *;
      if fails {
        return -1;
      }
      UnusedFdExists(open.Keys);
      fd :| fd >= 0 && fd !in open;
      open := open[fd := points];
    }

    method Close(fd: Fd)
      requires fd in open
      modifies this`open
      ensures open == old(open) - {fd}
    {
      open := open - {fd};
    }
  }

  lemma UnusedFdExists(s: set<Fd>)
    ensures exists fd :: fd >= 0 && fd !in s
  {
    var bound := UpperBound(s);
    assert bound !in s;
  }

  lemma UpperBound(s: set<Fd>) returns (b: nat)
    ensures forall fd :: fd in s ==> fd < b
  {
    b := 0;
    if some :| some in s {
      b := UpperBound(s - {some});
      b := if some < b then b else some + 1;
      assert forall fd :: fd in s ==> fd == some || fd in s - {some};
    }
  }

  /** Everything a list of fences waits for. */
  ghost function AllPoints(fences: seq<set<Point>>): set<Point> {
    set i, p | 0 <= i < |fences| && p in fences[i] :: p
  }

  /** The vector owns its fds: each is open and listed once. */
  ghost predicate Owned(open: map<Fd, set<Point>>, fences: seq<Fd>) {
    (forall i :: 0 <= i < |fences| ==> fences[i] >= 0 && fences[i] in open) &&
    (forall i, j :: 0 <= i < j < |fences| ==> fences[i] != fences[j])
  }

  ghost function Values(open: map<Fd, set<Point>>, fences: seq<Fd>): (v: seq<set<Point>>)
    requires forall i :: 0 <= i < |fences| ==> fences[i] in open
    ensures |v| == |fences|
  {
    seq(|fences|, i requires 0 <= i < |fences| => open[fences[i]])
  }

  ghost function FdSet(fences: seq<Fd>): set<Fd> {
    set i | 0 <= i < |fences| :: fences[i]
  }

  /** What the fds of a set wait for. */
  ghost function PointsOf(open: map<Fd, set<Point>>, fds: set<Fd>): set<Point> {
    set fd, p | fd in fds && fd in open && p in open[fd] :: p
  }

  lemma AllPointsOfValues(open: map<Fd, set<Point>>, fences: seq<Fd>)
    requires forall i :: 0 <= i < |fences| ==> fences[i] in open
    ensures AllPoints(Values(open, fences)) == PointsOf(open, FdSet(fences))
  {
    var v := Values(open, fences);
    forall p | p in PointsOf(open, FdSet(fences)) ensures p in AllPoints(v) {
      var i :| 0 <= i < |fences| && p in open[fences[i]];
      assert p in v[i];
    }
    forall p | p in AllPoints(v) ensures p in PointsOf(open, FdSet(fences)) {
      var i :| 0 <= i < |v| && p in v[i];
      var fd := fences[i];
      assert v[i] == open[fd] && fd in FdSet(fences);
    }
  }

  /** `after` is what a consolidation may leave of `before`: no dependency is invented
      and every one that is no longer listed has fired. */
  ghost predicate Settled(before: seq<set<Point>>, after: seq<set<Point>>, signaled: set<Point>) {
    AllPoints(after) <= AllPoints(before) <= AllPoints(after) + signaled &&
    |after| <= |before|
  }

  /** A listed-once fd erased from the vector. */
  lemma DropFd(fences: seq<Fd>, at: nat)
    requires at < |fences| && forall i, j :: 0 <= i < j < |fences| ==> fences[i] != fences[j]
    ensures var rest := fences[..at] + fences[at + 1..];
            && FdSet(rest) == FdSet(fences) - {fences[at]}
            && (forall i, j :: 0 <= i < j < |rest| ==> rest[i] != rest[j])
  {
    var rest := fences[..at] + fences[at + 1..];
    assert forall i :: 0 <= i < |rest| ==> rest[i] == fences[if i < at then i else i + 1];
    assert forall i :: 0 <= i < |fences| && i != at ==> fences[i] == rest[if i < at then i else i - 1];
  }

  method PruneReadFences(driver: SyncDriver, fences: seq<Fd>) returns (kept: seq<Fd>)
    requires Owned(driver.open, fences)
    modifies driver`open, driver`signaled
    ensures old(driver.signaled) <= driver.signaled
    ensures Owned(driver.open, kept) && FdSet(kept) <= FdSet(fences) && |kept| <= |fences|
    ensures driver.open == old(driver.open) - (FdSet(fences) - FdSet(kept))
    ensures forall fd :: fd in FdSet(fences) - FdSet(kept) ==> old(driver.open)[fd] <= driver.signaled
    ensures forall fd :: fd in FdSet(kept) ==>
              fd in driver.faulty || !(old(driver.open)[fd] <= old(driver.signaled))
  {
    kept := fences;
    var at := 0;
    while at < |kept|
      invariant 0 <= at <= |kept| <= |fences|
      invariant old(driver.signaled) <= driver.signaled
      invariant Owned(driver.open, kept) && FdSet(kept) <= FdSet(fences)
      invariant driver.open == old(driver.open) - (FdSet(fences) - FdSet(kept))
      invariant forall fd :: fd in FdSet(fences) - FdSet(kept) ==> old(driver.open)[fd] <= driver.signaled
      invariant forall i :: 0 <= i < at ==>
                  kept[i] in driver.faulty || !(old(driver.open)[kept[i]] <= old(driver.signaled))
      decreases |kept| - at
    {
      var fd := kept[at];
      var r := driver.Poll(fd);
      if r == 0 {
        driver.Close(fd);
        DropFd(kept, at);
        kept := kept[..at] + kept[at + 1..];
      } else {
        at := at + 1;
      }
    }
  }

  /** `kept` names the fds whose wait did not report completion: exactly their
      dependencies survive, in at most one fd on success. */
  method ConsolidateReadFences(driver: SyncDriver, fences: seq<Fd>)
    returns (merged: seq<Fd>, ok: bool, ghost kept: set<Fd>)
    requires Owned(driver.open, fences)
    modifies driver`open, driver`signaled
    ensures old(driver.signaled) <= driver.signaled
    ensures Owned(driver.open, merged) && |merged| <= |fences|
    ensures if ok then |merged| <= 1 else |merged| > 1
    ensures kept <= FdSet(fences)
    ensures forall fd :: fd in FdSet(fences) - kept ==> old(driver.open)[fd] <= driver.signaled
    ensures forall fd :: fd in kept ==> fd in driver.faulty || !(old(driver.open)[fd] <= old(driver.signaled))
    ensures PointsOf(driver.open, FdSet(merged)) == PointsOf(old(driver.open), kept)
    ensures FdSet(merged) !! old(driver.open).Keys - FdSet(fences)
    ensures driver.open.Keys == old(driver.open).Keys - FdSet(fences) + FdSet(merged)
    ensures forall fd :: fd in old(driver.open) && fd !in FdSet(fences) ==> driver.open[fd] == old(driver.open)[fd]
    ensures Settled(Values(old(driver.open), fences), Values(driver.open, merged), driver.signaled)
  {
    merged := PruneReadFences(driver, fences);
    kept := FdSet(merged);
    ok := true;
    while |merged| > 1
      invariant old(driver.signaled) <= driver.signaled
      invariant Owned(driver.open, merged) && |merged| <= |fences|
      invariant forall fd :: fd in FdSet(fences) - kept ==> old(driver.open)[fd] <= driver.signaled
      invariant PointsOf(driver.open, FdSet(merged)) == PointsOf(old(driver.open), kept)
      invariant FdSet(merged) !! old(driver.open).Keys - FdSet(fences)
      invariant driver.open.Keys == old(driver.open).Keys - FdSet(fences) + FdSet(merged)
      invariant forall fd :: fd in old(driver.open) && fd !in FdSet(fences) ==> driver.open[fd] == old(driver.open)[fd]
      decreases |merged|
    {
      var first, last := merged[0], merged[|merged| - 1];
      ghost var before, open := merged, driver.open;
      var combined := driver.Merge(first, last);
      if combined < 0 {
        ok := false;
        break;
      }
      driver.Close(first);
      driver.Close(last);
      merged := merged[0 := combined];
      merged := merged[..|merged| - 1];
      MergeKeepsPoints(open, driver.open, before, merged, combined);
    }
    SettledFds(old(driver.open), driver.open, fences, merged, kept, driver.signaled);
  }

  lemma MergeKeepsPoints(open: map<Fd, set<Point>>, open': map<Fd, set<Point>>, before: seq<Fd>, after: seq<Fd>, combined: Fd)
    requires Owned(open, before) && |before| > 1
    requires combined >= 0 && combined !in open
    requires var first, last := before[0], before[|before| - 1];
             open' == open[combined := open[first] + open[last]] - {first} - {last} &&
             after == before[0 := combined][..|before| - 1]
    ensures Owned(open', after)
    ensures FdSet(after) == FdSet(before) - {before[0], before[|before| - 1]} + {combined}
    ensures PointsOf(open', FdSet(after)) == PointsOf(open, FdSet(before))
  {
    var first, last := before[0], before[|before| - 1];
    assert forall i :: 0 < i < |after| ==> after[i] == before[i];
    assert after[0] == combined;
    assert FdSet(after) == FdSet(before) - {first, last} + {combined} by {
      forall fd | fd in FdSet(before) - {first, last} ensures fd in FdSet(after) {
        var i :| 0 <= i < |before| && before[i] == fd;
        assert after[i] == fd;
      }
    }
    forall p | p in PointsOf(open, FdSet(before)) ensures p in PointsOf(open', FdSet(after)) {
      var fd :| fd in FdSet(before) && p in open[fd];
      if fd == first || fd == last {
        assert p in open'[combined];
      } else {
        assert fd in open';
      }
    }
    forall p | p in PointsOf(open', FdSet(after)) ensures p in PointsOf(open, FdSet(before)) {
      var fd :| fd in FdSet(after) && fd in open' && p in open'[fd];
      if fd == combined {
        assert first in FdSet(before) && last in FdSet(before);
      }
    }
  }

  lemma SettledFds(open: map<Fd, set<Point>>, open': map<Fd, set<Point>>, before: seq<Fd>, after: seq<Fd>,
                   kept: set<Fd>, signaled: set<Point>)
    requires Owned(open, before) && Owned(open', after) && |after| <= |before| && kept <= FdSet(before)
    requires PointsOf(open', FdSet(after)) == PointsOf(open, kept)
    requires forall fd :: fd in FdSet(before) - kept ==> open[fd] <= signaled
    ensures Settled(Values(open, before), Values(open', after), signaled)
  {
    AllPointsOfValues(open, before);
    AllPointsOfValues(open', after);
  }

  /** retiredFrameReady: nobody is reading and every recorded read has finished. */
  method RetiredFrameReady(driver: SyncDriver, inflight: nat, fences: seq<Fd>) returns (kept: seq<Fd>, ready: bool)
    requires Owned(driver.open, fences)
    modifies driver`open, driver`signaled
    ensures old(driver.signaled) <= driver.signaled
    ensures Owned(driver.open, kept) && FdSet(kept) <= FdSet(fences)
    ensures driver.open == old(driver.open) - (FdSet(fences) - FdSet(kept))
    ensures Settled(Values(old(driver.open), fences), Values(driver.open, kept), driver.signaled)
    ensures ready <==> inflight == 0 && kept == []
    ensures forall fd :: fd in FdSet(kept) ==> fd in driver.faulty || !(old(driver.open)[fd] <= old(driver.signaled))
    ensures ready ==> AllPoints(Values(old(driver.open), fences)) <= driver.signaled
  {
    kept := PruneReadFences(driver, fences);
    ready := inflight == 0 && kept == [];
    SettledFds(old(driver.open), driver.open, fences, kept, FdSet(kept), driver.signaled);
  }

  /** duplicateAcquireFence: a negative fd is "no fence"; a failed dup is not. */
  method DuplicateAcquireFence(driver: SyncDriver, fd: Fd) returns (output: Fd, ok: bool)
    requires fd >= 0 ==> fd in driver.open
    modifies driver
    ensures old(driver.signaled) <= driver.signaled
    ensures fd < 0 ==> ok && output == -1 && driver.open == old(driver.open)
    ensures fd >= 0 && ok ==> output >= 0 && output !in old(driver.open)
    ensures fd >= 0 && ok ==> driver.open == old(driver.open)[output := old(driver.open)[fd]]
    ensures !ok ==> fd >= 0 && output < 0 && driver.open == old(driver.open)
  {
    output := -1;
    if fd < 0 {
      return -1, true;
    }
    output := driver.Duplicate(fd);
    ok := output >= 0;
  }
}
