/** Frame pacing of a capture session (hal/aidl-v1/VirtualCameraSession.cpp:518-535). */
module Pacer {
  const SECOND: int := 1_000_000_000

  /** The steady clock and the session's cancellation as the request thread observes them: the
      clock never goes back and a cancellation is never taken back. */
  class Environment {
    var now: int
    var cancelled: bool

    constructor (now: int)
      requires now > 0
      ensures this.now == now
    {
      this.now := now;
      cancelled := false;
    }

    method Tick()
      modifies this
      ensures now >= old(now) && (old(cancelled) ==> cancelled)
    {
      var later: nat, cancel: bool := *, *;
      now, cancelled := now + later, cancelled || cancel;
    }

    /** wait_for with the cancellation predicate. */
    method WaitUntil(deadline: int)
      modifies this
      ensures now >= old(now) && (old(cancelled) ==> cancelled) && (now >= deadline || cancelled)
    {
      Tick();
      if now < deadline && !cancelled {
        now := deadline;
      }
    }
  }

  /** Whole nanoseconds of one frame, rounded up. */
  function Interval(fps: int): int
    requires fps >= 1
  {
    (SECOND + fps - 1) / fps
  }

  lemma PositiveFactor(q: int, n: int)
    requires n > 0 && q * n > 0
    ensures q > 0
  {
  }

  lemma IntervalIsCeiling(fps: int)
    requires fps >= 1
    ensures fps * Interval(fps) >= SECOND > fps * (Interval(fps) - 1)
    ensures Interval(fps) >= 1
  {
    var q, r := Interval(fps), (SECOND + fps - 1) % fps;
    assert SECOND + fps - 1 == q * fps + r && 0 <= r < fps;
    assert fps * (q - 1) == q * fps - fps;
    PositiveFactor(q, fps);
  }

  /** The slot a call at time `now` aims for; next == 0 means none is scheduled. */
  function Aim(next: int, now: int, interval: int): int {
    if next == 0 || now > next + interval then now else next
  }

  /** One call of the pacer: its schedule before, its clock reading, its slot (zero if it was
      cancelled) and its schedule after. */
  datatype Paced = Paced(next: int, at: int, slot: int, after: int)

  ghost predicate Paces(fps: int, p: Paced)
    requires fps >= 1
  {
    var aim := Aim(p.next, p.at, Interval(fps));
    p.at > 0 && if p.slot == 0 then p.after == aim else p.slot == aim && p.after == aim + Interval(fps)
  }

  class FramePacer {
    var targetFps: int
    var nextFrameNs: int

    constructor (fps: int)
      ensures targetFps == fps && nextFrameNs == 0
    {
      targetFps, nextFrameNs := fps, 0;
    }

    /** `at` is the clock reading of the call. The division is undefined for a zero rate. */
    method PaceFrame(env: Environment) returns (slot: int, ghost at: int)
      requires targetFps >= 1 && env.now > 0 && nextFrameNs >= 0
      modifies this`nextFrameNs, env
      ensures old(env.now) <= at <= env.now && (old(env.cancelled) ==> env.cancelled)
      ensures Paces(targetFps, Paced(old(nextFrameNs), at, slot, nextFrameNs)) && (slot == 0 ==> env.cancelled)
      ensures slot != 0 ==> at - Interval(targetFps) <= slot <= env.now
      ensures nextFrameNs > 0 && slot >= 0
    {
      var interval := (1000000000 + targetFps - 1) / targetFps;
      IntervalIsCeiling(targetFps);
      env.Tick();
      var now := env.now;
      at := now;
      if nextFrameNs == 0 || now > nextFrameNs + interval {
        nextFrameNs := now;
      }
      if now < nextFrameNs {
        env.WaitUntil(nextFrameNs);
      }
      env.Tick();
      if env.cancelled {
        return 0, at;
      }
      slot := nextFrameNs;
      nextFrameNs := nextFrameNs + interval;
    }
  }

  // ---------------------------------------------------------------- whole runs

  /** One call: when it read the clock and whether it was cancelled. */
  datatype Call = Call(now: int, cancelled: bool)

  /** The slots handed out by consecutive calls, with no flush or rate change between. */
  function Slots(next: int, interval: int, calls: seq<Call>): seq<int>
    decreases |calls|
  {
    if calls == [] then []
    else
      var aim := Aim(next, calls[0].now, interval);
      if calls[0].cancelled then Slots(aim, interval, calls[1..])
      else [aim] + Slots(aim + interval, interval, calls[1..])
  }

  lemma OneMore(k: int, interval: int)
    ensures (k + 1) * interval == k * interval + interval
  {
  }

  /** No slot comes before its place in an even schedule from `next`. */
  ghost predicate EvenlyLater(slots: seq<int>, next: int, interval: int) {
    forall i :: 0 <= i < |slots| ==> slots[i] >= next + i * interval
  }

  lemma {:induction false} SlotsFrom(next: int, interval: int, calls: seq<Call>)
    requires next >= 0 && interval >= 1 && forall c :: c in calls ==> c.now > 0
    ensures EvenlyLater(Slots(next, interval, calls), next, interval)
    decreases |calls|
  {
    var s := Slots(next, interval, calls);
    if calls != [] {
      var aim := Aim(next, calls[0].now, interval);
      if calls[0].cancelled {
        SlotsFrom(aim, interval, calls[1..]);
        var rest := Slots(aim, interval, calls[1..]);
        forall i | 0 <= i < |s| ensures s[i] >= next + i * interval {
          assert rest[i] >= aim + i * interval;
        }
      } else {
        SlotsFrom(aim + interval, interval, calls[1..]);
        forall i | 0 <= i < |s| ensures s[i] >= next + i * interval {
          if i > 0 {
            var rest := Slots(aim + interval, interval, calls[1..]);
            assert s[i] == rest[i - 1] && rest[i - 1] >= aim + interval + (i - 1) * interval;
            OneMore(i - 1, interval);
          }
        }
      }
    }
  }

  /** Slots are at least one interval apart. */
  lemma {:induction false} SlotsApart(next: int, interval: int, calls: seq<Call>, i: nat, j: nat)
    requires next >= 0 && interval >= 1 && forall c :: c in calls ==> c.now > 0
    requires i < j < |Slots(next, interval, calls)|
    ensures Slots(next, interval, calls)[j] - Slots(next, interval, calls)[i] >= (j - i) * interval
    decreases |calls|
  {
    var aim := Aim(next, calls[0].now, interval);
    if calls[0].cancelled {
      SlotsApart(aim, interval, calls[1..], i, j);
    } else if i > 0 {
      SlotsApart(aim + interval, interval, calls[1..], i - 1, j - 1);
    } else {
      SlotsFrom(aim + interval, interval, calls[1..]);
      assert Slots(next, interval, calls)[j] == Slots(aim + interval, interval, calls[1..])[j - 1];
      OneMore(j - 1, interval);
    }
  }

  /** The slots that fall in a window of one second. */
  ghost function InSecond(slots: seq<int>, start: int): set<int> {
    set i | 0 <= i < |slots| && start <= slots[i] < start + SECOND
  }

  lemma {:induction false} NarrowSet(s: set<int>, low: int, n: nat)
    requires forall i :: i in s ==> low <= i < low + n
    ensures |s| <= n
    decreases n
  {
    if n > 0 {
      var rest := s - {low + n - 1};
      NarrowSet(rest, low, n - 1);
      assert s <= rest + {low + n - 1};
      assert |s| <= |rest| + 1;
    } else {
      assert forall i :: i !in s;
    }
  }

  lemma {:induction false} Least(s: set<int>) returns (low: int)
    ensures s != {} ==> low in s && forall i :: i in s ==> low <= i
    decreases |s|
  {
    low := 0;
    if some :| some in s {
      var rest := s - {some};
      low := Least(rest);
      if rest == {} || some < low {
        low := some;
      }
      assert forall i :: i in s ==> i == some || i in rest;
    } else {
      assert forall i :: i !in s;
    }
  }

  lemma FullSecond(fps: int, k: int)
    requires fps >= 1 && k >= fps
    ensures k * Interval(fps) >= SECOND
  {
    IntervalIsCeiling(fps);
    var n := Interval(fps);
    assert k * n == fps * n + (k - fps) * n;
  }

  /** At most `fps` slots in any second, whatever the timing of the calls. */
  lemma RateIsBounded(next: int, fps: int, calls: seq<Call>, start: int)
    requires next >= 0 && fps >= 1 && forall c :: c in calls ==> c.now > 0
    ensures |InSecond(Slots(next, Interval(fps), calls), start)| <= fps
  {
    hide Interval;
    var slots := Slots(next, Interval(fps), calls);
    var inside := InSecond(slots, start);
    var low := Least(inside);
    IntervalIsCeiling(fps);
    forall i | i in inside ensures low <= i < low + fps {
      if i >= low + fps {
        SlotsApart(next, Interval(fps), calls, low, i);
        FullSecond(fps, i - low);
      }
    }
    NarrowSet(inside, low, fps);
  }

  /** Consecutive calls of one pacer, each starting from the schedule the last one left. */
  ghost predicate PacedRun(fps: int, run: seq<Paced>)
    requires fps >= 1
  {
    && (forall i :: 0 <= i < |run| ==> Paces(fps, run[i]))
    && (forall i :: 0 <= i < |run| - 1 ==> run[i + 1].next == run[i].after)
  }

  function CallsOf(run: seq<Paced>): (calls: seq<Call>)
    ensures |calls| == |run| && forall i :: 0 <= i < |run| ==> calls[i] == Call(run[i].at, run[i].slot == 0)
  {
    seq(|run|, i requires 0 <= i < |run| => Call(run[i].at, run[i].slot == 0))
  }

  function HandedOut(run: seq<Paced>): seq<int> {
    if run == [] then []
    else (if run[0].slot == 0 then [] else [run[0].slot]) + HandedOut(run[1..])
  }

  /** What a pacer hands out over consecutive calls are the slots of those calls. */
  lemma {:induction false} PacedRunGivesSlots(fps: int, run: seq<Paced>, next: int)
    requires fps >= 1 && PacedRun(fps, run) && (run != [] ==> run[0].next == next)
    ensures HandedOut(run) == Slots(next, Interval(fps), CallsOf(run))
    ensures forall c :: c in CallsOf(run) ==> c.now > 0
    decreases |run|
  {
    hide Interval, Aim;
    if run != [] {
      assert Paces(fps, run[0]);
      assert CallsOf(run)[1..] == CallsOf(run[1..]);
      assert CallsOf(run)[0] == Call(run[0].at, run[0].slot == 0);
      PacedRunGivesSlots(fps, run[1..], run[0].after);
    }
  }

  /** So the frames a pacer lets through never exceed its rate. */
  lemma PacerKeepsRate(fps: int, run: seq<Paced>, start: int)
    requires fps >= 1 && PacedRun(fps, run) && (run != [] ==> run[0].next >= 0)
    ensures |InSecond(HandedOut(run), start)| <= fps
  {
    var next := if run == [] then 0 else run[0].next;
    PacedRunGivesSlots(fps, run, next);
    RateIsBounded(next, fps, CallsOf(run), start);
  }

  /** No call comes later than one interval after the slot it aims for. */
  ghost predicate OnTime(next: int, interval: int, calls: seq<Call>) {
    forall i :: 0 <= i < |calls| ==> !calls[i].cancelled && calls[i].now <= next + (i + 1) * interval
  }

  /** A client that keeps up gets evenly spaced slots without drift. */
  lemma {:induction false} NoDrift(next: int, interval: int, calls: seq<Call>)
    requires next > 0 && interval >= 1 && OnTime(next, interval, calls)
    ensures var s := Slots(next, interval, calls);
            |s| == |calls| && forall i :: 0 <= i < |s| ==> s[i] == next + i * interval
    decreases |calls|
  {
    if calls != [] {
      assert calls[0].now <= next + (0 + 1) * interval;
      forall i | 0 <= i < |calls| - 1
        ensures !calls[1..][i].cancelled && calls[1..][i].now <= next + interval + (i + 1) * interval
      {
        assert (i + 2) * interval == interval + (i + 1) * interval;
        assert calls[1..][i] == calls[i + 1];
        assert calls[i + 1].now <= next + (i + 1 + 1) * interval;
      }
      NoDrift(next + interval, interval, calls[1..]);
      var s, rest := Slots(next, interval, calls), Slots(next + interval, interval, calls[1..]);
      forall i | 0 <= i < |s| ensures s[i] == next + i * interval {
        if i > 0 {
          assert s[i] == rest[i - 1];
          assert (i - 1) * interval + interval == i * interval;
        }
      }
    }
  }
}
