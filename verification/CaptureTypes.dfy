/** What a capture session exchanges with the camera framework, the HAL source and the
    converters (hal/aidl-v1/VirtualCameraSession.cpp). Foreign calls return arbitrary results
    within their contracts. */
module CaptureTypes {
  import opened Wrappers
  import opened ReadFences

  /** A parcelled sync fence: valid ones carry no integers and at most one fd. */
  datatype Handle = Handle(ints: nat, fds: seq<Fd>)

  datatype OutBuffer = OutBuffer(streamId: int, bufferId: int, hasHandle: bool, fence: Handle)

  /** Metadata as far as it matters here; None is an empty block, meaning "unchanged". */
  datatype Settings = Unchanged | Malformed | Given(rate: Option<seq<int>>)

  datatype Request = Request(frame: int, buffers: seq<OutBuffer>, inputStream: int, settings: Settings, fmqSize: int)

  datatype Message = RequestError(frame: int) | BufferError(frame: int, streamId: int) | Shutter(frame: int, timestamp: int)

  /** A negative fd is no release fence. */
  datatype ResultBuffer = ResultBuffer(streamId: int, bufferId: int, ok: bool, releaseFence: Fd)

  datatype Callback = Notify(messages: seq<Message>) | Result(frame: int, buffers: seq<ResultBuffer>, partial: int)

  // ---------------------------------------------------------------- fds held for a while

  type Fences = map<Fd, set<Point>>

  /** The fds in a list of slots, where a negative entry is an empty slot. */
  ghost function Held(fds: seq<Fd>): set<Fd> {
    set i | 0 <= i < |fds| && fds[i] >= 0 :: fds[i]
  }

  ghost predicate Distinct(fds: seq<Fd>) {
    forall i, j :: 0 <= i < j < |fds| && fds[i] >= 0 ==> fds[i] != fds[j]
  }

  /** `after` is `before` with exactly these fds newly opened. */
  ghost predicate Grown(before: Fences, after: Fences, fds: set<Fd>) {
    after.Keys == before.Keys + fds && fds !! before.Keys && forall fd :: fd in before ==> after[fd] == before[fd]
  }

  ghost function PointsAt(open: Fences, fd: Fd): set<Point> {
    if fd in open then open[fd] else {}
  }

  lemma HeldAppend(fds: seq<Fd>, fd: Fd)
    requires Distinct(fds) && (fd >= 0 ==> fd !in Held(fds))
    ensures Held(fds + [fd]) == Held(fds) + (if fd >= 0 then {fd} else {}) && Distinct(fds + [fd])
  {
    var all := fds + [fd];
    forall x | x in Held(fds) + (if fd >= 0 then {fd} else {}) ensures x in Held(all) {
      if fd >= 0 && x == fd {
        assert all[|fds|] == x;
      } else {
        var i :| 0 <= i < |fds| && fds[i] >= 0 && fds[i] == x;
        assert all[i] == x;
      }
    }
    forall i, j | 0 <= i < j < |all| && all[i] >= 0 ensures all[i] != all[j] {
      if j == |fds| && fd >= 0 {
        assert fds[i] in Held(fds);
      }
    }
  }

  lemma HeldCleared(fds: seq<Fd>, at: nat)
    requires at < |fds| && Distinct(fds)
    ensures Held(fds[at := -1]) == Held(fds) - {fds[at]} && Distinct(fds[at := -1])
  {
    var rest := fds[at := -1];
    forall x | x in Held(fds) - {fds[at]} ensures x in Held(rest) {
      var i :| 0 <= i < |fds| && fds[i] >= 0 && fds[i] == x;
      assert rest[i] == x;
    }
    assert forall i :: 0 <= i < |rest| && rest[i] >= 0 ==> rest[i] != fds[at];
  }

  /** Going out of scope closes every fd still held. */
  method CloseAll(driver: SyncDriver, fds: seq<Fd>)
    requires Distinct(fds) && Held(fds) <= driver.open.Keys
    modifies driver`open
    ensures driver.open == old(driver.open) - Held(fds)
  {
    var rest := fds;
    for i := 0 to |fds|
      invariant |rest| == |fds| && rest[i..] == fds[i..]
      invariant Distinct(rest) && Held(rest) <= driver.open.Keys
      invariant forall k :: 0 <= k < i ==> rest[k] == -1
      invariant driver.open - Held(rest) == old(driver.open) - Held(fds)
      invariant forall fd :: fd in driver.open ==> fd in old(driver.open)
    {
      HeldCleared(rest, i);
      if rest[i] >= 0 {
        assert rest[i] in Held(rest);
        driver.Close(rest[i]);
      }
      rest := rest[i := -1];
    }
    assert Held(rest) == {};
  }

  // ---------------------------------------------------------------- the HAL as a source

  /** The session's view of the stable HAL: what it lent and what it got back. */
  class SourcePort {
    const driver: SyncDriver
    ghost var lent: seq<(nat, nat)>             // buffer and sequence of each lease
    ghost var returned: seq<(nat, set<Point>)>  // buffer and read dependencies of each release
    ghost var stale: nat                        // how often the frame on loan was found not to be current
    ghost var tokens: seq<int>                  // what it was told on configuring
    ghost var refusals: nat                     // how often a registration or configuration was refused

    constructor (driver: SyncDriver)
      ensures this.driver == driver && lent == [] && returned == [] && stale == 0 && refusals == 0 && tokens == []
    {
      this.driver := driver;
      lent, returned, stale, refusals, tokens := [], [], 0, 0, [];
    }

    /** A lease is for a newer submission than `after`; its fence is the caller's. */
    method AcquireLatest(after: nat) returns (buffer: nat, fence: Fd, sequence: nat)
      modifies this`lent, driver`open, driver`signaled
      ensures old(driver.signaled) <= driver.signaled
      ensures buffer == 0 ==> fence == -1 && lent == old(lent) && driver.open == old(driver.open)
      ensures buffer != 0 ==> sequence > after && lent == old(lent) + [(buffer, sequence)] && fence >= -1
      ensures buffer != 0 ==> Grown(old(driver.open), driver.open, if fence >= 0 then {fence} else {})
    {
      buffer, fence, sequence := *, -1, 0;
      if buffer != 0 {
        var newer: nat, points: set<Point>, fenced: bool := *, *, *;
        sequence := after + 1 + newer;
        if fenced {
          fence := driver.NewFd(points);
          if fence < 0 {
            fence := -1;
          }
        }
        lent := lent + [(buffer, sequence)];
      }
    }

    /** Takes the fds over. */
    method ReleaseFrame(buffer: nat, fences: seq<Fd>)
      requires Distinct(fences) && Held(fences) <= driver.open.Keys
      modifies this`returned, driver`open
      ensures returned == old(returned) + [(buffer, PointsOf(old(driver.open), Held(fences)))]
      ensures driver.open == old(driver.open) - Held(fences)
    {
      returned := returned + [(buffer, PointsOf(driver.open, Held(fences)))];
      CloseAll(driver, fences);
    }

    method IsFrameCurrent() returns (current: bool)
      modifies this`stale
      ensures stale == old(stale) + if current then 0 else 1
    {
      current := *;
      if !current {
        stale := stale + 1;
      }
    }

    method NotifyConfigured() returns (token: int)
      modifies this`refusals, this`tokens
      ensures refusals == old(refusals) + if token > 0 then 0 else 1
      ensures tokens == old(tokens) + [token]
    {
      token := *;
      tokens := tokens + [token];
      if token <= 0 {
        refusals := refusals + 1;
      }
    }

    method RegistrationCurrent() returns (current: bool)
      modifies this`refusals
      ensures refusals == old(refusals) + if current then 0 else 1
    {
      current := *;
      if !current {
        refusals := refusals + 1;
      }
    }
  }

  /** GPU work still writing to an output buffer when its fence was made. */
  datatype Job = Job(streamId: int, bufferId: int, work: set<Point>)

  /** The GPU path leaves a fence for work still running, or none. */
  class Compositor {
    const driver: SyncDriver
    ghost var jobs: seq<Job>

    constructor (driver: SyncDriver)
      ensures this.driver == driver && jobs == []
    {
      this.driver := driver;
      jobs := [];
    }

    method Composite(b: OutBuffer) returns (doneFence: Fd)
      modifies this, driver`open, driver`signaled
      ensures old(driver.signaled) <= driver.signaled && doneFence >= -1
      ensures Grown(old(driver.open), driver.open, if doneFence >= 0 then {doneFence} else {})
      ensures jobs == old(jobs) + if doneFence >= 0 then [Job(b.streamId, b.bufferId, driver.open[doneFence])] else []
    {
      doneFence := -1;
      var running: bool, work: set<Point> := *, *;
      if running {
        doneFence := driver.NewFd(work);
        if doneFence < 0 {
          doneFence := -1;
        } else {
          jobs := jobs + [Job(b.streamId, b.bufferId, work)];
        }
      }
    }
  }

  /** The graphics mapper, which takes a copy of each new buffer handle or refuses to. */
  class BufferMapper {
    ghost var failures: nat

    constructor ()
      ensures failures == 0
    {
      failures := 0;
    }

    method Import() returns (imported: bool)
      modifies this
      ensures failures == old(failures) + if imported then 0 else 1
    {
      imported := *;
      if !imported {
        failures := failures + 1;
      }
    }
  }
}
