/** The control ring itself (v2-shared-memory/SharedBufferPool.h): one process's calls on the
    shared memory, with its 32-bit indices. `written` and `consumed` count the writes and
    reads since the ring was created; the indices are these counts modulo 2^32. */
module V2Ring {
  import opened Wrappers

  const RING_SIZE: nat := 16
  const WRAP: nat := 0x1_0000_0000

  type uint32 = x: int | 0 <= x < WRAP

  function Sub32(a: uint32, b: uint32): uint32 {
    (a - b) % WRAP
  }

  function Inc32(a: uint32): uint32 {
    (a + 1) % WRAP
  }

  datatype Slot = Slot(bufferIndex: nat, fenceFd: int, timestampNs: int)

  /** The indices of a ring that was written and read this often. */
  ghost predicate Counts(write: uint32, read: uint32, written: nat, consumed: nat) {
    consumed <= written <= consumed + RING_SIZE && write == written % WRAP && read == consumed % WRAP
  }

  lemma PendingIsDifference(write: uint32, read: uint32, written: nat, consumed: nat)
    requires Counts(write, read, written, consumed)
    ensures Sub32(write, read) == written - consumed
  {
    var pending := written - consumed;
    assert written == WRAP * (written / WRAP) + write && consumed == WRAP * (consumed / WRAP) + read;
    var k := written / WRAP - consumed / WRAP;
    assert write - read == pending - WRAP * k;
    assert k == 0 || k == 1;
  }

  /** The reader compares the wrapped indices: it sees a pending frame exactly when the write
      count has not passed a multiple of 2^32 that the read count has yet to reach. */
  lemma ReaderSeesPending(write: uint32, read: uint32, written: nat, consumed: nat)
    requires Counts(write, read, written, consumed)
    ensures read < write <==> consumed < written && consumed / WRAP == written / WRAP
  {
    assert written == WRAP * (written / WRAP) + write && consumed == WRAP * (consumed / WRAP) + read;
    if consumed / WRAP != written / WRAP {
      PendingIsDifference(write, read, written, consumed);
      assert WRAP * (written / WRAP) >= WRAP * (consumed / WRAP) + WRAP;
    }
  }

  /** A ring whose reader stopped one frame before the 2^32nd write: the frame is pending, yet
      the reader finds the ring empty. */
  lemma WrapHidesFrame(write: uint32, read: uint32)
    requires Counts(write, read, WRAP, WRAP - 1)
    ensures Sub32(write, read) == 1 && !(read < write)
  {
  }

  /** Once the write count passed such a multiple the reader never reads again, however many
      more frames are written. */
  lemma WrapStallsForever(written: nat, written': nat, consumed: nat, write': uint32, read: uint32)
    requires consumed < written <= written' && consumed / WRAP < written / WRAP
    requires Counts(write', read, written', consumed)
    ensures !(read < write')
  {
    ReaderSeesPending(write', read, written', consumed);
    assert written / WRAP <= written' / WRAP;
  }

  /** Ring entries number `from` up to `to`. */
  ghost function Window<T>(entries: seq<T>, from: nat, to: nat): (q: seq<T>)
    requires |entries| == RING_SIZE && from <= to
    ensures |q| == to - from
  {
    seq(to - from, i requires 0 <= i < to - from => entries[(from + i) % RING_SIZE])
  }

  lemma WindowPush<T>(entries: seq<T>, from: nat, to: nat, x: T)
    requires |entries| == RING_SIZE && from <= to < from + RING_SIZE
    ensures Window(entries[to % RING_SIZE := x], from, to + 1) == Window(entries, from, to) + [x]
  {
    var window, pushed := Window(entries, from, to), Window(entries[to % RING_SIZE := x], from, to + 1);
    forall i | 0 <= i < |window| ensures pushed[i] == window[i] {
      assert (from + i) % RING_SIZE != to % RING_SIZE;
    }
  }

  lemma WindowPop<T>(entries: seq<T>, from: nat, to: nat)
    requires |entries| == RING_SIZE && from < to
    ensures Window(entries, from, to)[0] == entries[from % RING_SIZE]
    ensures Window(entries, from + 1, to) == Window(entries, from, to)[1..]
  {
  }

  class ControlRing {
    var writeIndex: uint32
    var readIndex: uint32
    const slots: array<Slot>
    var releaseWriteIndex: uint32
    var releaseReadIndex: uint32
    const releaseSlots: array<nat>
    const bufferState: array<bool> // true: in flight or owned by a process
    ghost var written: nat
    ghost var consumed: nat
    ghost var releaseWritten: nat
    ghost var releaseConsumed: nat

    ghost predicate Valid()
      reads this
    {
      && slots.Length == RING_SIZE && releaseSlots.Length == RING_SIZE
      && Counts(writeIndex, readIndex, written, consumed)
      && Counts(releaseWriteIndex, releaseReadIndex, releaseWritten, releaseConsumed)
    }

    /** Frames submitted and not yet read, oldest first. */
    ghost function Frames(): (q: seq<Slot>)
      reads this, slots
      requires Valid()
      ensures |q| == written - consumed
    {
      Window(slots[..], consumed, written)
    }

    ghost function Releases(): (q: seq<nat>)
      reads this, releaseSlots
      requires Valid()
      ensures |q| == releaseWritten - releaseConsumed
    {
      Window(releaseSlots[..], releaseConsumed, releaseWritten)
    }

    constructor (bufferCount: nat)
      ensures Valid() && Frames() == [] && Releases() == []
      ensures bufferState.Length == bufferCount && forall b :: 0 <= b < bufferCount ==> !bufferState[b]
      ensures fresh(slots) && fresh(releaseSlots) && fresh(bufferState)
    {
      writeIndex, readIndex, releaseWriteIndex, releaseReadIndex := 0, 0, 0, 0;
      written, consumed, releaseWritten, releaseConsumed := 0, 0, 0, 0;
      slots := new Slot[RING_SIZE](i => Slot(0, -1, 0));
      releaseSlots := new nat[RING_SIZE](i => 0);
      bufferState := new bool[bufferCount](i => false);
    }

    method TryWrite(bufferIdx: nat, fenceFd: int, timestamp: int) returns (ok: bool)
      requires Valid()
      modifies this`writeIndex, this`written, slots
      ensures Valid() && consumed == old(consumed)
      ensures ok <==> |old(Frames())| < RING_SIZE
      ensures Frames() == if ok then old(Frames()) + [Slot(bufferIdx, fenceFd, timestamp)] else old(Frames())
      ensures written == old(written) + if ok then 1 else 0
    {
      var write, read := writeIndex, readIndex;
      PendingIsDifference(write, read, written, consumed);
      if Sub32(write, read) >= RING_SIZE {
        return false;
      }
      WrappedSlot(written);
      WindowPush(slots[..], consumed, written, Slot(bufferIdx, fenceFd, timestamp));
      slots[write % RING_SIZE] := Slot(bufferIdx, fenceFd, timestamp);
      assert slots[..] == old(slots[..])[written % RING_SIZE := Slot(bufferIdx, fenceFd, timestamp)];
      NextCount(written);
      writeIndex := Inc32(write);
      written := written + 1;
      return true;
    }

    /** Reads the oldest frame, unless the ring is empty or the writer wrapped past the reader. */
    method TryRead() returns (ok: bool, out: Slot)
      requires Valid()
      modifies this`readIndex, this`consumed
      ensures Valid() && written == old(written)
      ensures ok <==> old(Frames()) != [] && old(consumed) / WRAP == written / WRAP
      ensures ok ==> out == old(Frames())[0] && Frames() == old(Frames())[1..] && consumed == old(consumed) + 1
      ensures !ok ==> Frames() == old(Frames()) && consumed == old(consumed)
      ensures Releases() == old(Releases())
    {
      var read, write := readIndex, writeIndex;
      ReaderSeesPending(write, read, written, consumed);
      out := Slot(0, -1, 0);
      if read >= write {
        return false, out;
      }
      WrappedSlot(consumed);
      WindowPop(slots[..], consumed, written);
      out := slots[read % RING_SIZE];
      NextCount(consumed);
      readIndex := Inc32(read);
      consumed := consumed + 1;
      return true, out;
    }

    method TryWriteRelease(bufferIdx: nat) returns (ok: bool)
      requires Valid() && bufferIdx < bufferState.Length
      modifies this`releaseWriteIndex, this`releaseWritten, releaseSlots, bufferState
      ensures Valid() && releaseConsumed == old(releaseConsumed)
      ensures ok <==> |old(Releases())| < RING_SIZE
      ensures Releases() == if ok then old(Releases()) + [bufferIdx] else old(Releases())
      ensures forall b :: 0 <= b < bufferState.Length ==> bufferState[b] == (old(bufferState[b]) && !(ok && b == bufferIdx))
      ensures Frames() == old(Frames())
    {
      var write, read := releaseWriteIndex, releaseReadIndex;
      PendingIsDifference(write, read, releaseWritten, releaseConsumed);
      if Sub32(write, read) >= RING_SIZE {
        return false;
      }
      WrappedSlot(releaseWritten);
      WindowPush(releaseSlots[..], releaseConsumed, releaseWritten, bufferIdx);
      releaseSlots[write % RING_SIZE] := bufferIdx;
      assert releaseSlots[..] == old(releaseSlots[..])[releaseWritten % RING_SIZE := bufferIdx];
      bufferState[bufferIdx] := false;
      NextCount(releaseWritten);
      releaseWriteIndex := Inc32(write);
      releaseWritten := releaseWritten + 1;
      return true;
    }

    method TryReadRelease() returns (ok: bool, out: nat)
      requires Valid()
      modifies this`releaseReadIndex, this`releaseConsumed
      ensures Valid() && releaseWritten == old(releaseWritten)
      ensures ok <==> old(Releases()) != [] && old(releaseConsumed) / WRAP == releaseWritten / WRAP
      ensures ok ==> out == old(Releases())[0] && Releases() == old(Releases())[1..]
      ensures ok ==> releaseConsumed == old(releaseConsumed) + 1
      ensures !ok ==> Releases() == old(Releases()) && releaseConsumed == old(releaseConsumed)
    {
      var read, write := releaseReadIndex, releaseWriteIndex;
      ReaderSeesPending(write, read, releaseWritten, releaseConsumed);
      if read >= write {
        return false, 0;
      }
      WrappedSlot(releaseConsumed);
      WindowPop(releaseSlots[..], releaseConsumed, releaseWritten);
      out := releaseSlots[read % RING_SIZE];
      NextCount(releaseConsumed);
      releaseReadIndex := Inc32(read);
      releaseConsumed := releaseConsumed + 1;
      return true, out;
    }

    /** The lowest free buffer, now in use, or -1. */
    method AcquireFreeBuffer() returns (index: int)
      requires bufferState.Length > 0
      modifies bufferState
      ensures -1 <= index < bufferState.Length
      ensures index == -1 ==> forall b :: 0 <= b < bufferState.Length ==> old(bufferState[b])
      ensures index >= 0 ==> !old(bufferState[index]) && forall b :: 0 <= b < index ==> old(bufferState[b])
      ensures forall b :: 0 <= b < bufferState.Length ==> bufferState[b] == (old(bufferState[b]) || b == index)
    {
      for i := 0 to bufferState.Length
        invariant forall b :: 0 <= b < i ==> bufferState[b]
        invariant forall b :: 0 <= b < bufferState.Length ==> bufferState[b] == old(bufferState[b])
      {
        if !bufferState[i] {
          bufferState[i] := true;
          return i;
        }
      }
      return -1;
    }

    method ReleaseBuffer(index: int)
      modifies bufferState
      ensures forall b :: 0 <= b < bufferState.Length ==> bufferState[b] == (old(bufferState[b]) && b != index)
    {
      if 0 <= index < bufferState.Length {
        bufferState[index] := false;
      }
    }

    /** Whether the wrapped comparison lets the reader see what is pending. */
    ghost predicate Visible()
      reads this, slots
      requires Valid()
    {
      Frames() != [] && written / WRAP == consumed / WRAP
    }

    /** acquireLatestFrame while no producer interferes: the newest frame is kept and every
        older one released, oldest first, as far as the release ring has room. */
    method AcquireLatestFrame() returns (found: bool, latest: Slot, dropped: nat)
      requires Valid() && forall i :: 0 <= i < |Frames()| ==> Frames()[i].bufferIndex < bufferState.Length
      modifies this`readIndex, this`consumed, this`releaseWriteIndex, this`releaseWritten, releaseSlots, bufferState
      ensures Valid() && found == old(Visible())
      ensures found ==> Frames() == [] && latest == old(Frames())[|old(Frames())| - 1]
      ensures !found ==> Frames() == old(Frames())
      ensures dropped == if found then |old(Frames())| - 1 else 0
      ensures var freed := FreedBy(old(Frames()), |old(Releases())|, dropped);
              Releases() == old(Releases()) + freed && Freed(old(bufferState[..]), bufferState[..], freed)
    {
      hide Freed, Window, FreedBy;
      FreedNothing(bufferState[..]);
      FreedByNone(Frames(), |Releases()|);
      found, latest, dropped := false, Slot(0, -1, 0), 0;
      ghost var all, releases := Frames(), Releases();
      var ok, slot := true, latest;
      while ok
        invariant Valid() && written == old(written)
        invariant consumed == old(consumed) + (if found then dropped + 1 else 0) <= written
        invariant Frames() == all[consumed - old(consumed)..] && (!found ==> dropped == 0)
        invariant found ==> latest == all[dropped] && old(Visible())
        invariant !ok ==> if old(Visible()) then Frames() == [] else !found
        invariant Releases() == releases + FreedBy(all, |releases|, dropped)
        invariant Freed(old(bufferState[..]), bufferState[..], FreedBy(all, |releases|, dropped))
        decreases written - consumed, ok
      {
        if old(Visible()) {
          SameEpoch(old(consumed), consumed, written);
        }
        ok, slot := TryRead();
        if ok {
          if found {
            assert latest.bufferIndex < bufferState.Length;
            ReleaseSkipped(all, releases, dropped, old(bufferState[..]), latest.bufferIndex);
            dropped := dropped + 1;
          }
          latest := slot;
          found := true;
        }
      }
    }

    /** One more skipped buffer goes back, if the release ring has room. */
    method ReleaseSkipped(ghost all: seq<Slot>, ghost releases: seq<nat>, ghost dropped: nat, ghost states: seq<bool>, buffer: nat)
      requires Valid() && dropped < |all| && buffer == all[dropped].bufferIndex < bufferState.Length && |releases| <= RING_SIZE
      requires Releases() == releases + FreedBy(all, |releases|, dropped)
      requires Freed(states, bufferState[..], FreedBy(all, |releases|, dropped))
      modifies this`releaseWriteIndex, this`releaseWritten, releaseSlots, bufferState
      ensures Valid() && releaseConsumed == old(releaseConsumed) && Frames() == old(Frames())
      ensures Releases() == releases + FreedBy(all, |releases|, dropped + 1)
      ensures Freed(states, bufferState[..], FreedBy(all, |releases|, dropped + 1))
    {
      hide Window, Freed, FreedBy;
      FreedByNext(all, |releases|, dropped);
      ghost var now := bufferState[..];
      var released := TryWriteRelease(buffer);
      FreedMore(states, now, bufferState[..], FreedBy(all, |releases|, dropped), buffer, released);
    }
  }

  /** The buffers given back when the first `dropped` of `all` are skipped. */
  ghost function FreedBy(all: seq<Slot>, before: nat, dropped: nat): seq<nat>
    requires dropped <= |all|
  {
    Indices(all[..Room(before, dropped)])
  }

  lemma FreedByNone(all: seq<Slot>, before: nat)
    ensures FreedBy(all, before, 0) == []
  {
  }

  lemma FreedByNext(all: seq<Slot>, before: nat, dropped: nat)
    requires dropped < |all|
    ensures before + dropped < RING_SIZE ==> FreedBy(all, before, dropped + 1) == FreedBy(all, before, dropped) + [all[dropped].bufferIndex]
    ensures before + dropped >= RING_SIZE ==> FreedBy(all, before, dropped + 1) == FreedBy(all, before, dropped)
    ensures |FreedBy(all, before, dropped)| == Room(before, dropped)
  {
    assert all[..dropped + 1] == all[..dropped] + [all[dropped]];
  }

  /** Buffer states after some buffers became free. */
  ghost predicate Freed(before: seq<bool>, after: seq<bool>, freed: seq<nat>) {
    |before| == |after| && forall b :: 0 <= b < |after| ==> after[b] == (before[b] && b !in freed)
  }

  lemma FreedNothing(states: seq<bool>)
    ensures Freed(states, states, [])
  {
  }

  lemma FreedMore(before: seq<bool>, states: seq<bool>, after: seq<bool>, freed: seq<nat>, buffer: nat, more: bool)
    requires Freed(before, states, freed) && |after| == |states|
    requires forall b :: 0 <= b < |after| ==> after[b] == (states[b] && !(more && b == buffer))
    ensures Freed(before, after, if more then freed + [buffer] else freed)
  {
  }

  /** How many of `dropped` buffers fit a release ring that holds `pending`. */
  function Room(pending: nat, dropped: nat): (r: nat)
    ensures r <= dropped
  {
    if pending + dropped <= RING_SIZE then dropped else if pending < RING_SIZE then RING_SIZE - pending else 0
  }

  ghost function Indices(frames: seq<Slot>): (r: seq<nat>)
    ensures |r| == |frames|
  {
    seq(|frames|, i requires 0 <= i < |frames| => frames[i].bufferIndex)
  }

  lemma WrappedSlot(count: nat)
    ensures (count % WRAP) % RING_SIZE == count % RING_SIZE
  {
    assert count == WRAP * (count / WRAP) + count % WRAP;
    assert WRAP == RING_SIZE * 0x1000_0000;
    ModuloMultiple(count % WRAP, 0x1000_0000 * (count / WRAP));
  }

  lemma ModuloMultiple(r: nat, k: nat)
    ensures (RING_SIZE * k + r) % RING_SIZE == r % RING_SIZE
  {
  }

  lemma NextCount(count: nat)
    ensures Inc32(count % WRAP) == (count + 1) % WRAP
  {
  }

  lemma SameEpoch(low: nat, mid: nat, high: nat)
    requires low <= mid <= high && low / WRAP == high / WRAP
    ensures mid / WRAP == high / WRAP
  {
  }
}
