/** The identity a frame carries in its pixels (platform/apps/VCamE2E/src/com/example/vcamtest/FrameIdentity.java).
    Java's int and long are bv32 and bv64; a negative value is one with its top bit set. */
module Marker {
  import opened Wrappers
  import opened Checksum

  const COLS: nat := 16
  const ROWS: nat := 8

  datatype Identity = Identity(producer: bv32, run: bv32, generation: bv32, sequence: bv64)

  predicate InRange(id: Identity) {
    && 1 <= id.producer <= 255
    && 1 <= id.run <= 0x7fff_ffff
    && 1 <= id.generation <= 65535
    && 1 <= id.sequence <= 0xffff_ffff
  }

  // ---------------------------------------------------------------- numbers in bytes

  /** The lowest n bytes of a number, most significant first. */
  function Bytes(n: nat, value: bv64): (s: seq<bv8>)
    ensures |s| == n
    decreases n
  {
    if n == 0 then [] else Bytes(n - 1, Rest(value)) + [LowByte(value)]
  }

  function LowByte(value: bv64): bv8 {
    (value & 0xff) as bv8
  }

  function Rest(value: bv64): bv64 {
    value >> 8
  }

  function Append(value: bv64, x: bv8): bv64 {
    (value << 8) | (x as bv64)
  }

  function Unsigned(s: seq<bv8>): bv64 {
    if s == [] then 0 else Append(Unsigned(s[..|s| - 1]), s[|s| - 1])
  }

  predicate Fits(n: nat, value: bv64)
    decreases n
  {
    if n == 0 then value == 0 else Fits(n - 1, Rest(value))
  }

  method Put(b: array<bv8>, start: nat, length: nat, number: bv64)
    requires start + length <= b.Length
    modifies b
    ensures b[..] == old(b[..start]) + Bytes(length, number) + old(b[start + length..])
  {
    hide Rest, LowByte;
    var value := number;
    var i := start + length;
    ghost var done: seq<bv8> := [];
    while i > start
      invariant start <= i <= start + length
      invariant Bytes(length, number) == Bytes(i - start, value) + done
      invariant b[..] == old(b[..i]) + done + old(b[start + length..])
    {
      i := i - 1;
      b[i] := LowByte(value);
      BytesStep(i + 1 - start, value, done);
      done := [LowByte(value)] + done;
      value := Rest(value);
    }
  }

  lemma BytesStep(n: nat, value: bv64, done: seq<bv8>)
    requires n > 0
    ensures Bytes(n, value) + done == Bytes(n - 1, Rest(value)) + ([LowByte(value)] + done)
  {
    var front := Bytes(n - 1, Rest(value));
    assert front + [LowByte(value)] + done == front + ([LowByte(value)] + done);
  }

  method ReadUnsigned(b: array<bv8>, start: nat, length: nat) returns (value: bv64)
    requires start + length <= b.Length
    ensures value == Unsigned(b[start..start + length])
  {
    value := 0;
    for i := start to start + length
      invariant value == Unsigned(b[start..i])
    {
      assert b[start..i + 1] == b[start..i] + [b[i]];
      value := Append(value, b[i]);
    }
  }

  lemma AppendLow(value: bv64)
    ensures Append(Rest(value), LowByte(value)) == value
  {
  }

  lemma {:induction false} UnsignedBytes(n: nat, value: bv64)
    requires Fits(n, value)
    ensures Unsigned(Bytes(n, value)) == value
    decreases n
  {
    hide Append, LowByte, Rest;
    if n > 0 {
      UnsignedBytes(n - 1, Rest(value));
      AppendLow(value);
    }
  }

  predicate Small(value: bv64) {
    value <= 0xff_ffff
  }

  lemma FitsSmall(n: nat, value: bv64)
    requires Fits(n, value) && n <= 3
    ensures Small(value)
  {
    if n > 0 {
      FitsBound(n, value);
    }
  }

  lemma SplitAppended(value: bv64, x: bv8)
    requires Small(value)
    ensures Rest(Append(value, x)) == value && LowByte(Append(value, x)) == x
  {
  }

  lemma ShiftedBound(value: bv64, bound: bv64)
    requires bound <= 0xff_ffff && Rest(value) <= bound
    ensures value <= (bound << 8) | 0xff
  {
  }

  lemma FitsBound(n: nat, value: bv64)
    requires Fits(n, value) && 1 <= n <= 4
    ensures value <= if n == 1 then 0xff else if n == 2 then 0xffff else if n == 3 then 0xff_ffff else 0xffff_ffff
    decreases n
  {
    if n == 1 {
      ShiftedBound(value, 0);
    } else {
      FitsBound(n - 1, Rest(value));
      ShiftedBound(value, if n == 2 then 0xff else if n == 3 then 0xffff else 0xff_ffff);
    }
  }

  lemma {:induction false} BytesUnsigned(s: seq<bv8>)
    requires |s| <= 4
    ensures Bytes(|s|, Unsigned(s)) == s && Fits(|s|, Unsigned(s))
  {
    hide Append, LowByte, Rest, Small;
    if s != [] {
      var front, last := s[..|s| - 1], s[|s| - 1];
      BytesUnsigned(front);
      FitsSmall(|front|, Unsigned(front));
      SplitAppended(Unsigned(front), last);
      assert s == front + [last];
    }
  }

  // ---------------------------------------------------------------- encode

  const HEADER: seq<bv8> := [0x56, 0xca, 1]

  function Long(x: bv32): bv64 {
    x as bv64
  }

  function Payload(id: Identity): (s: seq<bv8>)
    ensures |s| == PAYLOAD
  {
    HEADER + [LowByte(Long(id.producer))] + Bytes(4, Long(id.run)) + Bytes(2, Long(id.generation)) + Bytes(4, id.sequence)
  }

  function Encoded(id: Identity): (s: seq<bv8>)
    ensures |s| == BYTES
  {
    Payload(id) + Bytes(2, Checked(Crc(Payload(id))))
  }

  /** None stands for the IllegalArgumentException. */
  method Encode(id: Identity) returns (r: Option<seq<bv8>>)
    ensures r == if InRange(id) then Some(Encoded(id)) else None
  {
    hide Rest, LowByte, Long, Checked, InRange, Bytes, Crc;
    if !InRange(id) {
      return None;
    }
    var b := new bv8[16](_ => 0);
    b[0], b[1], b[2], b[3] := 0x56, 0xca, 1, LowByte(Long(id.producer));
    assert b[..4] == HEADER + [LowByte(Long(id.producer))];
    Put(b, 4, 4, Long(id.run));
    Put(b, 8, 2, Long(id.generation));
    Put(b, 10, 4, id.sequence);
    assert b[..14] == Payload(id);
    var crc := ComputeCrc(b);
    Put(b, 14, 2, Checked(crc));
    assert b[..] == Encoded(id);
    return Some(b[..]);
  }

  // ---------------------------------------------------------------- what a decoder accepts

  /** The cast from long to int keeps the lower half. */
  function Int(x: bv64): bv32 {
    (x & 0xffff_ffff) as bv32
  }

  function Checked(crc: bv16): bv64 {
    crc as bv64
  }

  function IdentityOf(b: seq<bv8>): Identity
    requires |b| == BYTES
  {
    Identity(b[3] as bv32, Int(Unsigned(b[4..8])), Int(Unsigned(b[8..10])), Unsigned(b[10..14]))
  }

  predicate Positive(id: Identity) {
    && id.producer > 0
    && 0 < id.run <= 0x7fff_ffff
    && 0 < id.generation <= 0x7fff_ffff
    && id.sequence > 0
  }

  /** Header, checksum and identity fields all in order. */
  predicate Accepted(b: seq<bv8>)
    requires |b| == BYTES
  {
    b[..3] == HEADER && Unsigned(b[14..16]) == Checked(Crc(b[..PAYLOAD])) && Positive(IdentityOf(b))
  }

  lemma BoundFits(value: bv64)
    ensures value <= 0xffff ==> Fits(2, value)
    ensures value <= 0xffff_ffff ==> Fits(4, value)
  {
    if value <= 0xffff {
      assert Fits(1, Rest(value));
    }
    if value <= 0xffff_ffff {
      assert Fits(2, Rest(Rest(value)));
      assert Fits(3, Rest(value));
    }
  }

  lemma CastsKeep(id: Identity, crc: bv16)
    requires InRange(id)
    ensures LowByte(Long(id.producer)) as bv32 == id.producer
    ensures Int(Long(id.run)) == id.run && Int(Long(id.generation)) == id.generation
    ensures Long(id.run) <= 0xffff_ffff && Long(id.generation) <= 0xffff && Checked(crc) <= 0xffff
  {
  }

  lemma InRangeIsPositive(id: Identity)
    requires InRange(id)
    ensures id.sequence <= 0xffff_ffff && Positive(id)
  {
  }

  lemma FieldsFit(id: Identity, crc: bv16)
    requires InRange(id)
    ensures Fits(4, Long(id.run)) && Fits(2, Long(id.generation)) && Fits(4, id.sequence) && Fits(2, Checked(crc))
  {
    hide Long, Checked, InRange, Fits, Positive;
    CastsKeep(id, crc);
    InRangeIsPositive(id);
    BoundFits(Long(id.run));
    BoundFits(Long(id.generation));
    BoundFits(id.sequence);
    BoundFits(Checked(crc));
  }

  /** Every identity in range survives encoding. */
  lemma EncodedIsAccepted(id: Identity)
    requires InRange(id)
    ensures Accepted(Encoded(id)) && IdentityOf(Encoded(id)) == id
  {
    hide Rest, LowByte, Long, Int, Checked, Bytes, Crc, Fits, Unsigned, InRange, Positive;
    var b, crc := Encoded(id), Crc(Payload(id));
    CastsKeep(id, crc);
    InRangeIsPositive(id);
    FieldsFit(id, crc);
    UnsignedBytes(4, Long(id.run));
    UnsignedBytes(2, Long(id.generation));
    UnsignedBytes(4, id.sequence);
    UnsignedBytes(2, Checked(crc));
    assert b[..PAYLOAD] == Payload(id) && b[14..16] == Bytes(2, Checked(crc));
    assert b[4..8] == Bytes(4, Long(id.run)) && b[8..10] == Bytes(2, Long(id.generation));
    assert b[10..14] == Bytes(4, id.sequence);
  }

  lemma CastsReturn(x: bv8, run: bv64, generation: bv64)
    requires run <= 0xffff_ffff && generation <= 0xffff
    ensures LowByte(Long(x as bv32)) == x && x as bv32 <= 255
    ensures Long(Int(run)) == run && Long(Int(generation)) == generation && Int(generation) <= 0xffff
  {
  }

  /** Every accepted marker is the encoding of the identity read from it. */
  lemma AcceptedIsEncoded(b: seq<bv8>)
    requires |b| == BYTES && Accepted(b)
    ensures InRange(IdentityOf(b)) && Encoded(IdentityOf(b)) == b
  {
    hide Rest, LowByte, Long, Int, Checked, Bytes, Crc, Fits, Unsigned;
    var run, generation, sequence, crc := b[4..8], b[8..10], b[10..14], b[14..16];
    BytesUnsigned(run);
    BytesUnsigned(generation);
    BytesUnsigned(sequence);
    BytesUnsigned(crc);
    FitsBound(4, Unsigned(run));
    FitsBound(2, Unsigned(generation));
    FitsBound(4, Unsigned(sequence));
    CastsReturn(b[3], Unsigned(run), Unsigned(generation));
    assert b[..PAYLOAD] == HEADER + [b[3]] + run + generation + sequence;
    assert b == b[..PAYLOAD] + crc;
  }

  lemma CheckedJoin(h: bv8, l: bv8)
    ensures Append(Append(0, h), l) == Checked(Join(h, l))
  {
  }

  lemma CheckedIsInjective(x: bv16, y: bv16)
    ensures Checked(x) == Checked(y) <==> x == y
  {
  }

  lemma AcceptedMatches(b: seq<bv8>)
    requires |b| == BYTES
    ensures Unsigned(b[14..16]) == Checked(Crc(b[..PAYLOAD])) <==> Matches(b)
  {
    hide Append, Checked, Join, Crc;
    var tail := b[14..16];
    assert tail[..1] == [b[14]] && tail[..1][..0] == [];
    assert Unsigned(tail[..1]) == Append(0, b[14]);
    CheckedJoin(b[14], b[15]);
    CheckedIsInjective(Join(b[14], b[15]), Crc(b[..PAYLOAD]));
  }

  /** A marker damaged within 16 consecutive cells is never taken for another marker. */
  lemma DamagedIsRejected(id: Identity, b: seq<bv8>, at: nat)
    requires InRange(id) && |b| == BYTES && b != Encoded(id)
    requires forall cell :: 0 <= cell < 128 && !(at <= cell < at + 16) ==> Bit(b, cell) == Bit(Encoded(id), cell)
    ensures !Accepted(b)
  {
    hide Bit, Encoded, InRange, IdentityOf, Checked, Crc, Unsigned;
    EncodedIsAccepted(id);
    AcceptedMatches(Encoded(id));
    AcceptedMatches(b);
    if Accepted(b) {
      BurstIsDetected(b, Encoded(id), at);
    }
  }
}
