/** The checksum of the pixel marker (generator x^16 + x^12 + x^5 + 1, initial value 0xffff) and
    the errors it is certain to expose: FrameIdentity.java:61-62, 104-111. */
module Checksum {
  const BYTES: nat := 16
  const PAYLOAD: nat := 14

  function Xor(c: bv16, d: bv16): bv16 {
    c ^ d
  }

  function Twice(c: bv16): bv16 {
    c << 1
  }

  function Feedback(c: bv16): bv16 {
    if c & 0x8000 == 0 then 0 else 0x1021
  }

  /** One turn of the inner loop on the 16-bit register. */
  function Step(c: bv16): bv16 {
    Xor(Twice(c), Feedback(c))
  }

  function Steps(c: bv16, n: nat): bv16 {
    if n == 0 then c else Step(Steps(c, n - 1))
  }

  function CrcByte(c: bv16, x: bv8): bv16 {
    Steps(Xor(c, (x as bv16) << 8), 8)
  }

  function CrcFrom(c: bv16, s: seq<bv8>): bv16
    decreases |s|
  {
    if s == [] then c else CrcFrom(CrcByte(c, s[0]), s[1..])
  }

  function Crc(s: seq<bv8>): bv16 {
    CrcFrom(0xffff, s)
  }

  method ComputeCrc(b: array<bv8>) returns (crc: bv16)
    requires b.Length == BYTES
    ensures crc == Crc(b[..PAYLOAD])
  {
    crc := 0xffff;
    for i := 0 to PAYLOAD
      invariant CrcFrom(crc, b[i..PAYLOAD]) == Crc(b[..PAYLOAD])
    {
      assert b[i..PAYLOAD][1..] == b[i + 1..PAYLOAD];
      crc := AddByte(crc, b[i]);
    }
  }

  method AddByte(start: bv16, x: bv8) returns (crc: bv16)
    ensures crc == CrcByte(start, x)
  {
    hide Step;
    crc := start ^ ((x as bv16) << 8);
    ghost var loaded := crc;
    for bit := 0 to 8
      invariant crc == Steps(loaded, bit)
    {
      crc := Step(crc);
    }
  }

  // ---------------------------------------------------------------- bits

  /** Cell k of the marker: bit 7 - k % 8 of byte k / 8. */
  function Bit(b: seq<bv8>, cell: nat): bool
    requires cell < 8 * |b|
  {
    BitOf(b[cell / 8], cell % 8)
  }

  function BitOf(x: bv8, k: nat): bool
    requires k < 8
  {
    (x >> (7 - k)) & 1 != 0
  }

  function Bits8(x: bv8): (bits: seq<bool>)
    ensures |bits| == 8
  {
    [x & 0x80 != 0, x & 0x40 != 0, x & 0x20 != 0, x & 0x10 != 0,
     x & 0x08 != 0, x & 0x04 != 0, x & 0x02 != 0, x & 0x01 != 0]
  }

  function Bits(s: seq<bv8>): (bits: seq<bool>)
    ensures |bits| == 8 * |s|
  {
    if s == [] then [] else Bits8(s[0]) + Bits(s[1..])
  }

  lemma Bits8At(x: bv8, k: nat)
    requires k < 8
    ensures Bits8(x)[k] == BitOf(x, k)
  {
    match k
    case 0 => case 1 => case 2 => case 3 => case 4 => case 5 => case 6 => case 7 =>
  }

  lemma {:induction false} BitsAt(s: seq<bv8>, cell: nat)
    requires cell < 8 * |s|
    ensures Bits(s)[cell] == Bit(s, cell)
  {
    hide Bits8, BitOf;
    if cell < 8 {
      Bits8At(s[0], cell);
    } else {
      BitsAt(s[1..], cell - 8);
    }
  }

  // ---------------------------------------------------------------- one bit at a time

  function Load(bit: bool): bv16 {
    if bit then 0x8000 else 0
  }

  function Feed(c: bv16, bit: bool): bv16 {
    Step(Xor(c, Load(bit)))
  }

  function Serial(c: bv16, bits: seq<bool>): bv16
    decreases |bits|
  {
    if bits == [] then c else Serial(Feed(c, bits[0]), bits[1..])
  }

  lemma {:induction false} SerialConcat(c: bv16, x: seq<bool>, y: seq<bool>)
    ensures Serial(c, x + y) == Serial(Serial(c, x), y)
    decreases |x|
  {
    if x == [] {
      assert x + y == y;
    } else {
      assert (x + y)[1..] == x[1..] + y;
      SerialConcat(Feed(c, x[0]), x[1..], y);
    }
  }

  // ---------------------------------------------------------------- algebra of the register

  lemma TwiceIsLinear(c: bv16, d: bv16)
    ensures Twice(Xor(c, d)) == Xor(Twice(c), Twice(d))
  {
  }

  lemma TopBit(c: bv16, d: bv16)
    ensures (c ^ d) & 0x8000 == (c & 0x8000) ^ (d & 0x8000)
    ensures c & 0x8000 == 0 || c & 0x8000 == 0x8000
  {
  }

  lemma Associate(a: bv16, b: bv16, c: bv16)
    ensures Xor(Xor(a, b), c) == Xor(a, Xor(b, c))
  {
  }

  lemma Commute(a: bv16, b: bv16)
    ensures Xor(a, b) == Xor(b, a)
  {
  }

  lemma Regroup(a: bv16, b: bv16, c: bv16, d: bv16)
    ensures Xor(Xor(a, b), Xor(c, d)) == Xor(Xor(a, c), Xor(b, d))
  {
    hide Xor;
    Associate(a, b, Xor(c, d));
    Associate(b, c, d);
    Commute(b, c);
    Associate(c, b, d);
    Associate(a, c, Xor(b, d));
  }

  lemma FeedbackIsLinear(c: bv16, d: bv16)
    ensures Feedback(Xor(c, d)) == Xor(Feedback(c), Feedback(d))
  {
    TopBit(c, d);
    TopBit(d, c);
  }

  lemma StepIsLinear(c: bv16, d: bv16)
    ensures Step(Xor(c, d)) == Xor(Step(c), Step(d))
  {
    hide Twice, Feedback, Xor;
    TwiceIsLinear(c, d);
    FeedbackIsLinear(c, d);
    Regroup(Twice(c), Feedback(c), Twice(d), Feedback(d));
  }

  lemma StepIsInjective(c: bv16)
    ensures Step(c) == 0 <==> c == 0
  {
  }

  lemma {:induction false} StepsAreInjective(c: bv16, n: nat)
    ensures Steps(c, n) == 0 <==> c == 0
  {
    if n > 0 {
      StepsAreInjective(c, n - 1);
      StepIsInjective(Steps(c, n - 1));
    }
  }

  lemma {:induction false} StepsInside(c: bv16, n: nat)
    ensures Steps(Step(c), n) == Steps(c, n + 1)
  {
    if n > 0 {
      StepsInside(c, n - 1);
    }
  }

  function Flipped(x: seq<bool>, e: seq<bool>): (r: seq<bool>)
    requires |x| == |e|
    ensures |r| == |x|
  {
    seq(|x|, i requires 0 <= i < |x| => x[i] != e[i])
  }

  lemma LoadIsLinear(x: bool, e: bool)
    ensures Load(x != e) == Xor(Load(x), Load(e))
  {
  }

  lemma FeedIsLinear(c: bv16, d: bv16, x: bool, e: bool)
    ensures Feed(Xor(c, d), x != e) == Xor(Feed(c, x), Feed(d, e))
  {
    hide Step, Xor, Load;
    Regroup(c, Load(x), d, Load(e));
    LoadIsLinear(x, e);
    StepIsLinear(Xor(c, Load(x)), Xor(d, Load(e)));
  }

  /** What an error pattern does to the register does not depend on the message it hits. */
  lemma {:induction false} SerialIsLinear(c: bv16, d: bv16, x: seq<bool>, e: seq<bool>)
    requires |x| == |e|
    ensures Serial(Xor(c, d), Flipped(x, e)) == Xor(Serial(c, x), Serial(d, e))
    decreases |x|
  {
    hide Feed, Xor;
    if x != [] {
      FeedIsLinear(c, d, x[0], e[0]);
      assert Flipped(x, e)[1..] == Flipped(x[1..], e[1..]);
      SerialIsLinear(Feed(c, x[0]), Feed(d, e[0]), x[1..], e[1..]);
    }
  }

  // ---------------------------------------------------------------- a window of at most 16 bits

  function Mask(m: nat): bv16 {
    if m == 0 then 0 else (Mask(m - 1) << 1) | 1
  }

  function Half(p: bv16): bv16 {
    p >> 1
  }

  predicate Clear(p: bv16, m: bv16) {
    p & m == 0
  }

  /** Up to 16 bits, the first one at the top of the register. */
  function Window(bits: seq<bool>): bv16 {
    if bits == [] then 0 else Xor(Load(bits[0]), Half(Window(bits[1..])))
  }

  lemma MaskTop(m: nat)
    requires m <= 15
    ensures Clear(Mask(m), 0x8000)
  {
    assert Mask(4) == 0xf && Mask(8) == 0xff && Mask(12) == 0xfff && Mask(15) == 0x7fff by {
      assert Mask(2) == 3;
      assert Mask(4) == 0xf;
      assert Mask(6) == 0x3f;
      assert Mask(8) == 0xff;
      assert Mask(10) == 0x3ff;
      assert Mask(12) == 0xfff;
      assert Mask(14) == 0x3fff;
    }
    assert m == 0 || m == 1 || m == 2 || m == 3 || m == 4 || m == 5 || m == 6 || m == 7 || m == 8 ||
           m == 9 || m == 10 || m == 11 || m == 12 || m == 13 || m == 14 || m == 15;
  }

  lemma ShiftIntoWindow(p: bv16, m: bv16)
    requires Clear(p, (m << 1) | 1)
    ensures Clear(Half(p), m)
  {
  }

  lemma LoadAbove(bit: bool, p: bv16, m: bv16)
    requires Clear(m, 0x8000) && Clear(p, m)
    ensures Clear(Xor(Load(bit), p), m)
  {
  }

  lemma NothingLoaded(m: bv16, c: bv16)
    ensures Clear(0, m) && Xor(c, 0) == c
  {
  }

  /** A window of n bits leaves the lower 16 - n bits of the register clear. */
  lemma {:induction false} WindowIsAligned(bits: seq<bool>)
    requires |bits| <= 16
    ensures Clear(Window(bits), Mask(16 - |bits|))
  {
    hide Clear, Half, Xor, Load;
    if bits == [] {
      NothingLoaded(Mask(16), 0);
    } else {
      var p, m := Window(bits[1..]), 16 - |bits|;
      WindowIsAligned(bits[1..]);
      assert Mask(m + 1) == (Mask(m) << 1) | 1;
      ShiftIntoWindow(p, Mask(m));
      MaskTop(m);
      LoadAbove(bits[0], Half(p), Mask(m));
    }
  }

  lemma StepOfHalf(p: bv16, m: nat)
    requires m > 0 && Clear(p, Mask(m))
    ensures Step(Half(p)) == p
  {
    var lower := Mask(m - 1);
    assert Mask(m) == (lower << 1) | 1;
    assert p & 1 == 0;
  }

  /** Feeding at most 16 bits one by one is loading them at the top and stepping once for each. */
  lemma {:induction false} SerialIsWindow(c: bv16, bits: seq<bool>)
    requires |bits| <= 16
    ensures Serial(c, bits) == Steps(Xor(c, Window(bits)), |bits|)
    decreases |bits|
  {
    hide Step, Load, Mask, Xor, Half, Clear;
    if bits == [] {
      NothingLoaded(0, c);
    } else {
      var n, p := |bits| - 1, Window(bits[1..]);
      var loaded := Xor(c, Load(bits[0]));
      SerialIsWindow(Feed(c, bits[0]), bits[1..]);
      WindowIsAligned(bits[1..]);
      StepOfHalf(p, 16 - n);
      Associate(c, Load(bits[0]), Half(p));
      StepIsLinear(loaded, Half(p));
      StepsInside(Xor(c, Window(bits)), n);
    }
  }

  lemma WindowStart(bits: seq<bool>)
    requires bits != [] && bits[0]
    ensures Window(bits) != 0
  {
    var p := Window(bits[1..]);
    assert Xor(0x8000, Half(p)) != 0;
  }

  /** The byte-wise loop computes the bit-serial remainder. */
  lemma {:induction false} CrcIsSerial(c: bv16, s: seq<bv8>)
    ensures CrcFrom(c, s) == Serial(c, Bits(s))
    decreases |s|
  {
    hide CrcByte;
    if s != [] {
      ByteIsSerial(c, s[0]);
      SerialConcat(c, Bits8(s[0]), Bits(s[1..]));
      CrcIsSerial(CrcByte(c, s[0]), s[1..]);
    }
  }

  lemma ByteIsSerial(c: bv16, x: bv8)
    ensures CrcByte(c, x) == Serial(c, Bits8(x))
  {
    hide Step;
    SerialIsWindow(c, Bits8(x));
    WindowOfByte(x);
  }

  lemma WindowOfByte(x: bv8)
    ensures Window(Bits8(x)) == (x as bv16) << 8
  {
    WindowEight(Bits8(x));
  }

  lemma WindowEight(b: seq<bool>)
    requires |b| == 8
    ensures Window(b) == Load(b[0]) ^ (Load(b[1]) >> 1) ^ (Load(b[2]) >> 2) ^ (Load(b[3]) >> 3) ^
                         (Load(b[4]) >> 4) ^ (Load(b[5]) >> 5) ^ (Load(b[6]) >> 6) ^ (Load(b[7]) >> 7)
  {
    var w4 := Window(b[4..]);
    WindowFour(b[4..]);
    assert b[1..][1..] == b[2..] && b[2..][1..] == b[3..] && b[3..][1..] == b[4..];
    assert Window(b[3..]) == Load(b[3]) ^ (w4 >> 1);
    assert Window(b[2..]) == Load(b[2]) ^ (Load(b[3]) >> 1) ^ (w4 >> 2);
  }

  lemma WindowFour(b: seq<bool>)
    requires |b| == 4
    ensures Window(b) == Load(b[0]) ^ (Load(b[1]) >> 1) ^ (Load(b[2]) >> 2) ^ (Load(b[3]) >> 3)
  {
    assert b[1..][1..] == b[2..] && b[2..][1..] == b[3..] && b[3..][1..] == [];
    assert Window(b[3..]) == Load(b[3]);
    assert Window(b[2..]) == Load(b[2]) ^ (Load(b[3]) >> 1);
  }

  // ---------------------------------------------------------------- what the checksum accepts

  function Join(h: bv8, l: bv8): bv16 {
    ((h as bv16) << 8) | (l as bv16)
  }

  predicate Matches(b: seq<bv8>)
    requires |b| == BYTES
  {
    Join(b[14], b[15]) == Crc(b[..PAYLOAD])
  }

  lemma {:induction false} CrcFromConcat(c: bv16, x: seq<bv8>, y: seq<bv8>)
    ensures CrcFrom(c, x + y) == CrcFrom(CrcFrom(c, x), y)
    decreases |x|
  {
    hide CrcByte;
    if x == [] {
      assert x + y == y;
    } else {
      assert (x + y)[1..] == x[1..] + y;
      CrcFromConcat(CrcByte(c, x[0]), x[1..], y);
    }
  }

  lemma WindowOfTwoBytes(h: bv8, l: bv8)
    ensures Window(Bits8(h) + Bits8(l)) == Join(h, l)
  {
    WindowConcat(Bits8(h), Bits8(l));
    WindowOfByte(h);
    WindowOfByte(l);
    EightHalves((l as bv16) << 8);
  }

  function Halves(p: bv16, n: nat): bv16 {
    if n == 0 then p else Half(Halves(p, n - 1))
  }

  lemma EightHalves(p: bv16)
    ensures Halves(p, 8) == p >> 8
  {
    var h4 := Half(Half(Half(Half(p))));
    assert Halves(p, 4) == h4 by {
      hide Half;
      assert Halves(p, 1) == Half(p);
      assert Halves(p, 3) == Half(Half(Half(p)));
    }
    assert Halves(p, 8) == Half(Half(Half(Half(h4)))) by {
      hide Half;
      assert Halves(p, 5) == Half(h4);
      assert Halves(p, 7) == Half(Half(Half(h4)));
    }
  }

  lemma HalfIsLinear(p: bv16, q: bv16)
    ensures Half(Xor(p, q)) == Xor(Half(p), Half(q))
  {
  }

  lemma {:induction false} WindowConcat(x: seq<bool>, y: seq<bool>)
    ensures Window(x + y) == Xor(Window(x), Halves(Window(y), |x|))
  {
    hide Half, Xor, Load;
    if x == [] {
      assert x + y == y;
      Commute(0, Window(y));
      NothingLoaded(0, Window(y));
    } else {
      var tail := Halves(Window(y), |x| - 1);
      assert (x + y)[1..] == x[1..] + y;
      WindowConcat(x[1..], y);
      HalfIsLinear(Window(x[1..]), tail);
      Associate(Load(x[0]), Half(Window(x[1..])), Half(tail));
    }
  }

  lemma XorIsZero(c: bv16, d: bv16)
    ensures Xor(c, d) == 0 <==> c == d
  {
  }

  /** The stored checksum agrees exactly when the whole marker leaves no remainder. */
  lemma MatchesLeavesNoRemainder(b: seq<bv8>)
    requires |b| == BYTES
    ensures Matches(b) <==> Serial(0xffff, Bits(b)) == 0
  {
    hide Step, Xor, Window, Serial, CrcByte, Bits8, Join;
    var h, l, c := b[14], b[15], Crc(b[..14]);
    assert b[..14] + [h, l] == b;
    CrcFromConcat(0xffff, b[..14], [h, l]);
    CrcIsSerial(0xffff, b);
    CrcIsSerial(c, [h, l]);
    TwoBytes(h, l);
    SerialIsWindow(c, Bits8(h) + Bits8(l));
    StepsAreInjective(Xor(c, Window(Bits8(h) + Bits8(l))), 16);
    WindowOfTwoBytes(h, l);
    XorIsZero(c, Window(Bits8(h) + Bits8(l)));
  }

  lemma TwoBytes(h: bv8, l: bv8)
    ensures Bits([h, l]) == Bits8(h) + Bits8(l)
  {
    assert [h, l][1..] == [l] && [l][1..] == [];
    assert Bits([l]) == Bits8(l) + [];
  }

  // ---------------------------------------------------------------- errors it exposes

  lemma SilentFeed()
    ensures Feed(0, false) == 0
  {
  }

  ghost predicate Silent(e: seq<bool>) {
    forall i :: 0 <= i < |e| ==> !e[i]
  }

  lemma {:induction false} SilenceChangesNothing(c: bv16, e: seq<bool>)
    requires Silent(e)
    ensures Serial(c, e) == Steps(c, |e|)
    decreases |e|
  {
    hide Step;
    if e != [] {
      assert Load(false) == 0;
      NothingLoaded(0, c);
      assert Silent(e[1..]);
      SilenceChangesNothing(Feed(c, false), e[1..]);
      StepsInside(c, |e| - 1);
    }
  }

  /** An error confined to 16 consecutive bits never leaves the register at zero. */
  lemma {:induction false} ShortErrorIsSeen(e: seq<bool>, at: nat)
    requires forall i :: 0 <= i < |e| && e[i] ==> at <= i < at + 16
    requires Serial(0, e) == 0
    ensures Silent(e)
    decreases |e|
  {
    hide Step, Feed, Window, Xor;
    if e == [] {
    } else if !e[0] {
      SilentFeed();
      ShortErrorIsSeen(e[1..], if at == 0 then 0 else at - 1);
    } else {
      var n := if |e| < 16 then |e| else 16;
      var burst, rest := e[..n], e[n..];
      assert e == burst + rest;
      SerialConcat(0, burst, rest);
      SerialIsWindow(0, burst);
      Commute(0, Window(burst));
      NothingLoaded(0, Window(burst));
      SilenceChangesNothing(Serial(0, burst), rest);
      StepsAreInjective(Serial(0, burst), |rest|);
      StepsAreInjective(Window(burst), n);
      WindowStart(burst);
    }
  }

  lemma BitOfByte(s: seq<bv8>, i: nat, k: nat)
    requires i < |s| && k < 8
    ensures Bits(s)[8 * i + k] == Bits8(s[i])[k]
  {
    hide Bits8, Bits, BitOf;
    BitsAt(s, 8 * i + k);
    Bits8At(s[i], k);
  }

  lemma BitsAreInjective(a: seq<bv8>, b: seq<bv8>)
    requires |a| == |b| && Bits(a) == Bits(b)
    ensures a == b
  {
    hide Bits, Bits8;
    forall i | 0 <= i < |a| ensures a[i] == b[i] {
      forall k | 0 <= k < 8 ensures Bits8(a[i])[k] == Bits8(b[i])[k] {
        BitOfByte(a, i, k);
        BitOfByte(b, i, k);
      }
      SameByte(a[i], b[i]);
    }
  }

  lemma SameByte(x: bv8, y: bv8)
    requires forall k :: 0 <= k < 8 ==> Bits8(x)[k] == Bits8(y)[k]
    ensures x == y
  {
    var p, q := Bits8(x), Bits8(y);
    assert p[0] == q[0] && p[1] == q[1] && p[2] == q[2] && p[3] == q[3];
    assert p[4] == q[4] && p[5] == q[5] && p[6] == q[6] && p[7] == q[7];
  }

  /** The error that turns one accepted marker into another leaves no remainder either. */
  lemma DifferenceOfAccepted(a: seq<bv8>, b: seq<bv8>)
    requires |a| == |b| == BYTES && Matches(a) && Matches(b)
    ensures Serial(0, Flipped(Bits(a), Bits(b))) == 0
  {
    hide Serial, Xor, Matches;
    MatchesLeavesNoRemainder(a);
    MatchesLeavesNoRemainder(b);
    SerialIsLinear(0xffff, 0xffff, Bits(a), Bits(b));
    XorIsZero(0xffff, 0xffff);
    XorIsZero(0, 0);
  }

  /** Two markers with good checksums that agree outside 16 consecutive cells are equal: a burst
      of at most 16 corrupted bits, in the payload or across the checksum, never goes unseen. */
  lemma BurstIsDetected(a: seq<bv8>, b: seq<bv8>, at: nat)
    requires |a| == |b| == BYTES
    requires forall cell :: 0 <= cell < 128 && !(at <= cell < at + 16) ==> Bit(a, cell) == Bit(b, cell)
    requires Matches(a) && Matches(b)
    ensures a == b
  {
    hide Matches, Serial, Bit;
    var e := Flipped(Bits(a), Bits(b));
    forall i | 0 <= i < |e| && e[i] ensures at <= i < at + 16 {
      BitsAt(a, i);
      BitsAt(b, i);
    }
    DifferenceOfAccepted(a, b);
    ShortErrorIsSeen(e, at);
    forall i | 0 <= i < 128 ensures Bits(a)[i] == Bits(b)[i] {
      assert !e[i];
    }
    BitsAreInjective(a, b);
  }

  function Odd(e: seq<bool>): bool {
    if e == [] then false else e[0] != Odd(e[1..])
  }

  predicate Top(c: bv16) {
    c & 0x8000 != 0
  }

  /** Whether an odd number of the upper n bits is set. */
  function OddBits(c: bv16, n: nat): bool
    decreases n
  {
    if n == 0 then false else Top(c) != OddBits(Twice(c), n - 1)
  }

  function Parity(c: bv16): bool {
    OddBits(c, 16)
  }

  lemma TopIsLinear(c: bv16, d: bv16)
    ensures Top(Xor(c, d)) == (Top(c) != Top(d))
  {
  }

  lemma {:induction false} OddBitsIsLinear(c: bv16, d: bv16, n: nat)
    ensures OddBits(Xor(c, d), n) == (OddBits(c, n) != OddBits(d, n))
    decreases n
  {
    hide Top, Twice, Xor;
    if n > 0 {
      TopIsLinear(c, d);
      TwiceIsLinear(c, d);
      OddBitsIsLinear(Twice(c), Twice(d), n - 1);
    }
  }

  function TwiceBy(c: bv16, n: nat): bv16
    decreases n
  {
    if n == 0 then c else TwiceBy(Twice(c), n - 1)
  }

  lemma {:induction false} OddBitsNext(c: bv16, n: nat)
    ensures OddBits(c, n + 1) == (OddBits(c, n) != Top(TwiceBy(c, n)))
    decreases n
  {
    hide Top, Twice;
    if n > 0 {
      OddBitsNext(Twice(c), n - 1);
    }
  }

  lemma NothingIsLeft(c: bv16)
    ensures TwiceBy(c, 16) == 0
  {
    var c4 := Twice(Twice(Twice(Twice(c))));
    var c8 := Twice(Twice(Twice(Twice(c4))));
    var c12 := Twice(Twice(Twice(Twice(c8))));
    var c16 := Twice(Twice(Twice(Twice(c12))));
    FourTwice(c, 12);
    FourTwice(c4, 8);
    FourTwice(c8, 4);
    FourTwice(c12, 0);
    assert c16 == 0;
  }

  lemma FourTwice(c: bv16, n: nat)
    ensures TwiceBy(c, n + 4) == TwiceBy(Twice(Twice(Twice(Twice(c)))), n)
  {
    hide Twice;
    assert TwiceBy(c, n + 4) == TwiceBy(Twice(Twice(c)), n + 2);
  }

  lemma TwiceParity(c: bv16)
    ensures Parity(Twice(c)) == (Parity(c) != Top(c))
  {
    hide Twice;
    OddBitsNext(c, 16);
    NothingIsLeft(c);
  }

  lemma {:induction false} OddBitsOfZero(n: nat)
    ensures !OddBits(0, n)
  {
    if n > 0 {
      OddBitsOfZero(n - 1);
    }
  }

  lemma ParityOfConstants()
    ensures Parity(0x1021) && Parity(0x8000) && !Parity(0)
  {
    OddBitsOfZero(15);
    OddBitsOfZero(16);
    assert OddBits(0x8000, 1);
    assert OddBits(0x2000, 3);
    assert OddBits(0x0800, 5);
    assert !OddBits(0x4200, 7);
    assert !OddBits(0x1080, 9);
    assert !OddBits(0x0420, 11);
    assert OddBits(0x8108, 13);
  }

  /** The generator has an even number of terms, so a step keeps the parity. */
  lemma StepParity(c: bv16)
    ensures Parity(Step(c)) == Parity(c)
  {
    hide Xor, Twice, OddBits;
    TwiceParity(c);
    OddBitsIsLinear(Twice(c), Feedback(c), 16);
    ParityOfConstants();
  }

  lemma FeedParity(c: bv16, bit: bool)
    ensures Parity(Feed(c, bit)) == (Parity(c) != bit)
  {
    hide Xor, Step, OddBits;
    StepParity(Xor(c, Load(bit)));
    OddBitsIsLinear(c, Load(bit), 16);
    ParityOfConstants();
  }

  lemma {:induction false} SerialParity(c: bv16, e: seq<bool>)
    ensures Parity(Serial(c, e)) == (Parity(c) != Odd(e))
    decreases |e|
  {
    hide Parity, Feed;
    if e != [] {
      FeedParity(c, e[0]);
      SerialParity(Feed(c, e[0]), e[1..]);
    }
  }

  /** An odd number of corrupted bits, wherever they are, never goes unseen. */
  lemma OddErrorIsDetected(a: seq<bv8>, b: seq<bv8>)
    requires |a| == |b| == BYTES && Odd(Flipped(Bits(a), Bits(b)))
    ensures !(Matches(a) && Matches(b))
  {
    hide Matches;
    if Matches(a) && Matches(b) {
      DifferenceOfAccepted(a, b);
      SerialParity(0, Flipped(Bits(a), Bits(b)));
    }
  }

  // ---------------------------------------------------------------- and the shortest it does not

  /** The coefficients of x^16 + x^12 + x^5 + 1. */
  const GENERATOR: seq<bool> := [true, false, false, false, true, false, false, false, false,
                                 false, false, true, false, false, false, false, true]

  lemma OneFeed(c: bv16, bits: seq<bool>, i: nat, next: bv16)
    requires i < |bits| && Feed(c, bits[i]) == next
    ensures Serial(c, bits[i..]) == Serial(next, bits[i + 1..])
  {
    assert bits[i..][1..] == bits[i + 1..];
  }

  lemma GeneratorEnds()
    ensures Serial(0x1080, GENERATOR[8..]) == 0
  {
    assert GENERATOR[17..] == [];
    assert Serial(0, []) == 0;
    hide Serial;
    OneFeed(0x8000, GENERATOR, 16, 0x0);
    OneFeed(0x4000, GENERATOR, 15, 0x8000);
    OneFeed(0x2000, GENERATOR, 14, 0x4000);
    OneFeed(0x1000, GENERATOR, 13, 0x2000);
    OneFeed(0x800, GENERATOR, 12, 0x1000);
    OneFeed(0x8400, GENERATOR, 11, 0x800);
    OneFeed(0x4200, GENERATOR, 10, 0x8400);
    OneFeed(0x2100, GENERATOR, 9, 0x4200);
    OneFeed(0x1080, GENERATOR, 8, 0x2100);
  }

  /** The generator itself leaves no remainder. */
  lemma GeneratorLeavesNothing()
    ensures Serial(0, GENERATOR) == 0
  {
    GeneratorEnds();
    assert GENERATOR[0..] == GENERATOR;
    hide Serial;
    OneFeed(0x840, GENERATOR, 7, 0x1080);
    OneFeed(0x420, GENERATOR, 6, 0x840);
    OneFeed(0x210, GENERATOR, 5, 0x420);
    OneFeed(0x8108, GENERATOR, 4, 0x210);
    OneFeed(0x4084, GENERATOR, 3, 0x8108);
    OneFeed(0x2042, GENERATOR, 2, 0x4084);
    OneFeed(0x1021, GENERATOR, 1, 0x2042);
    OneFeed(0x0, GENERATOR, 0, 0x1021);
  }

  /** Just the generator, somewhere. */
  ghost predicate IsGenerator(e: seq<bool>, at: nat) {
    at + 17 <= |e| && Silent(e[..at]) && e[at..at + 17] == GENERATOR && Silent(e[at + 17..])
  }

  lemma AroundGenerator(e: seq<bool>, at: nat)
    requires IsGenerator(e, at)
    ensures e == e[..at] + (GENERATOR + e[at + 17..])
  {
    assert e[at..] == e[at..at + 17] + e[at + 17..];
  }

  /** So 16 is the exact limit: seventeen cells corrupted by the generator go unseen in any marker. */
  lemma GeneratorGoesUnseen(a: seq<bv8>, b: seq<bv8>, at: nat)
    requires |a| == |b| == BYTES && IsGenerator(Flipped(Bits(a), Bits(b)), at)
    ensures Matches(a) <==> Matches(b)
  {
    hide Matches, Serial, Xor, Feed, Step;
    var e := Flipped(Bits(a), Bits(b));
    AroundGenerator(e, at);
    SerialConcat(0, e[..at], GENERATOR + e[at + 17..]);
    SerialConcat(0, GENERATOR, e[at + 17..]);
    GeneratorLeavesNothing();
    SilenceChangesNothing(0, e[..at]);
    SilenceChangesNothing(0, e[at + 17..]);
    StepsAreInjective(0, at);
    StepsAreInjective(0, |e| - at - 17);
    MatchesLeavesNoRemainder(a);
    MatchesLeavesNoRemainder(b);
    SerialIsLinear(0xffff, 0xffff, Bits(a), Bits(b));
    XorIsZero(0xffff, 0xffff);
    XorIsZero(Serial(0xffff, Bits(a)), Serial(0xffff, Bits(b)));
  }

  /** A blank marker, all cells unset, never has a good checksum: that is what the initial value
      is for. */
  lemma BlankIsRejected(b: seq<bv8>)
    requires |b| == BYTES && Silent(Bits(b))
    ensures !Matches(b)
  {
    hide Matches, Serial;
    MatchesLeavesNoRemainder(b);
    SilenceChangesNothing(0xffff, Bits(b));
    StepsAreInjective(0xffff, |Bits(b)|);
  }
}
