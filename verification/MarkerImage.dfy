/** Reading the marker back from a luma plane (FrameIdentity.java:39-67) and painting it
    (platform/apps/VCamProducer/src/com/example/vcamproducer/VCamProducerService.java:212-231). */
module MarkerImage {
  import opened Wrappers
  import opened Checksum
  import opened Marker

  const CELLS: nat := 128

  datatype Layout = Layout(width: int, height: int, rowStride: int, pixelStride: int)

  predicate ValidLayout(l: Layout) {
    && l.width >= COLS * 4
    && l.height >= ROWS * 4
    && l.rowStride >= l.width * l.pixelStride
    && l.pixelStride >= 1
  }

  // ---------------------------------------------------------------- sample points

  function SampleX(col: int, width: int, sample: int): int {
    (2 * col + 1) * width / (2 * COLS) + (if sample == 1 then -(width / (COLS * 8)) else if sample == 2 then width / (COLS * 8) else 0)
  }

  function SampleY(row: int, height: int, sample: int): int {
    (2 * row + 1) * height / (2 * ROWS) + (if sample == 3 then -(height / (ROWS * 8)) else if sample == 4 then height / (ROWS * 8) else 0)
  }

  function Turned(y: int, height: int, flip: bool): int {
    if flip then height - 1 - y else y
  }

  function Index(l: Layout, x: int, y: int): int {
    y * l.rowStride + x * l.pixelStride
  }

  function SampleIndex(l: Layout, cell: nat, sample: nat, flip: bool): int {
    Index(l, SampleX(cell % COLS, l.width, sample), Turned(SampleY(cell / COLS, l.height, sample), l.height, flip))
  }

  predicate Readable(y: seq<nat>, l: Layout, cell: nat, flip: bool) {
    forall sample: nat :: sample < 5 ==> 0 <= SampleIndex(l, cell, sample, flip) < |y|
  }

  function SampleSum(y: seq<nat>, l: Layout, cell: nat, flip: bool, n: nat): nat
    requires Readable(y, l, cell, flip) && n <= 5
  {
    if n == 0 then 0 else SampleSum(y, l, cell, flip, n - 1) + y[SampleIndex(l, cell, n - 1, flip)]
  }

  /** The mean of the five samples of a cell. */
  function Value(y: seq<nat>, l: Layout, cell: nat, flip: bool): nat
    requires Readable(y, l, cell, flip)
  {
    SampleSum(y, l, cell, flip, 5) / 5
  }

  ghost predicate AllReadable(y: seq<nat>, l: Layout, flip: bool) {
    forall cell: nat :: cell < CELLS ==> Readable(y, l, cell, flip)
  }

  predicate Clear(value: nat) {
    !(80 < value < 176)
  }

  ghost predicate Contrast(y: seq<nat>, l: Layout, flip: bool)
    requires AllReadable(y, l, flip)
  {
    forall cell: nat :: cell < CELLS ==> Clear(Value(y, l, cell, flip))
  }

  // ---------------------------------------------------------------- assembling the bytes

  function ByteOf(bits: seq<bool>): bv8
    requires |bits| == 8
  {
    (if bits[0] then 0x80 else 0) | (if bits[1] then 0x40 else 0) | (if bits[2] then 0x20 else 0) | (if bits[3] then 0x10 else 0) |
    (if bits[4] then 0x08 else 0) | (if bits[5] then 0x04 else 0) | (if bits[6] then 0x02 else 0) | (if bits[7] then 0x01 else 0)
  }

  lemma BitsOfByte(bits: seq<bool>)
    requires |bits| == 8
    ensures Bits8(ByteOf(bits)) == bits
  {
  }

  function FromBits(bits: seq<bool>): (s: seq<bv8>)
    requires |bits| % 8 == 0
    ensures |s| == |bits| / 8
  {
    if bits == [] then [] else [ByteOf(bits[..8])] + FromBits(bits[8..])
  }

  lemma {:induction false} BitsFromBits(bits: seq<bool>)
    requires |bits| % 8 == 0
    ensures Bits(FromBits(bits)) == bits
  {
    hide Bits8, ByteOf;
    if bits != [] {
      BitsOfByte(bits[..8]);
      BitsFromBits(bits[8..]);
    }
  }

  lemma FromBitsOfWord(b: seq<bv8>, bits: seq<bool>)
    requires |bits| == 8 * |b|
    requires forall cell: nat :: cell < |bits| ==> Bit(b, cell) == bits[cell]
    ensures FromBits(bits) == b
  {
    hide Bit, Bits;
    forall cell: nat | cell < |bits| ensures Bits(b)[cell] == bits[cell] {
      BitsAt(b, cell);
    }
    BitsFromBits(bits);
    BitsAreInjective(FromBits(bits), b);
  }

  function Flag(k: nat): bv8
    requires k < 8
  {
    1 << (7 - k)
  }

  const FLAGS: seq<bv8> := [0x80, 0x40, 0x20, 0x10, 0x08, 0x04, 0x02, 0x01]

  lemma FlagValue(k: nat)
    requires k < 8
    ensures Flag(k) == FLAGS[k]
  {
    match k
    case 0 => case 1 => case 2 => case 3 => case 4 => case 5 => case 6 => case 7 =>
  }

  lemma SetFirst(x: bv8)
    ensures Bits8(x | 0x80) == Bits8(x)[0 := true]
    ensures Bits8(x | 0x40) == Bits8(x)[1 := true]
  {
  }

  lemma SetSecond(x: bv8)
    ensures Bits8(x | 0x20) == Bits8(x)[2 := true]
    ensures Bits8(x | 0x10) == Bits8(x)[3 := true]
  {
  }

  lemma SetThird(x: bv8)
    ensures Bits8(x | 0x08) == Bits8(x)[4 := true]
    ensures Bits8(x | 0x04) == Bits8(x)[5 := true]
  {
  }

  lemma SetFourth(x: bv8)
    ensures Bits8(x | 0x02) == Bits8(x)[6 := true]
    ensures Bits8(x | 0x01) == Bits8(x)[7 := true]
  {
  }

  lemma SetFlag(x: bv8, k: nat)
    requires k < 8
    ensures Bits8(x | Flag(k)) == Bits8(x)[k := true]
  {
    hide Bits8, Flag;
    FlagValue(k);
    SetFirst(x);
    SetSecond(x);
    SetThird(x);
    SetFourth(x);
  }

  lemma SetBit(b: seq<bv8>, cell: nat)
    requires cell < 8 * |b|
    ensures var after := b[cell / 8 := b[cell / 8] | Flag(cell % 8)];
            forall c: nat :: c < 8 * |b| ==> Bit(after, c) == (c == cell || Bit(b, c))
  {
    hide Flag, Bits8, BitOf;
    var x := b[cell / 8];
    var after := b[cell / 8 := x | Flag(cell % 8)];
    SetFlag(x, cell % 8);
    forall c: nat | c < 8 * |b| ensures Bit(after, c) == (c == cell || Bit(b, c)) {
      Bits8At(b[c / 8], c % 8);
      Bits8At(after[c / 8], c % 8);
    }
  }

  // ---------------------------------------------------------------- decode

  datatype Attempt = Unreadable | Refused | Read(identity: Identity)

  datatype Outcome = Found(identity: Identity, flipped: bool) | InvalidLayout | OutOfBounds | NoMarker

  ghost function BitsAtSamples(y: seq<nat>, l: Layout, flip: bool): (bits: seq<bool>)
    requires AllReadable(y, l, flip)
    ensures |bits| == CELLS
  {
    seq(CELLS, cell requires 0 <= cell < CELLS => Value(y, l, cell, flip) >= 128)
  }

  /** The marker as sampled in one orientation. */
  ghost function Word(y: seq<nat>, l: Layout, flip: bool): (b: seq<bv8>)
    requires AllReadable(y, l, flip)
    ensures |b| == BYTES
  {
    FromBits(BitsAtSamples(y, l, flip))
  }

  ghost function AttemptSpec(y: seq<nat>, l: Layout, flip: bool): Attempt {
    if !AllReadable(y, l, flip) then Unreadable
    else if Contrast(y, l, flip) && Accepted(Word(y, l, flip)) then Read(IdentityOf(Word(y, l, flip)))
    else Refused
  }

  /** Upright first, then upside down. */
  ghost function DecodeSpec(y: seq<nat>, l: Layout): Outcome {
    if !ValidLayout(l) then InvalidLayout
    else match AttemptSpec(y, l, false)
      case Unreadable => OutOfBounds
      case Read(id) => Found(id, false)
      case Refused =>
        match AttemptSpec(y, l, true)
        case Unreadable => OutOfBounds
        case Read(id) => Found(id, true)
        case Refused => NoMarker
  }

  method SumSamples(y: seq<nat>, l: Layout, cell: nat, flip: bool) returns (sum: Option<nat>)
    requires cell < CELLS
    ensures sum.Some? <==> Readable(y, l, cell, flip)
    ensures sum.Some? ==> sum.value == SampleSum(y, l, cell, flip, 5)
  {
    var col, row := cell % COLS, cell / COLS;
    var total := 0;
    for sample := 0 to 5
      invariant forall s: nat :: s < sample ==> 0 <= SampleIndex(l, cell, s, flip) < |y|
      invariant Readable(y, l, cell, flip) ==> total == SampleSum(y, l, cell, flip, sample)
    {
      var sx, sy := (2 * col + 1) * l.width / (2 * COLS), (2 * row + 1) * l.height / (2 * ROWS);
      if sample == 1 {
        sx := sx - l.width / (COLS * 8);
      }
      if sample == 2 {
        sx := sx + l.width / (COLS * 8);
      }
      if sample == 3 {
        sy := sy - l.height / (ROWS * 8);
      }
      if sample == 4 {
        sy := sy + l.height / (ROWS * 8);
      }
      if flip {
        sy := l.height - 1 - sy;
      }
      var at := sy * l.rowStride + sx * l.pixelStride;
      assert at == SampleIndex(l, cell, sample, flip);
      if at < 0 || at >= |y| {
        return None;
      }
      total := total + y[at];
    }
    return Some(total);
  }

  method SetCell(b: array<bv8>, cell: nat)
    requires b.Length == BYTES && cell < CELLS
    modifies b
    ensures forall c: nat :: c < CELLS ==> Bit(b[..], c) == (c == cell || old(Bit(b[..], c)))
  {
    hide Bit, Flag;
    ghost var before := b[..];
    SetBit(before, cell);
    b[cell / 8] := b[cell / 8] | Flag(cell % 8);
    assert b[..] == before[cell / 8 := before[cell / 8] | Flag(cell % 8)];
  }

  method AttemptDecode(y: seq<nat>, l: Layout, flip: bool) returns (a: Attempt)
    ensures a == AttemptSpec(y, l, flip)
  {
    hide Bit, Accepted, IdentityOf, SampleSum, SampleIndex, FromBits;
    var b := new bv8[16](_ => 0);
    var contrast := true;
    ghost var values: seq<nat> := [];
    NoBits(b[..]);
    for cell := 0 to CELLS
      invariant |values| == cell
      invariant forall c: nat :: c < cell ==> Readable(y, l, c, flip) && values[c] == Value(y, l, c, flip)
      invariant contrast <==> forall c: nat :: c < cell ==> Clear(values[c])
      invariant forall c: nat :: c < CELLS ==> Bit(b[..], c) == (c < cell && values[c] >= 128)
    {
      var sum := SumSamples(y, l, cell, flip);
      if sum.None? {
        return Unreadable;
      }
      var value := sum.value / 5;
      values := values + [value];
      if value > 80 && value < 176 {
        contrast := false;
      }
      if value >= 128 {
        SetCell(b, cell);
      }
    }
    FromBitsOfWord(b[..], BitsAtSamples(y, l, flip));
    a := if contrast && Accepted(b[..]) then Read(IdentityOf(b[..])) else Refused;
  }

  lemma NoBits(b: seq<bv8>)
    requires |b| == BYTES && forall i :: 0 <= i < BYTES ==> b[i] == 0
    ensures forall c: nat :: c < CELLS ==> !Bit(b, c)
  {
    forall c: nat | c < CELLS ensures !Bit(b, c) {
      Bits8At(b[c / 8], c % 8);
    }
  }

  method Decode(y: seq<nat>, l: Layout) returns (r: Outcome)
    ensures r == DecodeSpec(y, l)
  {
    if l.width < COLS * 4 || l.height < ROWS * 4 || l.rowStride < l.width * l.pixelStride || l.pixelStride < 1 {
      return InvalidLayout;
    }
    var a := AttemptDecode(y, l, false);
    if a.Refused? {
      a := AttemptDecode(y, l, true);
      match a
      case Unreadable => return OutOfBounds;
      case Read(id) => return Found(id, true);
      case Refused => return NoMarker;
    }
    return if a.Unreadable? then OutOfBounds else Found(a.identity, false);
  }

  // ---------------------------------------------------------------- geometry

  /** Left edge of a column of cells as painted; column col ends where col + 1 starts. */
  function EdgeX(col: int, width: int): int {
    col * width / COLS
  }

  function EdgeY(row: int, height: int): int {
    row * height / ROWS
  }

  predicate InCell(x: int, y: int, col: int, row: int, l: Layout) {
    EdgeX(col, l.width) <= x < EdgeX(col + 1, l.width) && EdgeY(row, l.height) <= y < EdgeY(row + 1, l.height)
  }

  lemma MiddleX(p: int, w: int)
    requires w >= 64
    ensures p / 16 <= (2 * p + w) / 32 - w / 128
    ensures (2 * p + w) / 32 + w / 128 < (p + w) / 16
  {
  }

  lemma MiddleY(p: int, h: int)
    requires h >= 32
    ensures p / 8 <= (2 * p + h) / 16 - h / 64
    ensures (2 * p + h) / 16 + h / 64 < (p + h) / 8
  {
  }

  /** All five sample points of a cell lie inside the cell as painted. */
  lemma SampleInCell(l: Layout, col: nat, row: nat, sample: nat)
    requires ValidLayout(l)
    ensures InCell(SampleX(col, l.width, sample), SampleY(row, l.height, sample), col, row, l)
  {
    MiddleX(col * l.width, l.width);
    MiddleY(row * l.height, l.height);
    assert (2 * col + 1) * l.width == 2 * (col * l.width) + l.width;
    assert (2 * row + 1) * l.height == 2 * (row * l.height) + l.height;
    assert (col + 1) * l.width == col * l.width + l.width && (row + 1) * l.height == row * l.height + l.height;
  }

  /** A pixel of the luma plane that is readably bright or dark. */
  predicate Shows(y: seq<nat>, l: Layout, px: int, py: int, bit: bool) {
    0 <= Index(l, px, py) < |y| && (if bit then y[Index(l, px, py)] >= 176 else y[Index(l, px, py)] <= 80)
  }

  /** Every pixel of every cell shows its bit, with the whole image turned over when `flip`. */
  ghost predicate Painted(y: seq<nat>, l: Layout, word: seq<bv8>, flip: bool)
    requires |word| == BYTES
  {
    forall col: nat, row: nat, px, py ::
      col < COLS && row < ROWS && InCell(px, py, col, row, l) ==>
      Shows(y, l, px, Turned(py, l.height, flip), Bit(word, row * COLS + col))
  }

  /** Every sample of every cell shows the bit of that cell. */
  ghost predicate Sampled(y: seq<nat>, l: Layout, word: seq<bv8>, flip: bool)
    requires |word| == BYTES
  {
    forall cell: nat, sample: nat :: cell < CELLS && sample < 5 ==>
      Shows(y, l, SampleX(cell % COLS, l.width, sample), Turned(SampleY(cell / COLS, l.height, sample), l.height, flip), Bit(word, cell))
  }

  lemma PaintedIsSampled(y: seq<nat>, l: Layout, word: seq<bv8>, flip: bool)
    requires |word| == BYTES && ValidLayout(l) && Painted(y, l, word, flip)
    ensures Sampled(y, l, word, flip)
  {
    hide Bit, InCell, SampleX, SampleY, Turned, Shows;
    forall cell: nat, sample: nat | cell < CELLS && sample < 5
      ensures Shows(y, l, SampleX(cell % COLS, l.width, sample), Turned(SampleY(cell / COLS, l.height, sample), l.height, flip), Bit(word, cell))
    {
      SampleInCell(l, cell % COLS, cell / COLS, sample);
      assert (cell / COLS) * COLS + cell % COLS == cell;
    }
  }

  lemma CellValue(y: seq<nat>, l: Layout, word: seq<bv8>, flip: bool, cell: nat)
    requires |word| == BYTES && cell < CELLS && Sampled(y, l, word, flip)
    ensures Readable(y, l, cell, flip)
    ensures if Bit(word, cell) then Value(y, l, cell, flip) >= 176 else Value(y, l, cell, flip) <= 80
  {
    hide Bit, SampleX, SampleY, Turned, Index;
    forall sample: nat | sample < 5
      ensures 0 <= SampleIndex(l, cell, sample, flip) < |y|
      ensures if Bit(word, cell) then y[SampleIndex(l, cell, sample, flip)] >= 176 else y[SampleIndex(l, cell, sample, flip)] <= 80
    {
      assert Shows(y, l, SampleX(cell % COLS, l.width, sample), Turned(SampleY(cell / COLS, l.height, sample), l.height, flip), Bit(word, cell));
    }
    FiveSamples(y, l, cell, flip);
  }

  lemma FiveSamples(y: seq<nat>, l: Layout, cell: nat, flip: bool)
    requires Readable(y, l, cell, flip)
    ensures SampleSum(y, l, cell, flip, 5) ==
      y[SampleIndex(l, cell, 0, flip)] + y[SampleIndex(l, cell, 1, flip)] + y[SampleIndex(l, cell, 2, flip)] +
      y[SampleIndex(l, cell, 3, flip)] + y[SampleIndex(l, cell, 4, flip)]
  {
    hide SampleIndex;
    assert SampleSum(y, l, cell, flip, 1) == y[SampleIndex(l, cell, 0, flip)];
    assert SampleSum(y, l, cell, flip, 3) == y[SampleIndex(l, cell, 0, flip)] + y[SampleIndex(l, cell, 1, flip)] + y[SampleIndex(l, cell, 2, flip)];
  }

  lemma SampledIsRead(y: seq<nat>, l: Layout, word: seq<bv8>, flip: bool)
    requires |word| == BYTES && Sampled(y, l, word, flip)
    ensures AllReadable(y, l, flip) && Contrast(y, l, flip) && Word(y, l, flip) == word
  {
    hide Bit, Readable, Value, Sampled;
    forall cell: nat | cell < CELLS
      ensures Readable(y, l, cell, flip) && Clear(Value(y, l, cell, flip))
      ensures Bit(word, cell) == (Value(y, l, cell, flip) >= 128)
    {
      CellValue(y, l, word, flip, cell);
    }
    FromBitsOfWord(word, BitsAtSamples(y, l, flip));
  }

  /** An upright marker is read as the identity it was made from. */
  lemma UprightDecodes(y: seq<nat>, l: Layout, id: Identity)
    requires ValidLayout(l) && InRange(id) && Painted(y, l, Encoded(id), false)
    ensures DecodeSpec(y, l) == Found(id, false)
  {
    hide Painted, Sampled, Encoded, Accepted, IdentityOf, InRange, AllReadable, Contrast, Word;
    EncodedIsAccepted(id);
    PaintedIsSampled(y, l, Encoded(id), false);
    SampledIsRead(y, l, Encoded(id), false);
  }

  /** What is found upright or upside down is the encoding of an identity in range. */
  lemma FoundWasEncoded(y: seq<nat>, l: Layout)
    requires DecodeSpec(y, l).Found?
    ensures var r := DecodeSpec(y, l);
            InRange(r.identity) && AllReadable(y, l, r.flipped) && Contrast(y, l, r.flipped) && Word(y, l, r.flipped) == Encoded(r.identity)
  {
    hide Accepted, Encoded, InRange, IdentityOf, AllReadable, Contrast, Word;
    AcceptedIsEncoded(Word(y, l, DecodeSpec(y, l).flipped));
  }

  // ---------------------------------------------------------------- upside down

  /** The marker with its eight rows of cells in reverse order. */
  function RowsReversed(word: seq<bv8>): (r: seq<bv8>)
    requires |word| == BYTES
    ensures |r| == BYTES
  {
    [word[14], word[15], word[12], word[13], word[10], word[11], word[8], word[9],
     word[6], word[7], word[4], word[5], word[2], word[3], word[0], word[1]]
  }

  lemma ReversedBit(word: seq<bv8>, cell: nat)
    requires |word| == BYTES && cell < CELLS
    ensures Bit(RowsReversed(word), cell) == Bit(word, (ROWS - 1 - cell / COLS) * COLS + cell % COLS)
  {
    hide BitOf;
    var mirrored := (ROWS - 1 - cell / COLS) * COLS + cell % COLS;
    assert mirrored % 8 == cell % 8;
    assert mirrored / 8 == 14 - 2 * (cell / COLS) + cell % COLS / 8;
    assert cell / 8 == 2 * (cell / COLS) + cell % COLS / 8;
  }

  lemma MirroredInCell(p: int, h: int, y: int)
    requires h >= 32
    requires y == (2 * p + h) / 16 || y == (2 * p + h) / 16 - h / 64 || y == (2 * p + h) / 16 + h / 64
    ensures (7 * h - p) / 8 <= h - 1 - y < (8 * h - p) / 8
  {
  }

  /** A sample point of row r, turned over, lies in the cell of row 7 - r as painted. */
  lemma TurnedSampleInCell(l: Layout, col: nat, row: nat, sample: nat)
    requires ValidLayout(l) && row < ROWS
    ensures InCell(SampleX(col, l.width, sample), l.height - 1 - SampleY(row, l.height, sample), col, ROWS - 1 - row, l)
  {
    SampleInCell(l, col, row, sample);
    assert (2 * row + 1) * l.height == 2 * (row * l.height) + l.height;
    MirroredInCell(row * l.height, l.height, SampleY(row, l.height, sample));
    assert (7 - row) * l.height == 7 * l.height - row * l.height;
    assert (8 - row) * l.height == 8 * l.height - row * l.height;
  }

  /** Read upright, an image painted upside down shows the rows in reverse order. */
  lemma FlippedIsSampledReversed(y: seq<nat>, l: Layout, word: seq<bv8>)
    requires |word| == BYTES && ValidLayout(l) && Painted(y, l, word, true)
    ensures Sampled(y, l, RowsReversed(word), false)
  {
    hide Bit, InCell, SampleX, SampleY, Shows, RowsReversed;
    var reversed := RowsReversed(word);
    forall cell: nat, sample: nat | cell < CELLS && sample < 5
      ensures Shows(y, l, SampleX(cell % COLS, l.width, sample), Turned(SampleY(cell / COLS, l.height, sample), l.height, false), Bit(reversed, cell))
    {
      var col, row := cell % COLS, cell / COLS;
      TurnedSampleInCell(l, col, row, sample);
      ReversedBit(word, cell);
      var py := l.height - 1 - SampleY(row, l.height, sample);
      assert Turned(py, l.height, true) == SampleY(row, l.height, sample);
      assert Shows(y, l, SampleX(col, l.width, sample), Turned(py, l.height, true), Bit(word, (7 - row) * COLS + col));
    }
  }

  /** An upside-down marker is read as what it is exactly when its rows in reverse order are not
      themselves an acceptable marker; otherwise it is taken for that other one, upright. */
  lemma FlippedDecodes(y: seq<nat>, l: Layout, id: Identity)
    requires ValidLayout(l) && InRange(id) && Painted(y, l, Encoded(id), true)
    ensures DecodeSpec(y, l) ==
      var reversed := RowsReversed(Encoded(id));
      if Accepted(reversed) then Found(IdentityOf(reversed), false) else Found(id, true)
  {
    hide Painted, Sampled, Encoded, Accepted, IdentityOf, InRange, AllReadable, Contrast, Word, RowsReversed;
    EncodedIsAccepted(id);
    PaintedIsSampled(y, l, Encoded(id), true);
    SampledIsRead(y, l, Encoded(id), true);
    FlippedIsSampledReversed(y, l, Encoded(id));
    SampledIsRead(y, l, RowsReversed(Encoded(id)), false);
  }

  // ---------------------------------------------------------------- a marker that is misread upside down

  const AMBIGUOUS: Identity := Identity(0x49, 0x0004_801c, 0x08c1, 0x7041_0108)
  const PRETENDED: Identity := Identity(0x08, 0x7041_08c1, 0x801c, 0x0004_0149)

  /** Two payloads whose checksum spells the first two header bytes. */
  const AMBIGUOUS_PAYLOAD: seq<bv8> := [0x56, 0xca, 0x01, 0x49, 0x00, 0x04, 0x80, 0x1c, 0x08, 0xc1, 0x70, 0x41, 0x01, 0x08]
  const PRETENDED_PAYLOAD: seq<bv8> := [0x56, 0xca, 0x01, 0x08, 0x70, 0x41, 0x08, 0xc1, 0x80, 0x1c, 0x00, 0x04, 0x01, 0x49]

  /** r lists the register before each byte of s and after the last. */
  ghost predicate Registers(s: seq<bv8>, r: seq<bv16>) {
    |r| == |s| + 1 && forall i :: 0 <= i < |s| ==> CrcByte(r[i], s[i]) == r[i + 1]
  }

  lemma {:induction false} CrcByRegisters(s: seq<bv8>, r: seq<bv16>)
    requires Registers(s, r)
    ensures CrcFrom(r[0], s) == r[|s|]
    decreases |s|
  {
    hide CrcByte;
    if s != [] {
      CrcByRegisters(s[1..], r[1..]);
    }
  }

  function Eightfold(c: bv16): bv16 {
    Step(Step(Step(Step(Step(Step(Step(Step(c))))))))
  }

  lemma OneByte(c: bv16, x: bv8, r: bv16)
    requires Eightfold(Xor(c, (x as bv16) << 8)) == r
    ensures CrcByte(c, x) == r
  {
    hide Step, Xor;
    var loaded := Xor(c, (x as bv16) << 8);
    assert Steps(loaded, 1) == Step(loaded);
    assert Steps(loaded, 3) == Step(Step(Step(loaded)));
    assert Steps(loaded, 5) == Step(Step(Steps(loaded, 3)));
    assert Steps(loaded, 7) == Step(Step(Steps(loaded, 5)));
  }

  lemma AmbiguousChecksum()
    ensures Crc(AMBIGUOUS_PAYLOAD) == 0x56ca
  {
    hide CrcByte;
    var r: seq<bv16> := [0xffff, 0xdbc3, 0xc110, 0xc94c, 0xdd88, 0x92d0, 0x337f, 0xe8b8, 0x179b, 0x78de, 0xe8f2, 0xf0b1, 0x06fa, 0x8ae7, 0x56ca];
    OneByte(0xffff, 0x56, 0xdbc3);
    OneByte(0xdbc3, 0xca, 0xc110);
    OneByte(0xc110, 0x01, 0xc94c);
    OneByte(0xc94c, 0x49, 0xdd88);
    OneByte(0xdd88, 0x00, 0x92d0);
    OneByte(0x92d0, 0x04, 0x337f);
    OneByte(0x337f, 0x80, 0xe8b8);
    OneByte(0xe8b8, 0x1c, 0x179b);
    OneByte(0x179b, 0x08, 0x78de);
    OneByte(0x78de, 0xc1, 0xe8f2);
    OneByte(0xe8f2, 0x70, 0xf0b1);
    OneByte(0xf0b1, 0x41, 0x06fa);
    OneByte(0x06fa, 0x01, 0x8ae7);
    OneByte(0x8ae7, 0x08, 0x56ca);
    CrcByRegisters(AMBIGUOUS_PAYLOAD, r);
  }

  lemma PretendedChecksum()
    ensures Crc(PRETENDED_PAYLOAD) == 0x56ca
  {
    hide CrcByte;
    var r: seq<bv16> := [0xffff, 0xdbc3, 0xc110, 0xc94c, 0x856d, 0xd2ba, 0x09da, 0xca21, 0x906b, 0x7931, 0x0d03, 0xd2ad, 0x06bb, 0xcbe7, 0x56ca];
    OneByte(0xffff, 0x56, 0xdbc3);
    OneByte(0xdbc3, 0xca, 0xc110);
    OneByte(0xc110, 0x01, 0xc94c);
    OneByte(0xc94c, 0x08, 0x856d);
    OneByte(0x856d, 0x70, 0xd2ba);
    OneByte(0xd2ba, 0x41, 0x09da);
    OneByte(0x09da, 0x08, 0xca21);
    OneByte(0xca21, 0xc1, 0x906b);
    OneByte(0x906b, 0x80, 0x7931);
    OneByte(0x7931, 0x1c, 0x0d03);
    OneByte(0x0d03, 0x00, 0xd2ad);
    OneByte(0xd2ad, 0x04, 0x06bb);
    OneByte(0x06bb, 0x01, 0xcbe7);
    OneByte(0xcbe7, 0x49, 0x56ca);
    CrcByRegisters(PRETENDED_PAYLOAD, r);
  }

  lemma TwoAndFour(value: bv64)
    ensures Bytes(2, value) == [LowByte(Rest(value)), LowByte(value)]
    ensures Bytes(4, value) == [LowByte(Rest(Rest(Rest(value)))), LowByte(Rest(Rest(value))), LowByte(Rest(value)), LowByte(value)]
  {
    hide LowByte, Rest;
    assert Bytes(1, Rest(value)) == [LowByte(Rest(value))];
    assert Bytes(2, Rest(Rest(value))) == Bytes(1, Rest(Rest(Rest(value)))) + [LowByte(Rest(Rest(value)))];
    assert Bytes(3, Rest(value)) == Bytes(2, Rest(Rest(value))) + [LowByte(Rest(value))];
  }

  lemma AmbiguousPayload()
    ensures Payload(AMBIGUOUS) == AMBIGUOUS_PAYLOAD
  {
    hide Bytes;
    TwoAndFour(Long(AMBIGUOUS.run));
    TwoAndFour(Long(AMBIGUOUS.generation));
    TwoAndFour(AMBIGUOUS.sequence);
  }

  lemma PretendedPayload()
    ensures Payload(PRETENDED) == PRETENDED_PAYLOAD
  {
    hide Bytes;
    TwoAndFour(Long(PRETENDED.run));
    TwoAndFour(Long(PRETENDED.generation));
    TwoAndFour(PRETENDED.sequence);
  }

  /** A marker in range that, painted upside down at any size, is read as a different one upright. */
  lemma AmbiguousIsMisread(y: seq<nat>, l: Layout)
    requires ValidLayout(l) && Painted(y, l, Encoded(AMBIGUOUS), true)
    ensures InRange(AMBIGUOUS) && AMBIGUOUS != PRETENDED && DecodeSpec(y, l) == Found(PRETENDED, false)
  {
    hide *;
    AmbiguousReverses();
    BothInRange();
    FlippedDecodes(y, l, AMBIGUOUS);
    EncodedIsAccepted(PRETENDED);
  }

  lemma BothInRange()
    ensures InRange(AMBIGUOUS) && InRange(PRETENDED) && AMBIGUOUS != PRETENDED
  {
  }

  lemma AmbiguousReverses()
    ensures RowsReversed(Encoded(AMBIGUOUS)) == Encoded(PRETENDED)
  {
    hide Bytes, Payload, Crc;
    AmbiguousPayload();
    PretendedPayload();
    AmbiguousChecksum();
    PretendedChecksum();
    TwoAndFour(Checked(0x56ca));
    assert Bytes(2, Checked(0x56ca)) == [0x56, 0xca];
  }
}
