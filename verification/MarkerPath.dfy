/** The marker from the producer's draw calls to the consumer's decoder: painted with GL scissor
    clears (VCamProducerService.java:212-231), converted to YUV by the HAL, read from the luma plane. */
module MarkerPath {
  import opened Wrappers
  import opened Checksum
  import opened Marker
  import opened MarkerImage
  import opened FrameFiller

  function Ink(bit: bool): Byte {
    if bit then 255 else 0
  }

  /** Grey level of each pixel; row 0 of a GL surface is the bottom row of the image. */
  ghost predicate CellDrawn(fb: array2<Byte>, col: nat, row: nat, word: seq<bv8>)
    requires |word| == BYTES && col < COLS && row < ROWS
    reads fb
  {
    forall px, py :: InCellOf(fb, px, py, col, row) ==>
      0 <= px < fb.Length1 && 0 <= fb.Length0 - 1 - py < fb.Length0 &&
      fb[fb.Length0 - 1 - py, px] == Ink(Bit(word, row * COLS + col))
  }

  predicate InCellOf(fb: array2<Byte>, px: int, py: int, col: int, row: int) {
    InCell(px, py, col, row, Layout(fb.Length1, fb.Length0, fb.Length1, 1))
  }

  ghost predicate Drawn(fb: array2<Byte>, word: seq<bv8>)
    requires |word| == BYTES
    reads fb
  {
    forall col: nat, row: nat :: col < COLS && row < ROWS ==> CellDrawn(fb, col, row, word)
  }

  lemma Quotient(n: int, d: nat, k: int)
    requires d > 0
    ensures n < k * d <==> n / d < k
  {
    var q, r := n / d, n % d;
    assert n == q * d + r && 0 <= r < d;
    if q < k {
      assert (k - q - 1) * d >= 0;
      assert k * d == q * d + d + (k - q - 1) * d;
    } else {
      assert (q - k) * d >= 0;
      assert q * d == k * d + (q - k) * d;
    }
  }

  lemma Times(p: int, q: int, size: nat)
    requires p <= q
    ensures p * size <= q * size
  {
    assert q * size == p * size + (q - p) * size;
    assert (q - p) * size >= 0;
  }

  lemma EdgesRise(p: int, q: int, size: nat, cells: nat)
    requires 0 <= p <= q <= cells && cells > 0
    ensures 0 <= p * size / cells <= q * size / cells <= size
  {
    Times(0, p, size);
    Times(p, q, size);
    Times(q, cells, size);
    var a, b := p * size, q * size;
    Quotient(a, cells, 0);
    Quotient(b, cells, a / cells);
    Quotient(a, cells, a / cells);
    Quotient(b, cells, size + 1);
    assert (size + 1) * cells == cells * size + cells;
  }

  lemma CellsInside(px: int, py: int, col: nat, row: nat, l: Layout)
    requires col < COLS && row < ROWS && l.width >= 0 && l.height >= 0 && InCell(px, py, col, row, l)
    ensures 0 <= px < l.width && 0 <= py < l.height
  {
    EdgesRise(col, col + 1, l.width, COLS);
    EdgesRise(row, row + 1, l.height, ROWS);
  }

  /** No pixel belongs to two cells. */
  lemma CellsApart(px: int, py: int, col: nat, row: nat, otherCol: nat, otherRow: nat, l: Layout)
    requires col < COLS && row < ROWS && otherCol < COLS && otherRow < ROWS && l.width >= 0 && l.height >= 0
    requires InCell(px, py, col, row, l) && InCell(px, py, otherCol, otherRow, l)
    ensures col == otherCol && row == otherRow
  {
    if col < otherCol {
      EdgesRise(col + 1, otherCol, l.width, COLS);
    } else if otherCol < col {
      EdgesRise(otherCol + 1, col, l.width, COLS);
    }
    if row < otherRow {
      EdgesRise(row + 1, otherRow, l.height, ROWS);
    } else if otherRow < row {
      EdgesRise(otherRow + 1, row, l.height, ROWS);
    }
  }

  function CellIndex(p: nat, size: nat, cells: nat): int
    requires p < size
  {
    (cells * (p + 1) - 1) / size
  }

  lemma CellIndexHolds(p: nat, size: nat, cells: nat)
    requires p < size && cells > 0
    ensures var c := CellIndex(p, size, cells);
            0 <= c < cells && c * size / cells <= p < (c + 1) * size / cells
  {
    var c, n := CellIndex(p, size, cells), cells * (p + 1);
    Times(1, p + 1, cells);
    Times(p + 1, size, cells);
    Quotient(n - 1, size, c + 1);
    Quotient(n - 1, size, c);
    Quotient(n - 1, size, 0);
    Quotient(n - 1, size, cells);
    Quotient(c * size, cells, p + 1);
    Quotient((c + 1) * size, cells, p + 1);
  }

  /** Every pixel of the frame belongs to a cell, so a painted frame has no unpainted pixel. */
  lemma CellsCover(px: nat, py: nat, l: Layout)
    requires px < l.width && py < l.height
    ensures var col, row := CellIndex(px, l.width, COLS), CellIndex(py, l.height, ROWS);
            0 <= col < COLS && 0 <= row < ROWS && InCell(px, py, col, row, l)
  {
    CellIndexHolds(px, l.width, COLS);
    CellIndexHolds(py, l.height, ROWS);
  }

  /** glClear within a scissor box, on the pixels of the surface. */
  method ClearBox(fb: array2<Byte>, x: int, y: int, width: int, height: int, value: Byte)
    modifies fb
    ensures forall gy, gx :: 0 <= gy < fb.Length0 && 0 <= gx < fb.Length1 ==>
      fb[gy, gx] == if x <= gx < x + width && y <= gy < y + height then value else old(fb[gy, gx])
  {
    forall gy, gx | 0 <= gy < fb.Length0 && 0 <= gx < fb.Length1 && x <= gx < x + width && y <= gy < y + height {
      fb[gy, gx] := value;
    }
  }

  method PaintCells(fb: array2<Byte>, bits: seq<bv8>)
    requires |bits| == BYTES
    modifies fb
    ensures Drawn(fb, bits)
  {
    hide Bit, InCell;
    var width, height := fb.Length1, fb.Length0;
    for row := 0 to ROWS
      invariant forall r: nat, c: nat :: r < row && c < COLS ==> CellDrawn(fb, c, r, bits)
    {
      var y0 := row * height / ROWS;
      var y1 := (row + 1) * height / ROWS;
      for col := 0 to COLS
        invariant forall r: nat, c: nat :: r < row && c < COLS ==> CellDrawn(fb, c, r, bits)
        invariant forall c: nat :: c < col ==> CellDrawn(fb, c, row, bits)
      {
        var x0 := col * width / COLS;
        var x1 := (col + 1) * width / COLS;
        var value := Ink(Bit(bits, row * COLS + col));
        PaintCell(fb, col, row, x0, x1, y0, y1, value, bits);
      }
    }
  }

  method PaintCell(fb: array2<Byte>, col: nat, row: nat, x0: int, x1: int, y0: int, y1: int, value: Byte, bits: seq<bv8>)
    requires |bits| == BYTES && col < COLS && row < ROWS && value == Ink(Bit(bits, row * COLS + col))
    requires x0 == EdgeX(col, fb.Length1) && x1 == EdgeX(col + 1, fb.Length1)
    requires y0 == EdgeY(row, fb.Length0) && y1 == EdgeY(row + 1, fb.Length0)
    modifies fb
    ensures CellDrawn(fb, col, row, bits)
    ensures forall c: nat, r: nat :: c < COLS && r < ROWS && old(CellDrawn(fb, c, r, bits)) ==> CellDrawn(fb, c, r, bits)
  {
    hide Bit, EdgeX, EdgeY;
    var l := Layout(fb.Length1, fb.Length0, fb.Length1, 1);
    ClearBox(fb, x0, fb.Length0 - y1, x1 - x0, y1 - y0, value);
    forall px, py | InCellOf(fb, px, py, col, row)
      ensures 0 <= px < fb.Length1 && 0 <= fb.Length0 - 1 - py < fb.Length0 && fb[fb.Length0 - 1 - py, px] == value
    {
      CellsInside(px, py, col, row, l);
    }
    forall c: nat, r: nat | c < COLS && r < ROWS && old(CellDrawn(fb, c, r, bits)) ensures CellDrawn(fb, c, r, bits) {
      forall px, py | InCellOf(fb, px, py, c, r)
        ensures 0 <= px < fb.Length1 && 0 <= fb.Length0 - 1 - py < fb.Length0
        ensures fb[fb.Length0 - 1 - py, px] == Ink(Bit(bits, r * COLS + c))
      {
        CellsInside(px, py, c, r, l);
        if c != col || r != row {
          if InCell(px, py, col, row, l) {
            CellsApart(px, py, c, r, col, row, l);
          }
        }
      }
    }
  }

  /** Math.toIntExact. */
  predicate FitsInt(x: bv64) {
    x <= 0x7fff_ffff || x >= 0xffff_ffff_8000_0000
  }

  class RenderThread {
    var markerSequence: bv64

    /** False stands for an exception. A frame number is used up even when encoding then refuses
        it, but not when the generation does not fit. */
    method DrawMarker(producer: bv32, run: bv32, generation: bv64, fb: array2<Byte>) returns (ok: bool)
      modifies this, fb
      ensures !FitsInt(generation) ==> !ok && markerSequence == old(markerSequence)
      ensures FitsInt(generation) ==> markerSequence == old(markerSequence) + 1
      ensures FitsInt(generation) ==> ok == InRange(Identity(producer, run, Int(generation), markerSequence))
      ensures ok ==> Drawn(fb, Encoded(Identity(producer, run, Int(generation), markerSequence)))
      ensures !ok ==> forall gy, gx :: 0 <= gy < fb.Length0 && 0 <= gx < fb.Length1 ==> fb[gy, gx] == old(fb[gy, gx])
    {
      hide Drawn, Encoded, InRange, Int;
      if !FitsInt(generation) {
        return false;
      }
      markerSequence := markerSequence + 1;
      var bits := Encode(Identity(producer, run, Int(generation), markerSequence));
      if bits.None? {
        return false;
      }
      PaintCells(fb, bits.value);
      return true;
    }
  }

  /** The RGBA bytes the HAL locks are the drawn pixels, top row first. */
  ghost predicate Rendered(src: Source, fb: array2<Byte>)
    reads fb
  {
    Covers(src, fb.Length1, fb.Length0) &&
    forall px: nat, py: nat :: px < fb.Length1 && py < fb.Length0 ==> GreyAt(src, fb, px, py)
  }

  predicate GreyAt(src: Source, fb: array2<Byte>, px: nat, py: nat)
    requires px < fb.Length1 && py < fb.Length0
    reads fb
  {
    var at, v := PixelAt(src, px, py), fb[fb.Length0 - 1 - py, px];
    at + 2 < |src.pixels| && src.pixels[at] == v && src.pixels[at + 1] == v && src.pixels[at + 2] == v
  }

  lemma LumaOfInk(bit: bool)
    ensures if bit then Luma(Ink(bit), Ink(bit), Ink(bit)) >= 176 else Luma(Ink(bit), Ink(bit), Ink(bit)) <= 80
  {
  }

  /** Drawn, converted and read back, the identity is the one that was drawn. */
  lemma MarkerSurvives(fb: array2<Byte>, id: Identity, src: Source, bytes: seq<Byte>, before: seq<Byte>, p: Planes)
    requires InRange(id) && Drawn(fb, Encoded(id)) && Rendered(src, fb)
    requires fb.Length1 >= 64 && fb.Length0 >= 32 && p.yStride >= fb.Length1
    requires Filled(bytes, before, p, src, fb.Length1, fb.Length0) && p.yAt <= |bytes|
    ensures DecodeSpec(bytes[p.yAt..], Layout(fb.Length1, fb.Length0, p.yStride, 1)) == Found(id, false)
  {
    hide InRange, Encoded, Bit, InCell, Luma, DecodeSpec, Filled, Rendered, Drawn;
    var y, l, word := bytes[p.yAt..], Layout(fb.Length1, fb.Length0, p.yStride, 1), Encoded(id);
    forall col: nat, row: nat, px, py | col < COLS && row < ROWS && InCell(px, py, col, row, l)
      ensures Shows(y, l, px, Turned(py, l.height, false), Bit(word, row * COLS + col))
    {
      CellShows(fb, word, src, bytes, before, p, col, row, px, py);
    }
    UprightDecodes(y, l, id);
  }

  lemma CellShows(fb: array2<Byte>, word: seq<bv8>, src: Source, bytes: seq<Byte>, before: seq<Byte>, p: Planes,
                  col: nat, row: nat, px: int, py: int)
    requires |word| == BYTES && Drawn(fb, word) && Rendered(src, fb)
    requires Filled(bytes, before, p, src, fb.Length1, fb.Length0) && p.yAt <= |bytes|
    requires col < COLS && row < ROWS && InCell(px, py, col, row, Layout(fb.Length1, fb.Length0, p.yStride, 1))
    ensures Shows(bytes[p.yAt..], Layout(fb.Length1, fb.Length0, p.yStride, 1), px, py, Bit(word, row * COLS + col))
  {
    hide Bit, Luma, Padding;
    var l, bit := Layout(fb.Length1, fb.Length0, p.yStride, 1), Bit(word, row * COLS + col);
    CellsInside(px, py, col, row, l);
    assert CellDrawn(fb, col, row, word);
    assert InCellOf(fb, px, py, col, row);
    assert GreyAt(src, fb, px, py);
    var s := Y(px, py);
    assert InPicture(s, fb.Length1, fb.Length0);
    assert At(p, s) == p.yAt + Index(l, px, py);
    LumaOfInk(bit);
  }
}
