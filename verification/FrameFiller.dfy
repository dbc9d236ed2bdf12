/** RGBA to YUV conversion into strided planes (hal/core/FrameFiller.h:27-36,
    hal/core/FrameFiller.cpp:393-441). Bytes are naturals below 256. */
module FrameFiller {
  type Byte = x: int | 0 <= x < 256

  // ---------------------------------------------------------------- one pixel

  function Clamp(v: int): Byte {
    if v < 0 then 0 else if v > 255 then 255 else v
  }

  function Luma(r: Byte, g: Byte, b: Byte): Byte {
    Clamp((66 * r + 129 * g + 25 * b + 128) / 256 + 16)
  }

  function BlueDifference(r: Byte, g: Byte, b: Byte): Byte {
    Clamp((-38 * r - 74 * g + 112 * b + 128) / 256 + 128)
  }

  function RedDifference(r: Byte, g: Byte, b: Byte): Byte {
    Clamp((112 * r - 94 * g - 18 * b + 128) / 256 + 128)
  }

  /** The code ranges of section 2.5 of ITU-R BT.601-7; the clamps never fire. */
  lemma CodeRanges(r: Byte, g: Byte, b: Byte)
    ensures 16 <= Luma(r, g, b) <= 235
    ensures 16 <= BlueDifference(r, g, b) <= 240
    ensures 16 <= RedDifference(r, g, b) <= 240
    ensures Luma(r, g, b) == (66 * r + 129 * g + 25 * b + 128) / 256 + 16
    ensures BlueDifference(r, g, b) == (-38 * r - 74 * g + 112 * b + 128) / 256 + 128
    ensures RedDifference(r, g, b) == (112 * r - 94 * g - 18 * b + 128) / 256 + 128
  {
  }

  /** Greys carry no colour, keep their order, and span the whole luma range. */
  lemma Greys(v: Byte, w: Byte)
    ensures BlueDifference(v, v, v) == 128 && RedDifference(v, v, v) == 128
    ensures v <= w ==> Luma(v, v, v) <= Luma(w, w, w)
    ensures Luma(0, 0, 0) == 16 && Luma(255, 255, 255) == 235
  {
  }

  /** Section 2.5 of ITU-R BT.601-7, scaled: the exact signals of an R'G'B' triple in 255ths, where
      luma is 0.299 R' + 0.587 G' + 0.114 B' and the differences are (B' - Y') / 1.772 and
      (R' - Y') / 1.402, quantized over 219 and 224 steps. */
  predicate NearLuma(y: int, r: int, g: int, b: int) {
    var exact := 219 * (299 * r + 587 * g + 114 * b);
    exact - 255_000 < 255_000 * (y - 16) < exact + 255_000
  }

  predicate NearBlue(cb: int, r: int, g: int, b: int) {
    var exact := 224 * (886 * b - 299 * r - 587 * g);
    exact - 451_860 < 451_860 * (cb - 128) < exact + 451_860
  }

  predicate NearRed(cr: int, r: int, g: int, b: int) {
    var exact := 224 * (701 * r - 587 * g - 114 * b);
    exact - 357_510 < 357_510 * (cr - 128) < exact + 357_510
  }

  /** The integer arithmetic is never a whole code away from the standard. */
  lemma WithinOneCode(r: Byte, g: Byte, b: Byte)
    ensures NearLuma(Luma(r, g, b), r, g, b)
    ensures NearBlue(BlueDifference(r, g, b), r, g, b)
    ensures NearRed(RedDifference(r, g, b), r, g, b)
  {
  }

  // ---------------------------------------------------------------- planes in memory

  /** Where a locked YCbCr buffer keeps its planes. */
  datatype Planes = Planes(yAt: nat, cbAt: nat, crAt: nat, yStride: nat, cStride: nat, chromaStep: nat)

  /** A sample of the picture, whatever its layout. */
  datatype Sample = Y(x: nat, y: nat) | Cb(x: nat, y: nat) | Cr(x: nat, y: nat)

  predicate InPicture(s: Sample, width: nat, height: nat) {
    if s.Y? then s.x < width && s.y < height else s.x < width / 2 && s.y < height / 2
  }

  function Offset(stride: nat, x: nat, y: nat): nat {
    y * stride + x
  }

  function At(p: Planes, s: Sample): nat {
    match s
    case Y(x, y) => p.yAt + Offset(p.yStride, x, y)
    case Cb(x, y) => p.cbAt + Offset(p.cStride, if p.chromaStep == 2 then x * 2 else x, y)
    case Cr(x, y) => p.crAt + Offset(p.cStride, if p.chromaStep == 2 then x * 2 else x, y)
  }

  /** The planes lie inside the buffer and no two samples share a byte. */
  ghost predicate Separate(p: Planes, size: nat, width: nat, height: nat) {
    && (forall s :: InPicture(s, width, height) ==> At(p, s) < size)
    && (forall s, t :: InPicture(s, width, height) && InPicture(t, width, height) && s != t ==> At(p, s) != At(p, t))
  }

  /** The locked source: four bytes a pixel, `stride` bytes a row. */
  datatype Source = Source(pixels: seq<Byte>, stride: nat)

  predicate Covers(src: Source, width: nat, height: nat) {
    forall x: nat, y: nat :: x < width && y < height ==> PixelAt(src, x, y) + 2 < |src.pixels|
  }

  function PixelAt(src: Source, x: nat, y: nat): nat {
    y * src.stride + x * 4
  }

  /** What a sample is meant to be: luma of its pixel, chroma of the top-left pixel of its 2x2 block. */
  function Converted(src: Source, s: Sample, width: nat, height: nat): Byte
    requires Covers(src, width, height) && InPicture(s, width, height)
  {
    var at := if s.Y? then PixelAt(src, s.x, s.y) else PixelAt(src, 2 * s.x, 2 * s.y);
    assert s.Y? || (2 * s.x < width && 2 * s.y < height);
    assert at + 2 < |src.pixels|;
    var r, g, b := src.pixels[at], src.pixels[at + 1], src.pixels[at + 2];
    match s
    case Y(_, _) => Luma(r, g, b)
    case Cb(_, _) => BlueDifference(r, g, b)
    case Cr(_, _) => RedDifference(r, g, b)
  }

  /** `bytes` holds the converted picture and otherwise what it held before. */
  ghost predicate Filled(bytes: seq<Byte>, before: seq<Byte>, p: Planes, src: Source, width: nat, height: nat)
    requires Covers(src, width, height)
  {
    && |bytes| == |before|
    && (forall s :: InPicture(s, width, height) ==> At(p, s) < |bytes| && bytes[At(p, s)] == Converted(src, s, width, height))
    && Padding(bytes, before, p, width, height)
  }

  ghost predicate Padding(bytes: seq<Byte>, before: seq<Byte>, p: Planes, width: nat, height: nat)
    requires |bytes| == |before|
  {
    forall i :: 0 <= i < |bytes| && !Used(p, width, height, i) ==> bytes[i] == before[i]
  }

  ghost predicate Used(p: Planes, width: nat, height: nat, i: int) {
    exists s :: InPicture(s, width, height) && At(p, s) == i
  }

  /** Every sample of a filled picture is within one code of what the standard makes of its pixel,
      whose red, green and blue are the first three of its four bytes. */
  lemma FilledFollowsStandard(bytes: seq<Byte>, before: seq<Byte>, p: Planes, src: Source, width: nat, height: nat, x: nat, y: nat)
    requires Covers(src, width, height) && Filled(bytes, before, p, src, width, height)
    ensures x < width && y < height ==>
              var at := y * src.stride + 4 * x;
              && at + 2 < |src.pixels| && At(p, Y(x, y)) < |bytes|
              && NearLuma(bytes[At(p, Y(x, y))], src.pixels[at], src.pixels[at + 1], src.pixels[at + 2])
    ensures x < width / 2 && y < height / 2 ==>
              var at := (2 * y) * src.stride + 4 * (2 * x);
              && at + 2 < |src.pixels| && At(p, Cb(x, y)) < |bytes| && At(p, Cr(x, y)) < |bytes|
              && NearBlue(bytes[At(p, Cb(x, y))], src.pixels[at], src.pixels[at + 1], src.pixels[at + 2])
              && NearRed(bytes[At(p, Cr(x, y))], src.pixels[at], src.pixels[at + 1], src.pixels[at + 2])
  {
    hide At, NearLuma, NearBlue, NearRed, Luma, BlueDifference, RedDifference;
    if x < width && y < height {
      assert InPicture(Y(x, y), width, height);
      var at := PixelAt(src, x, y);
      assert at == y * src.stride + 4 * x;
      WithinOneCode(src.pixels[at], src.pixels[at + 1], src.pixels[at + 2]);
    }
    if x < width / 2 && y < height / 2 {
      assert InPicture(Cb(x, y), width, height) && InPicture(Cr(x, y), width, height);
      var at := PixelAt(src, 2 * x, 2 * y);
      assert at == (2 * y) * src.stride + 4 * (2 * x);
      assert 2 * x < width && 2 * y < height;
      WithinOneCode(src.pixels[at], src.pixels[at + 1], src.pixels[at + 2]);
    }
  }

  function Min(a: int, b: int): int {
    if a < b then a else b
  }

  method FillFromRgba(dst: array<Byte>, p: Planes, src: Source, width: nat, height: nat, srcWidth: nat, srcHeight: nat)
    requires var w, h := Min(width, srcWidth), Min(height, srcHeight);
             Covers(src, w, h) && Separate(p, dst.Length, w, h)
    modifies dst
    ensures Filled(dst[..], old(dst[..]), p, src, Min(width, srcWidth), Min(height, srcHeight))
  {
    var copyWidth, copyHeight := Min(width, srcWidth), Min(height, srcHeight);
    FillLuma(dst, p, src, copyWidth, copyHeight);
    FillChroma(dst, p, src, copyWidth, copyHeight);
  }

  method FillLuma(dst: array<Byte>, p: Planes, src: Source, width: nat, height: nat)
    requires Covers(src, width, height) && Separate(p, dst.Length, width, height)
    modifies dst
    ensures forall s :: InPicture(s, width, height) && s.Y? ==> dst[At(p, s)] == Converted(src, s, width, height)
    ensures Padding(dst[..], old(dst[..]), p, width, height)
  {
    hide At, Luma;
    for y := 0 to height
      invariant forall s :: InPicture(s, width, height) && s.Y? && s.y < y ==> dst[At(p, s)] == Converted(src, s, width, height)
      invariant Padding(dst[..], old(dst[..]), p, width, height)
    {
      for x := 0 to width
        invariant forall s :: InPicture(s, width, height) && s.Y? && (s.y < y || (s.y == y && s.x < x)) ==>
          dst[At(p, s)] == Converted(src, s, width, height)
        invariant Padding(dst[..], old(dst[..]), p, width, height)
      {
        var at := y * src.stride + x * 4;
        assert at == PixelAt(src, x, y);
        var r, g, b := src.pixels[at], src.pixels[at + 1], src.pixels[at + 2];
        assert InPicture(Y(x, y), width, height);
        dst[At(p, Y(x, y))] := Luma(r, g, b);
      }
    }
  }

  method FillChroma(dst: array<Byte>, p: Planes, src: Source, width: nat, height: nat)
    requires Covers(src, width, height) && Separate(p, dst.Length, width, height)
    modifies dst
    ensures forall s :: InPicture(s, width, height) && !s.Y? ==> dst[At(p, s)] == Converted(src, s, width, height)
    ensures forall s :: InPicture(s, width, height) && s.Y? ==> dst[At(p, s)] == old(dst[At(p, s)])
    ensures Padding(dst[..], old(dst[..]), p, width, height)
  {
    hide At, BlueDifference, RedDifference;
    for cy := 0 to height / 2
      invariant forall s :: InPicture(s, width, height) && !s.Y? && s.y < cy ==> dst[At(p, s)] == Converted(src, s, width, height)
      invariant forall s :: InPicture(s, width, height) && s.Y? ==> dst[At(p, s)] == old(dst[At(p, s)])
      invariant Padding(dst[..], old(dst[..]), p, width, height)
    {
      for cx := 0 to width / 2
        invariant forall s :: InPicture(s, width, height) && !s.Y? && (s.y < cy || (s.y == cy && s.x < cx)) ==>
          dst[At(p, s)] == Converted(src, s, width, height)
        invariant forall s :: InPicture(s, width, height) && s.Y? ==> dst[At(p, s)] == old(dst[At(p, s)])
        invariant Padding(dst[..], old(dst[..]), p, width, height)
      {
        var at := (cy * 2) * src.stride + cx * 2 * 4;
        assert at == PixelAt(src, 2 * cx, 2 * cy);
        var r, g, b := src.pixels[at], src.pixels[at + 1], src.pixels[at + 2];
        assert InPicture(Cb(cx, cy), width, height) && InPicture(Cr(cx, cy), width, height);
        dst[At(p, Cb(cx, cy))] := BlueDifference(r, g, b);
        dst[At(p, Cr(cx, cy))] := RedDifference(r, g, b);
      }
    }
  }

  /** Whatever the layouts, two fills from one source hold the same picture. */
  lemma LayoutsAgree(a: seq<Byte>, a0: seq<Byte>, p: Planes, b: seq<Byte>, b0: seq<Byte>, q: Planes,
                     src: Source, width: nat, height: nat, s: Sample)
    requires Covers(src, width, height) && InPicture(s, width, height)
    requires Filled(a, a0, p, src, width, height) && Filled(b, b0, q, src, width, height)
    ensures At(p, s) < |a| && At(q, s) < |b| && a[At(p, s)] == b[At(q, s)]
  {
  }

  // ---------------------------------------------------------------- layouts that keep samples apart

  lemma RowInside(stride: nat, x: nat, y: nat, rows: nat)
    requires x < stride && y < rows
    ensures Offset(stride, x, y) < rows * stride
  {
    assert rows * stride == (y + 1) * stride + (rows - y - 1) * stride;
    assert (rows - y - 1) * stride >= 0;
  }

  lemma RowsApart(stride: nat, x: nat, y: nat, u: nat, v: nat)
    requires x < stride && u < stride && Offset(stride, x, y) == Offset(stride, u, v)
    ensures x == u && y == v
  {
    if y < v {
      RowInside(stride, x, y, v);
    } else if v < y {
      RowInside(stride, u, v, y);
    }
  }

  predicate Planar(p: Planes, size: nat, width: nat, height: nat) {
    && p.chromaStep == 1 && width <= p.yStride && width / 2 <= p.cStride
    && p.yAt + height * p.yStride <= p.cbAt
    && p.cbAt + height / 2 * p.cStride <= p.crAt
    && p.crAt + height / 2 * p.cStride <= size
  }

  /** Chroma bytes alternate, in either order. */
  predicate SemiPlanar(p: Planes, size: nat, width: nat, height: nat) {
    && p.chromaStep == 2 && width <= p.yStride && width / 2 * 2 <= p.cStride
    && (p.crAt == p.cbAt + 1 || p.cbAt == p.crAt + 1)
    && p.yAt + height * p.yStride <= Min(p.cbAt, p.crAt)
    && Min(p.cbAt, p.crAt) + height / 2 * p.cStride <= size
  }

  lemma PlanarAt(p: Planes, size: nat, width: nat, height: nat, s: Sample)
    requires Planar(p, size, width, height) && InPicture(s, width, height)
    ensures At(p, s) == (if s.Y? then p.yAt + Offset(p.yStride, s.x, s.y)
                         else (if s.Cb? then p.cbAt else p.crAt) + Offset(p.cStride, s.x, s.y))
    ensures s.Y? ==> At(p, s) < p.cbAt <= p.crAt
    ensures s.Cb? ==> p.cbAt <= At(p, s) < p.crAt
    ensures s.Cr? ==> p.cbAt <= p.crAt <= At(p, s)
    ensures At(p, s) < size && s.x < if s.Y? then p.yStride else p.cStride
  {
    RowInside(if s.Y? then p.yStride else p.cStride, s.x, s.y, if s.Y? then height else height / 2);
    PlanesFollow(p, size, width, height);
    hide Offset;
  }

  lemma PlanesFollow(p: Planes, size: nat, width: nat, height: nat)
    requires Planar(p, size, width, height)
    ensures p.cbAt <= p.crAt <= size
  {
  }

  lemma PlanarIsSeparate(p: Planes, size: nat, width: nat, height: nat)
    requires Planar(p, size, width, height)
    ensures Separate(p, size, width, height)
  {
    hide Offset, At, Planar;
    forall s | InPicture(s, width, height) ensures At(p, s) < size {
      PlanarAt(p, size, width, height, s);
    }
    forall s, t | InPicture(s, width, height) && InPicture(t, width, height) && At(p, s) == At(p, t) ensures s == t {
      PlanarAt(p, size, width, height, s);
      PlanarAt(p, size, width, height, t);
      RowsApart(if s.Y? then p.yStride else p.cStride, s.x, s.y, t.x, t.y);
    }
  }

  /** The offset of a sample in its row of a semi-planar buffer. */
  function Column(p: Planes, s: Sample): nat {
    if s.Y? then s.x
    else if (if s.Cb? then p.cbAt else p.crAt) == Min(p.cbAt, p.crAt) then s.x * 2
    else s.x * 2 + 1
  }

  lemma SemiPlanarAt(p: Planes, size: nat, width: nat, height: nat, s: Sample)
    requires SemiPlanar(p, size, width, height) && InPicture(s, width, height)
    ensures s.Y? ==> At(p, s) == p.yAt + Offset(p.yStride, Column(p, s), s.y) && At(p, s) < Min(p.cbAt, p.crAt)
    ensures !s.Y? ==> At(p, s) == Min(p.cbAt, p.crAt) + Offset(p.cStride, Column(p, s), s.y) && At(p, s) < size
    ensures Column(p, s) < if s.Y? then p.yStride else p.cStride
  {
    RowInside(if s.Y? then p.yStride else p.cStride, Column(p, s), s.y, if s.Y? then height else height / 2);
  }

  lemma SemiPlanarIsSeparate(p: Planes, size: nat, width: nat, height: nat)
    requires SemiPlanar(p, size, width, height)
    ensures Separate(p, size, width, height)
  {
    hide Offset, At;
    forall s | InPicture(s, width, height) ensures At(p, s) < size {
      SemiPlanarAt(p, size, width, height, s);
    }
    forall s, t | InPicture(s, width, height) && InPicture(t, width, height) && At(p, s) == At(p, t) ensures s == t {
      SemiPlanarAt(p, size, width, height, s);
      SemiPlanarAt(p, size, width, height, t);
      RowsApart(if s.Y? then p.yStride else p.cStride, Column(p, s), s.y, Column(p, t), t.y);
    }
  }
}
