/** Copying a YUV frame between buffers of any layout (hal/core/FrameFiller.cpp:272-362), and
    exactly when the bulk shortcut for chroma keeps the picture. */
module PlaneCopy {
  import opened FrameFiller

  predicate InRows(i: int, at: nat, stride: nat, n: nat, rows: nat) {
    exists x: nat, y: nat :: x < n && y < rows && i == at + Offset(stride, x, y)
  }

  predicate RowsFit(at: nat, stride: nat, n: nat, rows: nat, size: nat) {
    forall x: nat, y: nat :: x < n && y < rows ==> at + Offset(stride, x, y) < size
  }

  ghost predicate RowsCopied(before: seq<Byte>, after: seq<Byte>, to: nat, toStride: nat,
                             src: seq<Byte>, from: nat, fromStride: nat, n: nat, rows: nat) {
    && RowsFit(to, toStride, n, rows, |after|) && RowsFit(from, fromStride, n, rows, |src|)
    && |before| == |after|
    && (forall x: nat, y: nat :: x < n && y < rows ==> after[to + Offset(toStride, x, y)] == src[from + Offset(fromStride, x, y)])
    && (forall i :: 0 <= i < |after| && !InRows(i, to, toStride, n, rows) ==> after[i] == before[i])
  }

  /** `rows` calls of memcpy, one per row. */
  method CopyRows(dst: array<Byte>, to: nat, toStride: nat, src: seq<Byte>, from: nat, fromStride: nat, n: nat, rows: nat)
    requires n <= toStride && RowsFit(to, toStride, n, rows, dst.Length) && RowsFit(from, fromStride, n, rows, |src|)
    modifies dst
    ensures RowsCopied(old(dst[..]), dst[..], to, toStride, src, from, fromStride, n, rows)
  {
    hide Offset;
    for y := 0 to rows
      invariant forall x: nat, v: nat :: x < n && v < y ==> dst[to + Offset(toStride, x, v)] == src[from + Offset(fromStride, x, v)]
      invariant forall i :: 0 <= i < dst.Length && !InRows(i, to, toStride, n, rows) ==> dst[i] == old(dst[i])
    {
      for x := 0 to n
        invariant forall u: nat, v: nat :: u < n && v < rows && (v < y || (v == y && u < x)) ==>
          dst[to + Offset(toStride, u, v)] == src[from + Offset(fromStride, u, v)]
        invariant forall i :: 0 <= i < dst.Length && !InRows(i, to, toStride, n, rows) ==> dst[i] == old(dst[i])
      {
        forall u: nat, v: nat | u < n && v < rows && Offset(toStride, u, v) == Offset(toStride, x, y) ensures u == x && v == y {
          RowsApart(toStride, u, v, x, y);
        }
        dst[to + Offset(toStride, x, y)] := src[from + Offset(fromStride, x, y)];
      }
    }
  }

  predicate KnownLayout(p: Planes, size: nat, width: nat, height: nat) {
    Planar(p, size, width, height) || SemiPlanar(p, size, width, height)
  }

  /** The branch that copies whole chroma rows. */
  predicate Bulk(ps: Planes, pd: Planes) {
    ps.chromaStep == pd.chromaStep && ps.cStride == pd.cStride
  }

  predicate CbFirst(p: Planes) {
    p.crAt == p.cbAt + 1
  }

  /** What a caller can check: the picture survives exactly under this condition. */
  predicate KeepsPicture(ps: Planes, pd: Planes) {
    !Bulk(ps, pd) || pd.chromaStep == 1 || (CbFirst(ps) && CbFirst(pd))
  }

  ghost predicate Copied(dst: seq<Byte>, pd: Planes, src: seq<Byte>, ps: Planes, s: Sample) {
    At(pd, s) < |dst| && At(ps, s) < |src| && dst[At(pd, s)] == src[At(ps, s)]
  }

  lemma KnownIsSeparate(p: Planes, size: nat, width: nat, height: nat)
    requires KnownLayout(p, size, width, height)
    ensures Separate(p, size, width, height)
  {
    if Planar(p, size, width, height) {
      PlanarIsSeparate(p, size, width, height);
    } else {
      SemiPlanarIsSeparate(p, size, width, height);
    }
  }

  /** The bytes of the luma plane are the luma samples and come before all chroma. */
  lemma LumaRows(p: Planes, size: nat, width: nat, height: nat)
    requires KnownLayout(p, size, width, height)
    ensures RowsFit(p.yAt, p.yStride, width, height, size)
    ensures forall i :: InRows(i, p.yAt, p.yStride, width, height) ==> i < Min(p.cbAt, p.crAt) && Used(p, width, height, i)
    ensures forall s :: InPicture(s, width, height) && s.Y? ==> At(p, s) < Min(p.cbAt, p.crAt)
  {
    hide Offset;
    KnownIsSeparate(p, size, width, height);
    forall x: nat, y: nat | x < width && y < height
      ensures p.yAt + Offset(p.yStride, x, y) < Min(p.cbAt, p.crAt)
      ensures Used(p, width, height, p.yAt + Offset(p.yStride, x, y))
    {
      assert InPicture(Y(x, y), width, height);
      RowInside(p.yStride, x, y, height);
    }
  }

  /** Where interleaved chroma starts with Cb, the bytes of its rows are exactly the chroma samples. */
  lemma InterleavedByte(p: Planes, size: nat, width: nat, height: nat, x: nat, y: nat)
    requires SemiPlanar(p, size, width, height) && CbFirst(p) && x < width / 2 * 2 && y < height / 2
    ensures var s := if x % 2 == 0 then Cb(x / 2, y) else Cr(x / 2, y);
            InPicture(s, width, height) && At(p, s) == p.cbAt + Offset(p.cStride, x, y)
  {
  }

  ghost predicate ChromaCopied(dst: seq<Byte>, pd: Planes, src: seq<Byte>, ps: Planes, width: nat, height: nat) {
    forall s :: InPicture(s, width, height) && !s.Y? ==> Copied(dst, pd, src, ps, s)
  }

  lemma BulkKeepsChroma(before: seq<Byte>, after: seq<Byte>, pd: Planes, src: seq<Byte>, ps: Planes, width: nat, height: nat)
    requires SemiPlanar(pd, |after|, width, height) && SemiPlanar(ps, |src|, width, height) && CbFirst(pd) && CbFirst(ps)
    requires RowsCopied(before, after, pd.cbAt, pd.cStride, src, ps.cbAt, ps.cStride, width / 2 * 2, height / 2)
    ensures ChromaCopied(after, pd, src, ps, width, height) && Padding(after, before, pd, width, height)
  {
    hide Offset, At, SemiPlanar, CbFirst;
    var n, rows := width / 2 * 2, height / 2;
    forall s | InPicture(s, width, height) && !s.Y? ensures Copied(after, pd, src, ps, s) {
      var x := if s.Cb? then 2 * s.x else 2 * s.x + 1;
      InterleavedByte(pd, |after|, width, height, x, s.y);
      InterleavedByte(ps, |src|, width, height, x, s.y);
    }
    forall i | 0 <= i < |after| && !Used(pd, width, height, i) ensures after[i] == before[i] {
      if InRows(i, pd.cbAt, pd.cStride, n, rows) {
        var x: nat, y: nat :| x < n && y < rows && i == pd.cbAt + Offset(pd.cStride, x, y);
        InterleavedByte(pd, |after|, width, height, x, y);
      }
    }
  }

  /** The value that ends up in the first Cr sample when the shortcut does not keep the picture. */
  lemma BulkLosesCr(before: seq<Byte>, after: seq<Byte>, pd: Planes, src: seq<Byte>, ps: Planes, width: nat, height: nat)
    requires SemiPlanar(pd, |after|, width, height) && SemiPlanar(ps, |src|, width, height) && !(CbFirst(pd) && CbFirst(ps))
    requires RowsCopied(before, after, pd.cbAt, pd.cStride, src, ps.cbAt, ps.cStride, width / 2 * 2, height / 2)
    requires width >= 2 && height >= 2
    ensures CbFirst(pd) ==> At(ps, Cr(1, 0)) < |src|
    ensures Min(pd.cbAt, pd.crAt) <= At(pd, Cr(0, 0)) < |after|
    ensures after[At(pd, Cr(0, 0))] == if CbFirst(pd) then src[At(ps, Cr(1, 0))] else before[At(pd, Cr(0, 0))]
  {
    hide Offset, At;
    FirstRow(pd);
    FirstRow(ps);
    var n, rows := width / 2 * 2, height / 2;
    assert RowsFit(ps.cbAt, ps.cStride, n, rows, |src|);
    assert ps.cbAt + Offset(ps.cStride, 1, 0) < |src|;
    assert InPicture(Cr(0, 0), width, height);
    SemiPlanarIsSeparate(pd, |after|, width, height);
    if CbFirst(pd) {
      assert after[pd.cbAt + Offset(pd.cStride, 1, 0)] == src[ps.cbAt + Offset(ps.cStride, 1, 0)];
    } else {
      assert !InRows(pd.crAt, pd.cbAt, pd.cStride, n, rows);
    }
  }

  lemma FirstRow(p: Planes)
    ensures Offset(p.cStride, 1, 0) == 1 && At(p, Cr(0, 0)) == p.crAt
    ensures p.chromaStep == 2 ==> At(p, Cr(1, 0)) == p.crAt + 2
  {
  }

  method BulkPlanar(dst: array<Byte>, pd: Planes, src: seq<Byte>, ps: Planes, width: nat, height: nat)
    requires Planar(pd, dst.Length, width, height) && Planar(ps, |src|, width, height) && Bulk(ps, pd)
    modifies dst
    ensures forall i :: 0 <= i < dst.Length && i < pd.cbAt ==> dst[i] == old(dst[i])
    ensures ChromaCopied(dst[..], pd, src, ps, width, height)
    ensures Padding(dst[..], old(dst[..]), pd, width, height)
  {
    hide Offset, Planar, RowsFit, RowsCopied, ChromaCopied, Padding;
    var n, rows := width / 2, height / 2;
    PlanarRows(pd, dst.Length, width, height);
    PlanarRows(ps, |src|, width, height);
    ghost var before := dst[..];
    CopyRows(dst, pd.cbAt, pd.cStride, src, ps.cbAt, ps.cStride, n, rows);
    ghost var between := dst[..];
    CopyRows(dst, pd.crAt, pd.cStride, src, ps.crAt, ps.cStride, n, rows);
    TwoPlanes(before, between, dst[..], pd, src, ps, width, height);
  }

  lemma BelowRows(i: int, at: nat, stride: nat, n: nat, rows: nat)
    requires i < at
    ensures !InRows(i, at, stride, n, rows)
  {
    hide Offset;
  }

  lemma TwoPlanes(before: seq<Byte>, between: seq<Byte>, after: seq<Byte>, pd: Planes, src: seq<Byte>, ps: Planes, width: nat, height: nat)
    requires |before| == |between| == |after| && Planar(pd, |after|, width, height) && Planar(ps, |src|, width, height)
    requires RowsCopied(before, between, pd.cbAt, pd.cStride, src, ps.cbAt, ps.cStride, width / 2, height / 2)
    requires RowsCopied(between, after, pd.crAt, pd.cStride, src, ps.crAt, ps.cStride, width / 2, height / 2)
    ensures forall i :: 0 <= i < pd.cbAt && i < |after| ==> after[i] == before[i]
    ensures ChromaCopied(after, pd, src, ps, width, height) && Padding(after, before, pd, width, height)
  {
    hide Offset, InRows, RowsFit, Planar, Used;
    var n, rows := width / 2, height / 2;
    PlanarRows(pd, |after|, width, height);
    forall i | 0 <= i < |after| && !Used(pd, width, height, i) ensures after[i] == before[i] {
      assert !InRows(i, pd.cbAt, pd.cStride, n, rows) && !InRows(i, pd.crAt, pd.cStride, n, rows);
    }
    forall i | 0 <= i < pd.cbAt && i < |after| ensures after[i] == before[i] {
      PlanarOrder(pd, |after|, width, height);
      BelowRows(i, pd.cbAt, pd.cStride, n, rows);
      BelowRows(i, pd.crAt, pd.cStride, n, rows);
    }
    forall s | InPicture(s, width, height) && !s.Y? ensures Copied(after, pd, src, ps, s) {
      PlaneSample(pd, |after|, width, height, s);
      PlaneSample(ps, |src|, width, height, s);
      if s.Cb? {
        BelowRows(At(pd, s), pd.crAt, pd.cStride, n, rows);
      }
    }
  }

  lemma PlanarOrder(p: Planes, size: nat, width: nat, height: nat)
    requires Planar(p, size, width, height)
    ensures p.cbAt <= p.crAt
  {
  }

  lemma PlaneSample(p: Planes, size: nat, width: nat, height: nat, s: Sample)
    requires Planar(p, size, width, height) && InPicture(s, width, height) && !s.Y?
    ensures At(p, s) == (if s.Cb? then p.cbAt else p.crAt) + Offset(p.cStride, s.x, s.y)
    ensures At(p, s) < (if s.Cb? then p.crAt else size) && p.crAt <= size
  {
    hide Offset;
    RowInside(p.cStride, s.x, s.y, height / 2);
  }

  lemma PlanarRows(p: Planes, size: nat, width: nat, height: nat)
    requires Planar(p, size, width, height)
    ensures RowsFit(p.cbAt, p.cStride, width / 2, height / 2, p.crAt)
    ensures RowsFit(p.cbAt, p.cStride, width / 2, height / 2, size) && RowsFit(p.crAt, p.cStride, width / 2, height / 2, size)
    ensures width / 2 <= p.cStride
    ensures forall i :: InRows(i, p.cbAt, p.cStride, width / 2, height / 2) ==> Used(p, width, height, i)
    ensures forall i :: InRows(i, p.crAt, p.cStride, width / 2, height / 2) ==> Used(p, width, height, i)
  {
    hide Offset;
    forall x: nat, y: nat | x < width / 2 && y < height / 2
      ensures p.cbAt + Offset(p.cStride, x, y) < p.crAt && Used(p, width, height, p.cbAt + Offset(p.cStride, x, y))
      ensures p.crAt + Offset(p.cStride, x, y) < size && Used(p, width, height, p.crAt + Offset(p.cStride, x, y))
    {
      assert InPicture(Cb(x, y), width, height) && InPicture(Cr(x, y), width, height);
      RowInside(p.cStride, x, y, height / 2);
    }
  }

  method CopyEach(dst: array<Byte>, pd: Planes, src: seq<Byte>, ps: Planes, width: nat, height: nat)
    requires Separate(pd, dst.Length, width, height) && Separate(ps, |src|, width, height)
    modifies dst
    ensures forall s :: InPicture(s, width, height) && s.Y? ==> dst[At(pd, s)] == old(dst[At(pd, s)])
    ensures forall s :: InPicture(s, width, height) && !s.Y? ==> Copied(dst[..], pd, src, ps, s)
    ensures Padding(dst[..], old(dst[..]), pd, width, height)
  {
    hide At;
    for cy := 0 to height / 2
      invariant forall s :: InPicture(s, width, height) && s.Y? ==> dst[At(pd, s)] == old(dst[At(pd, s)])
      invariant forall s :: InPicture(s, width, height) && !s.Y? && s.y < cy ==> dst[At(pd, s)] == src[At(ps, s)]
      invariant Padding(dst[..], old(dst[..]), pd, width, height)
    {
      for cx := 0 to width / 2
        invariant forall s :: InPicture(s, width, height) && s.Y? ==> dst[At(pd, s)] == old(dst[At(pd, s)])
        invariant forall s :: InPicture(s, width, height) && !s.Y? && (s.y < cy || (s.y == cy && s.x < cx)) ==>
          dst[At(pd, s)] == src[At(ps, s)]
        invariant Padding(dst[..], old(dst[..]), pd, width, height)
      {
        assert InPicture(Cb(cx, cy), width, height) && InPicture(Cr(cx, cy), width, height);
        var cb, cr := src[At(ps, Cb(cx, cy))], src[At(ps, Cr(cx, cy))];
        dst[At(pd, Cb(cx, cy))] := cb;
        dst[At(pd, Cr(cx, cy))] := cr;
      }
    }
  }

  /** The last bulk row of chroma that starts with Cr ends one byte later than the chroma does;
      without slack behind it that byte is outside the buffer. */
  predicate Overruns(p: Planes, size: nat, width: nat, height: nat) {
    p.chromaStep == 2 && !CbFirst(p) && width >= 2 && height >= 2 &&
    p.crAt + Offset(p.cStride, width / 2 * 2, height / 2 - 1) >= size
  }

  /** The bulk rows stay inside the buffer in every other case. */
  lemma BulkInside(p: Planes, size: nat, width: nat, height: nat)
    requires KnownLayout(p, size, width, height)
    ensures RowsFit(p.cbAt, p.cStride, width / 2 * p.chromaStep, height / 2, size) <==> !Overruns(p, size, width, height)
  {
    hide Offset;
    var n, rows := width / 2 * p.chromaStep, height / 2;
    if Overruns(p, size, width, height) {
      LastByte(p, n, rows);
    } else if rows > 0 && n > 0 {
      LastByte(p, n, rows);
      forall x: nat, y: nat | x < n && y < rows ensures p.cbAt + Offset(p.cStride, x, y) < size {
        RowInside(p.cStride, x, y, rows);
        Before(p.cStride, x, y, n, rows);
      }
    }
  }

  lemma LastByte(p: Planes, n: nat, rows: nat)
    requires n > 0 && rows > 0
    ensures Offset(p.cStride, n, rows - 1) == Offset(p.cStride, n - 1, rows - 1) + 1
    ensures p.chromaStep == 2 && p.cbAt == p.crAt + 1 ==>
      p.cbAt + Offset(p.cStride, n - 1, rows - 1) == p.crAt + Offset(p.cStride, n, rows - 1)
  {
  }

  lemma Before(stride: nat, x: nat, y: nat, n: nat, rows: nat)
    requires x < n && y < rows
    ensures Offset(stride, x, y) <= Offset(stride, n - 1, rows - 1)
  {
    RowsUp(stride, y, rows - 1);
  }

  lemma RowsUp(stride: nat, y: nat, last: nat)
    requires y <= last
    ensures y * stride <= last * stride
  {
    var d: nat := last - y;
    assert last * stride == (y + d) * stride == y * stride + d * stride;
  }

  /** An overrun is by exactly one byte. */
  lemma OverrunIsOneByte(p: Planes, size: nat, width: nat, height: nat)
    requires KnownLayout(p, size, width, height) && Overruns(p, size, width, height)
    ensures p.cbAt + Offset(p.cStride, width / 2 * 2 - 1, height / 2 - 1) == size
  {
    hide Offset;
    var n, rows := width / 2 * 2, height / 2;
    LastByte(p, n, rows);
    RowInside(p.cStride, n - 1, rows - 1, rows);
  }

  /** Chroma that starts with Cr, packed tightly to the end of the buffer, always overruns. */
  lemma TightlyPackedOverruns(p: Planes, size: nat, width: nat, height: nat)
    requires SemiPlanar(p, size, width, height) && !CbFirst(p) && width >= 2 && height >= 2
    requires p.cStride == width / 2 * 2 && p.crAt + height / 2 * p.cStride == size
    ensures Overruns(p, size, width, height)
  {
    assert height / 2 * p.cStride == (height / 2 - 1) * p.cStride + p.cStride;
  }

  const TIGHT: Planes := Planes(0, 17, 16, 4, 4, 2)

  /** A picture of four by four in a buffer of its exact size. */
  lemma SmallOverrun()
    ensures KnownLayout(TIGHT, 24, 4, 4) && Bulk(TIGHT, TIGHT) && Overruns(TIGHT, 24, 4, 4)
  {
    TightlyPackedOverruns(TIGHT, 24, 4, 4);
  }

  /** `inside` is false when the shortcut would leave either buffer; what follows then is not
      defined. Otherwise the copy keeps the picture under KeepsPicture and leaves padding alone,
      or the first Cr sample ends up with its right neighbour's value or keeps its old one. */
  method CopyFrame(dst: array<Byte>, pd: Planes, src: seq<Byte>, ps: Planes, width: nat, height: nat) returns (inside: bool)
    requires KnownLayout(pd, dst.Length, width, height) && KnownLayout(ps, |src|, width, height)
    modifies dst
    ensures inside <==> !(Bulk(ps, pd) && (Overruns(pd, dst.Length, width, height) || Overruns(ps, |src|, width, height)))
    ensures forall s :: InPicture(s, width, height) && s.Y? ==> Copied(dst[..], pd, src, ps, s)
    ensures inside && KeepsPicture(ps, pd) ==> forall s :: InPicture(s, width, height) ==> Copied(dst[..], pd, src, ps, s)
    ensures !inside || KeepsPicture(ps, pd) ==> Padding(dst[..], old(dst[..]), pd, width, height)
    ensures inside && !KeepsPicture(ps, pd) && width >= 2 && height >= 2 ==>
      (CbFirst(pd) ==> At(ps, Cr(1, 0)) < |src|) && At(pd, Cr(0, 0)) < dst.Length &&
      dst[At(pd, Cr(0, 0))] == if CbFirst(pd) then src[At(ps, Cr(1, 0))] else old(dst[At(pd, Cr(0, 0))])
  {
    hide Overruns;
    hide Offset, At;
    KnownIsSeparate(pd, dst.Length, width, height);
    KnownIsSeparate(ps, |src|, width, height);
    CopyLuma(dst, pd, src, ps, width, height);
    BulkInside(pd, dst.Length, width, height);
    BulkInside(ps, |src|, width, height);
    inside := !Bulk(ps, pd) || !(Overruns(pd, dst.Length, width, height) || Overruns(ps, |src|, width, height));
    if !inside {
      return;
    }
    if Bulk(ps, pd) {
      if pd.chromaStep == 1 {
        BulkPlanar(dst, pd, src, ps, width, height);
      } else {
        ghost var before := dst[..];
        CopyRows(dst, pd.cbAt, pd.cStride, src, ps.cbAt, ps.cStride, width / 2 * 2, height / 2);
        if CbFirst(pd) && CbFirst(ps) {
          BulkKeepsChroma(before, dst[..], pd, src, ps, width, height);
        } else if width >= 2 && height >= 2 {
          BulkLosesCr(before, dst[..], pd, src, ps, width, height);
        }
      }
      LumaRows(pd, dst.Length, width, height);
    } else {
      CopyEach(dst, pd, src, ps, width, height);
    }
  }

  method CopyLuma(dst: array<Byte>, pd: Planes, src: seq<Byte>, ps: Planes, width: nat, height: nat)
    requires KnownLayout(pd, dst.Length, width, height) && KnownLayout(ps, |src|, width, height)
    modifies dst
    ensures forall s :: InPicture(s, width, height) && s.Y? ==> Copied(dst[..], pd, src, ps, s)
    ensures forall i :: Min(pd.cbAt, pd.crAt) <= i < dst.Length ==> dst[i] == old(dst[i])
    ensures Padding(dst[..], old(dst[..]), pd, width, height)
  {
    hide Offset;
    LumaRows(pd, dst.Length, width, height);
    LumaRows(ps, |src|, width, height);
    KnownIsSeparate(pd, dst.Length, width, height);
    KnownIsSeparate(ps, |src|, width, height);
    CopyRows(dst, pd.yAt, pd.yStride, src, ps.yAt, ps.yStride, width, height);
  }
}
