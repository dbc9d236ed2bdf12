/** Producer descriptors and source-mode negotiation (hal/core/ProducerCapabilities.h). */
module Capabilities {
  import opened Wrappers

  const JPEG: int := 0x21

  datatype Mode = Mode(id: int, width: int, height: int, minFps: int, maxFps: int, formats: seq<int>, downscale: bool)
  datatype Descriptor = Descriptor(registration: int, facing: int, orientation: int, maxStreams: int, modes: seq<Mode>)
  datatype Output = Output(format: int, width: int, height: int)

  // ---------------------------------------------------------------- validity

  predicate KnownFormat(f: int) {
    f == 1 || f == 0x22 || f == 0x23 || f == JPEG
  }

  predicate Unrepeated<T(==)>(s: seq<T>) {
    forall i, j :: 0 <= i < j < |s| ==> s[i] != s[j]
  }

  predicate ValidMode(m: Mode) {
    && m.id > 0 && 16 <= m.width <= 8192 && 16 <= m.height <= 8192 && m.width % 2 == 0 && m.height % 2 == 0
    && m.width * m.height <= 3840 * 2160 && 1 <= m.minFps <= m.maxFps <= 120
    && 1 <= |m.formats| <= 4 && Unrepeated(m.formats) && forall i :: 0 <= i < |m.formats| ==> KnownFormat(m.formats[i])
  }

  predicate ValidHeader(c: Descriptor) {
    && c.registration > 0 && 1 <= |c.modes| <= 32 && 0 <= c.facing <= 2
    && (c.orientation == 0 || c.orientation == 90 || c.orientation == 180 || c.orientation == 270)
    && 1 <= c.maxStreams <= 3
  }

  predicate ValidDescriptor(c: Descriptor) {
    && ValidHeader(c)
    && (forall i :: 0 <= i < |c.modes| ==> ValidMode(c.modes[i]))
    && (forall i, j :: 0 <= i < j < |c.modes| ==> c.modes[i].id != c.modes[j].id)
  }

  method Valid(c: Descriptor) returns (ok: bool)
    ensures ok <==> ValidDescriptor(c)
  {
    if c.registration <= 0 || c.modes == [] || |c.modes| > 32 || c.facing < 0 || c.facing > 2 ||
       (c.orientation != 0 && c.orientation != 90 && c.orientation != 180 && c.orientation != 270) ||
       c.maxStreams < 1 || c.maxStreams > 3 {
      return false;
    }
    var ids: set<int> := {};
    for i := 0 to |c.modes|
      invariant ids == set j | 0 <= j < i :: c.modes[j].id
      invariant forall j :: 0 <= j < i ==> ValidMode(c.modes[j])
      invariant forall j, k :: 0 <= j < k < i ==> c.modes[j].id != c.modes[k].id
    {
      var m := c.modes[i];
      if m.id <= 0 || m.id in ids {
        assert m.id > 0 ==> exists j :: 0 <= j < i && c.modes[j].id == m.id;
        return false;
      }
      ids := ids + {m.id};
      if m.width < 16 || m.height < 16 || m.width > 8192 || m.height > 8192 || m.width % 2 != 0 || m.height % 2 != 0 ||
         m.width * m.height > 3840 * 2160 || m.minFps < 1 || m.maxFps < m.minFps || m.maxFps > 120 ||
         m.formats == [] || |m.formats| > 4 {
        assert !ValidMode(m);
        return false;
      }
      var formatsOk := ValidFormats(m.formats);
      if !formatsOk {
        assert !ValidMode(m);
        return false;
      }
    }
    return true;
  }

  method ValidFormats(formats: seq<int>) returns (ok: bool)
    ensures ok <==> Unrepeated(formats) && forall i :: 0 <= i < |formats| ==> KnownFormat(formats[i])
  {
    var seen: set<int> := {};
    for i := 0 to |formats|
      invariant seen == set j | 0 <= j < i :: formats[j]
      invariant forall j :: 0 <= j < i ==> KnownFormat(formats[j])
      invariant forall j, k :: 0 <= j < k < i ==> formats[j] != formats[k]
    {
      if !KnownFormat(formats[i]) || formats[i] in seen {
        assert formats[i] in seen ==> exists j :: 0 <= j < i && formats[j] == formats[i];
        return false;
      }
      seen := seen + {formats[i]};
    }
    return true;
  }

  // ---------------------------------------------------------------- rates

  function Max(a: int, b: int): int { if a < b then b else a }
  function Min(a: int, b: int): int { if b < a then b else a }

  /** The fastest rate every mode needs, the slowest every mode reaches, and the extremes. */
  function CommonLow(modes: seq<Mode>): int {
    if modes == [] then 1 else Max(CommonLow(modes[..|modes| - 1]), modes[|modes| - 1].minFps)
  }

  function CommonHigh(modes: seq<Mode>): int {
    if modes == [] then 120 else Min(CommonHigh(modes[..|modes| - 1]), modes[|modes| - 1].maxFps)
  }

  function GlobalLow(modes: seq<Mode>): int {
    if modes == [] then 120 else Min(GlobalLow(modes[..|modes| - 1]), modes[|modes| - 1].minFps)
  }

  function GlobalHigh(modes: seq<Mode>): int {
    if modes == [] then 1 else Max(GlobalHigh(modes[..|modes| - 1]), modes[|modes| - 1].maxFps)
  }

  function DefaultRange(c: Descriptor): (int, int) {
    var low, high := CommonLow(c.modes), CommonHigh(c.modes);
    if low <= high then
      var fps := if 30 < low then low else if high < 30 then high else 30;
      (fps, fps)
    else (GlobalLow(c.modes), GlobalHigh(c.modes))
  }

  lemma {:induction false} RangeBounds(modes: seq<Mode>)
    ensures forall i :: 0 <= i < |modes| ==>
              && modes[i].minFps <= CommonLow(modes) && CommonHigh(modes) <= modes[i].maxFps
              && GlobalLow(modes) <= modes[i].minFps && modes[i].maxFps <= GlobalHigh(modes)
    ensures CommonLow(modes) >= 1
    ensures (forall i :: 0 <= i < |modes| ==> modes[i].minFps >= 1) ==> GlobalLow(modes) >= 1
    ensures forall f :: SharedBy(modes, f) ==> CommonLow(modes) <= f <= CommonHigh(modes)
  {
    if modes != [] {
      var last := |modes| - 1;
      RangeBounds(modes[..last]);
      assert forall i :: 0 <= i < last ==> modes[..last][i] == modes[i];
      assert forall f :: SharedBy(modes, f) ==> SharedBy(modes[..last], f) && modes[last].minFps <= f <= modes[last].maxFps;
    }
  }

  /** A rate all modes share, the one nearest 30, when there is one; otherwise the narrowest span
      that covers all modes. */
  lemma DefaultRangeMeaning(c: Descriptor)
    requires ValidDescriptor(c)
    ensures var r := DefaultRange(c);
            if exists f :: SharedBy(c.modes, f) then
              r.0 == r.1 && SharedBy(c.modes, r.0) &&
              forall f :: SharedBy(c.modes, f) ==> (f <= r.0 <= 30 || 30 <= r.0 <= f || r.0 == 30)
            else
              && 1 <= r.0 <= r.1 && (forall i :: 0 <= i < |c.modes| ==> r.0 <= c.modes[i].minFps && c.modes[i].maxFps <= r.1)
              && (exists i :: 0 <= i < |c.modes| && c.modes[i].minFps == r.0) && (exists i :: 0 <= i < |c.modes| && c.modes[i].maxFps == r.1)
  {
    RangeBounds(c.modes);
    var low, high := CommonLow(c.modes), CommonHigh(c.modes);
    assert ValidMode(c.modes[0]);
    assert forall i :: 0 <= i < |c.modes| ==> ValidMode(c.modes[i]);
    RangeAttained(c.modes);
    if low <= high {
      assert SharedBy(c.modes, DefaultRange(c).0);
    }
  }

  /** Every mode can run at `f`. */
  ghost predicate SharedBy(modes: seq<Mode>, f: int) {
    1 <= f <= 120 && forall i :: 0 <= i < |modes| ==> modes[i].minFps <= f <= modes[i].maxFps
  }

  method ComputeDefaultRange(c: Descriptor) returns (range: (int, int))
    ensures range == DefaultRange(c)
  {
    var commonLow, commonHigh, globalLow, globalHigh := 1, 120, 120, 1;
    for i := 0 to |c.modes|
      invariant commonLow == CommonLow(c.modes[..i]) && commonHigh == CommonHigh(c.modes[..i])
      invariant globalLow == GlobalLow(c.modes[..i]) && globalHigh == GlobalHigh(c.modes[..i])
    {
      var m := c.modes[i];
      assert c.modes[..i + 1][..i] == c.modes[..i];
      commonLow := Max(commonLow, m.minFps);
      commonHigh := Min(commonHigh, m.maxFps);
      globalLow := Min(globalLow, m.minFps);
      globalHigh := Max(globalHigh, m.maxFps);
    }
    assert c.modes[..|c.modes|] == c.modes;
    if commonLow <= commonHigh {
      var fps := if 30 < commonLow then commonLow else if commonHigh < 30 then commonHigh else 30;
      return (fps, fps);
    }
    return (globalLow, globalHigh);
  }

  function ModeRanges(m: Mode): set<(int, int)> {
    {(m.minFps, m.maxFps), (m.minFps, m.minFps), (m.maxFps, m.maxFps)} +
    if m.minFps <= 30 <= m.maxFps then {(30, 30), (m.minFps, 30), (30, m.maxFps)} else {}
  }

  /** An end of an advertised range: an end of the mode's own, or 30 if the mode can run at it. */
  predicate Mark(m: Mode, fps: int) {
    fps == m.minFps || fps == m.maxFps || (fps == 30 && m.minFps <= 30 <= m.maxFps)
  }

  /** A mode's ranges are exactly those between two of its marks. */
  lemma RangesBetweenMarks(m: Mode, low: int, high: int)
    requires ValidMode(m)
    ensures (low, high) in ModeRanges(m) <==> low <= high && Mark(m, low) && Mark(m, high)
  {
  }

  ghost predicate Advertises(c: Descriptor, range: (int, int)) {
    range == DefaultRange(c) || exists i :: 0 <= i < |c.modes| && range in ModeRanges(c.modes[i])
  }

  method FpsRanges(c: Descriptor) returns (ranges: set<(int, int)>)
    ensures forall range :: range in ranges <==> Advertises(c, range)
  {
    var default := ComputeDefaultRange(c);
    ranges := {default};
    for i := 0 to |c.modes|
      invariant forall range :: range in ranges <==>
                  range == DefaultRange(c) || exists j :: 0 <= j < i && range in ModeRanges(c.modes[j])
    {
      var m := c.modes[i];
      ghost var before := ranges;
      ranges := ranges + {(m.minFps, m.maxFps)};
      ranges := ranges + {(m.minFps, m.minFps)};
      ranges := ranges + {(m.maxFps, m.maxFps)};
      if m.minFps <= 30 && m.maxFps >= 30 {
        ranges := ranges + {(30, 30)};
        ranges := ranges + {(m.minFps, 30)};
        ranges := ranges + {(30, m.maxFps)};
      }
      assert ranges == before + ModeRanges(m);
    }
  }

  // ---------------------------------------------------------------- selection

  ghost predicate Offers(m: Mode, o: Output) {
    m.width == o.width && m.height == o.height && o.format in m.formats
  }

  ghost predicate IsAdvertised(c: Descriptor, o: Output) {
    exists i :: 0 <= i < |c.modes| && Offers(c.modes[i], o)
  }

  method Advertised(c: Descriptor, o: Output) returns (found: bool)
    ensures found <==> IsAdvertised(c, o)
  {
    for i := 0 to |c.modes|
      invariant forall j :: 0 <= j < i ==> !Offers(c.modes[j], o)
    {
      var m := c.modes[i];
      if m.width == o.width && m.height == o.height && o.format in m.formats {
        assert Offers(m, o);
        return true;
      }
    }
    return false;
  }

  /** One source mode can feed the output: same size, or a permitted reduction that keeps the
      aspect ratio. */
  predicate FitsOutput(m: Mode, o: Output) {
    && o.format in m.formats && o.width <= m.width && o.height <= m.height
    && ((o.width == m.width && o.height == m.height) ||
        (m.downscale && o.width * m.height == o.height * m.width))
  }

  ghost predicate Fits(m: Mode, outputs: seq<Output>) {
    forall i :: 0 <= i < |outputs| ==> FitsOutput(m, outputs[i])
  }

  /** `high == 0` asks for no rate. */
  predicate RateAllowed(m: Mode, low: int, high: int) {
    high == 0 || (1 <= low <= high && m.minFps <= high && low <= m.maxFps)
  }

  function JpegCount(outputs: seq<Output>): nat {
    if outputs == [] then 0
    else JpegCount(outputs[..|outputs| - 1]) + if outputs[|outputs| - 1].format == JPEG then 1 else 0
  }

  ghost predicate Acceptable(c: Descriptor, outputs: seq<Output>, low: int, high: int) {
    && ValidDescriptor(c) && 1 <= |outputs| <= c.maxStreams
    && (high != 0 ==> Advertises(c, (low, high)))
    && (forall i :: 0 <= i < |outputs| ==> IsAdvertised(c, outputs[i]))
    && JpegCount(outputs) <= 1 && |outputs| - JpegCount(outputs) <= 2
  }

  ghost predicate Candidate(c: Descriptor, outputs: seq<Output>, low: int, high: int, m: Mode) {
    m in c.modes && RateAllowed(m, low, high) && Fits(m, outputs)
  }

  function Area(m: Mode): int { m.width * m.height }

  predicate Before(a: Mode, b: Mode) {
    Area(a) < Area(b) || (Area(a) == Area(b) && a.id <= b.id)
  }

  /** The least fitting mode by area and then id, if the request is acceptable and one fits. */
  ghost predicate Selected(c: Descriptor, outputs: seq<Output>, low: int, high: int, result: Option<Mode>) {
    if !Acceptable(c, outputs, low, high) then result == None
    else match result
      case None => forall m :: !Candidate(c, outputs, low, high, m)
      case Some(best) =>
        Candidate(c, outputs, low, high, best) &&
        forall m :: Candidate(c, outputs, low, high, m) ==> Before(best, m)
  }

  lemma CrossCancel(ow: int, oh: int, w1: int, h1: int, w2: int, h2: int)
    requires oh > 0 && ow * h1 == oh * w1 && ow * h2 == oh * w2
    ensures w1 * h2 == w2 * h1
  {
    assert oh * (w1 * h2) == (oh * w1) * h2 == (ow * h1) * h2 == h1 * (ow * h2) == h1 * (oh * w2) == oh * (w2 * h1);
  }

  /** All modes that fit one acceptable request share an aspect ratio. */
  lemma FittingModesShareAspect(c: Descriptor, outputs: seq<Output>, low: int, high: int, a: Mode, b: Mode)
    requires Acceptable(c, outputs, low, high) && a in c.modes && b in c.modes && Fits(a, outputs) && Fits(b, outputs)
    ensures a.width * b.height == b.width * a.height
  {
    var o := outputs[0];
    assert IsAdvertised(c, o) && FitsOutput(a, o) && FitsOutput(b, o);
    CrossCancel(o.width, o.height, a.width, a.height, b.width, b.height);
  }

  lemma SameShape(w1: int, h1: int, w2: int, h2: int)
    requires w1 > 0 && h1 > 0 && w2 > 0 && h2 > 0 && w1 * h2 == w2 * h1 && w1 * h1 == w2 * h2
    ensures w1 == w2 && h1 == h2
  {
    if w1 < w2 {
      Smaller(w1, h1, w2, h2);
    } else if w2 < w1 {
      Smaller(w2, h2, w1, h1);
    }
    assert w1 * h1 == w1 * h2;
  }

  lemma Smaller(w1: int, h1: int, w2: int, h2: int)
    requires 0 < w1 < w2 && h1 > 0 && h2 > 0 && w1 * h2 == w2 * h1
    ensures w1 * h1 < w2 * h2
  {
    ScaleLess(w1, w2, h1);
    if h2 < h1 {
      ScaleLess(h2, h1, w1);
    } else if h1 < h2 {
      ScaleLess(h1, h2, w2);
    }
  }

  lemma ScaleLess(a: int, b: int, c: int)
    requires a < b && c > 0
    ensures a * c < b * c && c * a < c * b
  {
    assert b * c == a * c + (b - a) * c;
  }

  /** So equal areas mean equal sizes: comparing sizes when areas tie decides by id. */
  lemma EqualAreaEqualSize(c: Descriptor, outputs: seq<Output>, low: int, high: int, a: Mode, b: Mode)
    requires Acceptable(c, outputs, low, high) && a in c.modes && b in c.modes && Fits(a, outputs) && Fits(b, outputs)
    requires Area(a) == Area(b)
    ensures a.width == b.width && a.height == b.height
  {
    FittingModesShareAspect(c, outputs, low, high, a, b);
    assert ValidMode(a) && ValidMode(b);
    SameShape(a.width, a.height, b.width, b.height);
  }

  /** No mode that would do is smaller in either dimension, nor has a smaller id at the same size. */
  lemma SelectedIsSmallest(c: Descriptor, outputs: seq<Output>, low: int, high: int, best: Mode, m: Mode)
    requires Selected(c, outputs, low, high, Some(best)) && Candidate(c, outputs, low, high, m)
    ensures best.width <= m.width && best.height <= m.height
    ensures best.width == m.width && best.height == m.height ==> best.id <= m.id
  {
    FittingModesShareAspect(c, outputs, low, high, best, m);
    assert ValidMode(best) && ValidMode(m) && Before(best, m);
    if m.width < best.width {
      Smaller(m.width, m.height, best.width, best.height);
    } else if m.height < best.height {
      Smaller(m.height, m.width, best.height, best.width);
    }
  }

  /** The mode selected gives every output its format at its size, scaling down only where it may
      and never changing the shape. */
  lemma SelectedServesOutputs(c: Descriptor, outputs: seq<Output>, low: int, high: int, best: Mode, i: nat)
    requires Selected(c, outputs, low, high, Some(best)) && i < |outputs|
    ensures var o := outputs[i];
            && best in c.modes && o.format in best.formats && 0 < o.width <= best.width && 0 < o.height <= best.height
            && o.width * best.height == best.width * o.height
            && (best.downscale || (o.width == best.width && o.height == best.height))
  {
    var o := outputs[i];
    assert IsAdvertised(c, o) && FitsOutput(best, o);
    var k :| 0 <= k < |c.modes| && Offers(c.modes[k], o);
    assert ValidMode(c.modes[k]);
    if o.width == best.width && o.height == best.height {
      assert o.width * best.height == best.width * o.height;
    }
  }

  /** An advertised output alone is served by a mode of exactly its size. */
  lemma ExactSizeIsSelected(c: Descriptor, o: Output, r: Option<Mode>)
    requires ValidDescriptor(c) && IsAdvertised(c, o) && Selected(c, [o], 0, 0, r)
    ensures r.Some? && r.value.width == o.width && r.value.height == o.height && o.format in r.value.formats
  {
    var k :| 0 <= k < |c.modes| && Offers(c.modes[k], o);
    assert JpegCount([o]) == if o.format == JPEG then 1 else 0;
    assert Acceptable(c, [o], 0, 0);
    assert Candidate(c, [o], 0, 0, c.modes[k]);
    if r.Some? {
      SelectedServesOutputs(c, [o], 0, 0, r.value, 0);
      SelectedIsSmallest(c, [o], 0, 0, r.value, c.modes[k]);
    }
  }

  lemma {:induction false} TwoJpegs(outputs: seq<Output>, i: nat, j: nat)
    requires i < j < |outputs| && outputs[i].format == JPEG && outputs[j].format == JPEG
    ensures JpegCount(outputs) >= 2
    decreases |outputs|
  {
    var init := outputs[..|outputs| - 1];
    if j < |outputs| - 1 {
      TwoJpegs(init, i, j);
    } else {
      OneJpeg(init, i);
    }
  }

  lemma {:induction false} OneJpeg(outputs: seq<Output>, i: nat)
    requires i < |outputs| && outputs[i].format == JPEG
    ensures JpegCount(outputs) >= 1
    decreases |outputs|
  {
    if i < |outputs| - 1 {
      OneJpeg(outputs[..|outputs| - 1], i);
    }
  }

  lemma {:induction false} NoJpeg(outputs: seq<Output>)
    requires forall i :: 0 <= i < |outputs| ==> outputs[i].format != JPEG
    ensures JpegCount(outputs) == 0
    decreases |outputs|
  {
    if outputs != [] {
      NoJpeg(outputs[..|outputs| - 1]);
    }
  }

  /** Two JPEG outputs, or three others, are refused whatever the modes. */
  lemma TooManyOutputs(c: Descriptor, outputs: seq<Output>, low: int, high: int, r: Option<Mode>)
    requires Selected(c, outputs, low, high, r)
    requires (exists i, j :: 0 <= i < j < |outputs| && outputs[i].format == outputs[j].format == JPEG) ||
             (|outputs| >= 3 && forall i :: 0 <= i < |outputs| ==> outputs[i].format != JPEG)
    ensures r == None
  {
    if i, j :| 0 <= i < j < |outputs| && outputs[i].format == outputs[j].format == JPEG {
      TwoJpegs(outputs, i, j);
    } else {
      NoJpeg(outputs);
    }
  }

  /** What select demands before it looks at any mode. */
  method AcceptRequest(c: Descriptor, outputs: seq<Output>, low: int, high: int) returns (ok: bool)
    ensures ok <==> Acceptable(c, outputs, low, high)
  {
    ok := Valid(c);
    if !ok || outputs == [] || |outputs| > c.maxStreams {
      return false;
    }
    if high != 0 {
      var ranges := FpsRanges(c);
      if (low, high) !in ranges {
        return false;
      }
    }
    var jpeg := 0;
    for i := 0 to |outputs|
      invariant forall j :: 0 <= j < i ==> IsAdvertised(c, outputs[j])
      invariant jpeg == JpegCount(outputs[..i])
    {
      var found := Advertised(c, outputs[i]);
      if !found {
        return false;
      }
      assert outputs[..i + 1][..i] == outputs[..i];
      if outputs[i].format == JPEG {
        jpeg := jpeg + 1;
      }
    }
    assert outputs[..|outputs|] == outputs;
    return jpeg <= 1 && |outputs| - jpeg <= 2;
  }

  method Select(c: Descriptor, outputs: seq<Output>, low: int, high: int) returns (best: Option<Mode>)
    ensures Selected(c, outputs, low, high, best)
  {
    hide Acceptable, Fits, Area;
    best := None;
    var ok := AcceptRequest(c, outputs, low, high);
    if !ok {
      return;
    }
    for i := 0 to |c.modes|
      invariant best == None ==> forall j :: 0 <= j < i ==> !Candidate(c, outputs, low, high, c.modes[j])
      invariant best.Some? ==> Candidate(c, outputs, low, high, best.value)
      invariant best.Some? ==> forall j :: 0 <= j < i && Candidate(c, outputs, low, high, c.modes[j]) ==> Before(best.value, c.modes[j])
    {
      var m := c.modes[i];
      if high != 0 && (low < 1 || low > high || high < m.minFps || low > m.maxFps) {
        continue;
      }
      var fits := FitsAll(m, outputs);
      if fits && best.Some? {
        CompareModes(c, outputs, low, high, m, best.value);
      }
      if fits && (best == None || Area(m) < Area(best.value) ||
                  (m.width == best.value.width && m.height == best.value.height && m.id < best.value.id)) {
        best := Some(m);
      }
    }
    assert forall m :: m in c.modes ==> exists j :: 0 <= j < |c.modes| && c.modes[j] == m;
  }

  /** Among candidates the source's comparison is the order by area and id. */
  lemma CompareModes(c: Descriptor, outputs: seq<Output>, low: int, high: int, m: Mode, best: Mode)
    requires Acceptable(c, outputs, low, high) && Candidate(c, outputs, low, high, m) && Candidate(c, outputs, low, high, best)
    ensures (Area(m) < Area(best) || (m.width == best.width && m.height == best.height && m.id < best.id)) ==> Before(m, best)
    ensures !(Area(m) < Area(best) || (m.width == best.width && m.height == best.height && m.id < best.id)) ==> Before(best, m)
  {
    if Area(m) == Area(best) {
      EqualAreaEqualSize(c, outputs, low, high, m, best);
    }
  }

  method FitsAll(m: Mode, outputs: seq<Output>) returns (fits: bool)
    ensures fits <==> Fits(m, outputs)
  {
    fits := true;
    for i := 0 to |outputs|
      invariant fits <==> forall j :: 0 <= j < i ==> FitsOutput(m, outputs[j])
    {
      var o := outputs[i];
      if o.format !in m.formats || o.width > m.width || o.height > m.height ||
         ((o.width != m.width || o.height != m.height) &&
          (!m.downscale || o.width * m.height != o.height * m.width)) {
        fits := false;
      }
    }
  }

  /** The result does not depend on the order the descriptor lists its modes in. */
  lemma SelectIgnoresModeOrder(c: Descriptor, c': Descriptor, outputs: seq<Output>, low: int, high: int,
                               r: Option<Mode>, r': Option<Mode>)
    requires c' == c.(modes := c'.modes) && |c'.modes| == |c.modes| && forall m :: m in c.modes <==> m in c'.modes
    requires ValidDescriptor(c) && ValidDescriptor(c')
    requires Selected(c, outputs, low, high, r) && Selected(c', outputs, low, high, r')
    ensures r == r'
  {
    SameModes(c, c', outputs, low, high);
    if Acceptable(c, outputs, low, high) && r.Some? && r'.Some? {
      assert Candidate(c', outputs, low, high, r.value) && Candidate(c, outputs, low, high, r'.value);
      assert r.value.id == r'.value.id;
    } else if Acceptable(c, outputs, low, high) {
      assert forall m :: Candidate(c, outputs, low, high, m) == Candidate(c', outputs, low, high, m);
    }
  }

  lemma SameModes(c: Descriptor, c': Descriptor, outputs: seq<Output>, low: int, high: int)
    requires c' == c.(modes := c'.modes) && forall m :: m in c.modes <==> m in c'.modes
    requires ValidDescriptor(c) && ValidDescriptor(c')
    ensures Acceptable(c, outputs, low, high) <==> Acceptable(c', outputs, low, high)
  {
    SameDefaultRange(c, c');
    MoreModesAdvertiseMore(c, c');
    MoreModesAdvertiseMore(c', c);
  }

  lemma MoreModesAdvertiseMore(c: Descriptor, c': Descriptor)
    requires DefaultRange(c) == DefaultRange(c') && forall m :: m in c.modes ==> m in c'.modes
    ensures forall o :: IsAdvertised(c, o) ==> IsAdvertised(c', o)
    ensures forall r :: Advertises(c, r) ==> Advertises(c', r)
  {
    forall o | IsAdvertised(c, o) ensures IsAdvertised(c', o) {
      var i :| 0 <= i < |c.modes| && Offers(c.modes[i], o);
      assert c.modes[i] in c'.modes;
    }
    forall r | Advertises(c, r) ensures Advertises(c', r) {
      if r != DefaultRange(c) {
        var i :| 0 <= i < |c.modes| && r in ModeRanges(c.modes[i]);
        assert c.modes[i] in c'.modes;
      }
    }
  }

  lemma {:induction false} RangeAttained(modes: seq<Mode>)
    ensures CommonLow(modes) == 1 || exists i :: 0 <= i < |modes| && modes[i].minFps == CommonLow(modes)
    ensures CommonHigh(modes) == 120 || exists i :: 0 <= i < |modes| && modes[i].maxFps == CommonHigh(modes)
    ensures GlobalLow(modes) == 120 || exists i :: 0 <= i < |modes| && modes[i].minFps == GlobalLow(modes)
    ensures GlobalHigh(modes) == 1 || exists i :: 0 <= i < |modes| && modes[i].maxFps == GlobalHigh(modes)
    ensures CommonLow(modes) >= 1 && CommonHigh(modes) <= 120 && GlobalLow(modes) <= 120 && GlobalHigh(modes) >= 1
  {
    if modes != [] {
      var last := |modes| - 1;
      RangeAttained(modes[..last]);
      assert forall i :: 0 <= i < last ==> modes[..last][i] == modes[i];
    }
  }

  lemma SameDefaultRange(c: Descriptor, c': Descriptor)
    requires forall m :: m in c.modes <==> m in c'.modes
    ensures DefaultRange(c) == DefaultRange(c')
  {
    RangeOrdered(c.modes, c'.modes);
    RangeOrdered(c'.modes, c.modes);
  }

  lemma RangeOrdered(a: seq<Mode>, b: seq<Mode>)
    requires forall m :: m in a ==> m in b
    ensures CommonLow(a) <= CommonLow(b) && CommonHigh(b) <= CommonHigh(a)
    ensures GlobalLow(b) <= GlobalLow(a) && GlobalHigh(a) <= GlobalHigh(b)
  {
    RangeAttained(a);
    RangeAttained(b);
    RangeBounds(b);
    assert forall i :: 0 <= i < |a| ==> a[i] in b;
  }

  // ---------------------------------------------------------------- completeness of rates

  /** Asking for the default range is asking for no rate. */
  lemma DefaultRangeChangesNothing(c: Descriptor, outputs: seq<Output>, r: Option<Mode>)
    requires ValidDescriptor(c)
    ensures Selected(c, outputs, DefaultRange(c).0, DefaultRange(c).1, r) <==> Selected(c, outputs, 0, 0, r)
  {
    var (low, high) := DefaultRange(c);
    DefaultRangeMeaning(c);
    assert ValidMode(c.modes[0]);
    assert Advertises(c, (low, high));
    forall m | m in c.modes ensures RateAllowed(m, low, high) {
      var i :| 0 <= i < |c.modes| && c.modes[i] == m;
      assert ValidMode(m);
    }
    assert forall m :: Candidate(c, outputs, low, high, m) == Candidate(c, outputs, 0, 0, m);
    assert Acceptable(c, outputs, low, high) == Acceptable(c, outputs, 0, 0);
  }

  /** A mode selected under a rate range runs at a rate inside that range and its own. */
  lemma NegotiatedRateFits(c: Descriptor, outputs: seq<Output>, low: int, high: int, m: Mode)
    requires high >= 1 && Selected(c, outputs, low, high, Some(m))
    ensures var fps := Min(high, m.maxFps); low <= fps <= high && m.minFps <= fps <= m.maxFps && 1 <= fps <= 120
  {
    assert ValidMode(m);
  }

  /** The output table of MetadataBuilder: each advertised format and size with its fastest
      rate, and so its minimum frame duration. */
  method BuildOutputTable(c: Descriptor) returns (table: map<Output, int>)
    requires forall i :: 0 <= i < |c.modes| ==> c.modes[i].maxFps >= 0
    ensures forall o :: o in table <==> IsAdvertised(c, o)
    ensures forall o :: o in table ==> IsFastestRate(c, o, table[o])
  {
    table := map[];
    for i := 0 to |c.modes|
      invariant forall o :: o in table <==> exists j :: 0 <= j < i && Offers(c.modes[j], o)
      invariant forall o :: o in table ==>
                  && (exists j :: 0 <= j < i && Offers(c.modes[j], o) && c.modes[j].maxFps == table[o])
                  && (forall j :: 0 <= j < i && Offers(c.modes[j], o) ==> c.modes[j].maxFps <= table[o])
    {
      table := AddMode(c, i, table);
    }
  }

  ghost predicate IsFastestRate(c: Descriptor, o: Output, fps: int) {
    (exists i :: 0 <= i < |c.modes| && Offers(c.modes[i], o) && c.modes[i].maxFps == fps) &&
    forall i :: 0 <= i < |c.modes| && Offers(c.modes[i], o) ==> c.modes[i].maxFps <= fps
  }

  /** The inner loop over one mode's formats. */
  method AddMode(c: Descriptor, at: nat, before: map<Output, int>) returns (table: map<Output, int>)
    requires at < |c.modes| && c.modes[at].maxFps >= 0
    ensures forall o :: o in table <==> o in before || Offers(c.modes[at], o)
    ensures forall o :: o in before && !Offers(c.modes[at], o) ==> table[o] == before[o]
    ensures forall o :: Offers(c.modes[at], o) ==>
              table[o] == if o in before then Max(before[o], c.modes[at].maxFps) else c.modes[at].maxFps
  {
    var m := c.modes[at];
    table := before;
    for k := 0 to |m.formats|
      invariant forall o :: o in table <==> o in before || (Offers(m, o) && o.format in m.formats[..k])
      invariant forall o :: o in before && !(Offers(m, o) && o.format in m.formats[..k]) ==> table[o] == before[o]
      invariant forall o :: Offers(m, o) && o.format in m.formats[..k] ==>
                  table[o] == if o in before then Max(before[o], m.maxFps) else m.maxFps
    {
      var key := Output(m.formats[k], m.width, m.height);
      var sofar := if key in table then table[key] else 0;
      table := table[key := Max(sofar, m.maxFps)];
      assert m.formats[..k + 1] == m.formats[..k] + [m.formats[k]];
    }
    assert m.formats[..|m.formats|] == m.formats;
  }

  /** Every advertised output can be had alone, at its advertised fastest rate. */
  lemma FastestRateIsSelectable(c: Descriptor, o: Output, fps: int, r: Option<Mode>)
    requires ValidDescriptor(c) && IsFastestRate(c, o, fps) && Selected(c, [o], fps, fps, r)
    ensures r.Some? && r.value.minFps <= fps <= r.value.maxFps && FitsOutput(r.value, o)
  {
    var i :| 0 <= i < |c.modes| && Offers(c.modes[i], o) && c.modes[i].maxFps == fps;
    var m := c.modes[i];
    assert ValidMode(m) && IsAdvertised(c, o) && (fps, fps) in ModeRanges(m);
    assert JpegCount([o]) == if o.format == JPEG then 1 else 0;
    assert Acceptable(c, [o], fps, fps);
    assert Candidate(c, [o], fps, fps, m);
    if r.Some? {
      assert ValidMode(r.value);
      assert FitsOutput(r.value, [o][0]);
    }
  }

  datatype StreamDesc = StreamDesc(format: int, width: int, height: int, useCase: int, input: bool, rotation: int)

  ghost predicate Supported(c: Descriptor, streams: seq<StreamDesc>) {
    && (forall i :: 0 <= i < |streams| ==> !streams[i].input && streams[i].useCase == 0 && streams[i].rotation == 0)
    && Acceptable(c, OutputsOf(streams), 0, 0)
    && exists m :: Candidate(c, OutputsOf(streams), 0, 0, m)
  }

  /** isStreamCombinationSupported: plain output streams that one mode can feed together. */
  method IsStreamCombinationSupported(c: Descriptor, streams: seq<StreamDesc>) returns (ok: bool)
    ensures ok == Supported(c, streams)
  {
    var outputs: seq<Output> := [];
    for i := 0 to |streams|
      invariant outputs == OutputsOf(streams[..i])
      invariant forall j :: 0 <= j < i ==> !streams[j].input && streams[j].useCase == 0 && streams[j].rotation == 0
    {
      var s := streams[i];
      if s.input || s.useCase != 0 || s.rotation != 0 {
        return false;
      }
      assert streams[..i + 1][..i] == streams[..i];
      outputs := outputs + [Output(s.format, s.width, s.height)];
    }
    assert streams[..|streams|] == streams;
    var best := Select(c, outputs, 0, 0);
    return best.Some?;
  }

  function OutputsOf(streams: seq<StreamDesc>): seq<Output> {
    if streams == [] then []
    else var s := streams[|streams| - 1]; OutputsOf(streams[..|streams| - 1]) + [Output(s.format, s.width, s.height)]
  }

  lemma {:induction false} OutputsInOrder(streams: seq<StreamDesc>)
    ensures |OutputsOf(streams)| == |streams|
    ensures forall i :: 0 <= i < |streams| ==> OutputsOf(streams)[i] == Output(streams[i].format, streams[i].width, streams[i].height)
    decreases |streams|
  {
    if streams != [] {
      OutputsInOrder(streams[..|streams| - 1]);
    }
  }
}
