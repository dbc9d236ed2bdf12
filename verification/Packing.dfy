/** A producer's descriptor on its way to the HAL: validated and packed into an int array in
    Java (service/ProducerCapabilities.java), unpacked again by nativeRegisterProducer
    (platform-jni/VirtualCameraRelayJni.cpp:398-415). */
module Packing {
  import opened Wrappers
  import opened Capabilities

  const MAX_PACKED: nat := 400

  /** A ProducerMode parcel; its format array may be null. */
  datatype SuppliedMode = SuppliedMode(id: int, width: int, height: int, minFps: int, maxFps: int,
                                       formats: Option<seq<int>>, downscale: bool)

  /** A VirtualCameraConfig parcel; arrays, and entries of `modes`, may be null. */
  datatype Config = Config(supportedFormats: Option<seq<int>>, modes: Option<seq<Option<SuppliedMode>>>,
                           maxWidth: int, maxHeight: int, maxFps: int, supportsJpeg: bool,
                           facing: int, orientation: int, maxOutputStreams: int)

  // ---------------------------------------------------------------- normalize

  function LegacyMode(c: Config): SuppliedMode {
    SuppliedMode(1, c.maxWidth, c.maxHeight, c.maxFps, c.maxFps,
                 Some(if c.supportsJpeg then [1, 34, 35, 33] else [1, 34, 35]), false)
  }

  predicate RgbaOnly(formats: seq<int>) {
    |formats| == 1 && formats[0] == 1
  }

  /** A source without modes is one mode of its maximum size and rate. */
  function WithModes(c: Config): Config {
    if c.modes.None? || c.modes.value == [] then c.(modes := Some([Some(LegacyMode(c))])) else c
  }

  predicate ModeAccepted(m: Option<SuppliedMode>, supportsJpeg: bool) {
    m.Some? && m.value.formats.Some? && ValidMode(ToMode(m.value)) &&
    (supportsJpeg || JPEG !in m.value.formats.value)
  }

  function ToMode(m: SuppliedMode): Mode {
    Mode(m.id, m.width, m.height, m.minFps, m.maxFps, if m.formats.Some? then m.formats.value else [], m.downscale)
  }

  ghost predicate Accepted(c: Config) {
    && (c.supportedFormats.Some? ==> RgbaOnly(c.supportedFormats.value))
    && (c.modes.None? || c.modes.value == [] ==> c.supportedFormats.Some?)
    && var modes := WithModes(c).modes.value;
    && |modes| <= 32 && 0 <= c.facing <= 2 && 1 <= c.maxOutputStreams <= 3
    && (c.orientation == 0 || c.orientation == 90 || c.orientation == 180 || c.orientation == 270)
    && (forall i :: 0 <= i < |modes| ==> ModeAccepted(modes[i], c.supportsJpeg))
    && (forall i, j :: 0 <= i < j < |modes| ==> modes[i].value.id != modes[j].value.id)
  }

  /** None stands for the IllegalArgumentException. */
  method Normalize(supplied: Config) returns (r: Option<Config>)
    ensures r.Some? <==> Accepted(supplied)
    ensures r.Some? ==> r.value == WithModes(supplied)
  {
    var c := supplied;
    if c.supportedFormats.Some? && (|c.supportedFormats.value| != 1 || c.supportedFormats.value[0] != 1) {
      return None;
    }
    if c.modes.None? || |c.modes.value| == 0 {
      if c.supportedFormats.None? || |c.supportedFormats.value| != 1 || c.supportedFormats.value[0] != 1 {
        return None;
      }
      c := c.(modes := Some([Some(LegacyMode(c))]));
    }
    var modes := c.modes.value;
    if |modes| > 32 || c.facing < 0 || c.facing > 2 ||
       (c.orientation != 0 && c.orientation != 90 && c.orientation != 180 && c.orientation != 270) ||
       c.maxOutputStreams < 1 || c.maxOutputStreams > 3 {
      return None;
    }
    var ids: set<int> := {};
    for i := 0 to |modes|
      invariant forall j :: 0 <= j < i ==> ModeAccepted(modes[j], c.supportsJpeg)
      invariant ids == set j | 0 <= j < i :: modes[j].value.id
      invariant forall j, k :: 0 <= j < k < i ==> modes[j].value.id != modes[k].value.id
    {
      var ok := CheckMode(modes[i], c.supportsJpeg);
      if !ok {
        return None;
      }
      if modes[i].value.id in ids {
        assert exists j :: 0 <= j < i && modes[j].value.id == modes[i].value.id;
        return None;
      }
      ids := ids + {modes[i].value.id};
    }
    return Some(c);
  }

  method CheckMode(mode: Option<SuppliedMode>, supportsJpeg: bool) returns (ok: bool)
    ensures ok <==> ModeAccepted(mode, supportsJpeg)
  {
    if mode.None? {
      return false;
    }
    var m := mode.value;
    if m.id <= 0 || m.width < 16 || m.height < 16 || m.width > 8192 || m.height > 8192 || m.width % 2 != 0 ||
       m.height % 2 != 0 || m.width * m.height > 3840 * 2160 || m.minFps < 1 || m.maxFps < m.minFps || m.maxFps > 120 ||
       m.formats.None? || |m.formats.value| < 1 || |m.formats.value| > 4 {
      return false;
    }
    ok := ConversionsSupported(m.formats.value, supportsJpeg);
  }

  method ConversionsSupported(formats: seq<int>, supportsJpeg: bool) returns (ok: bool)
    ensures ok <==> Unrepeated(formats) && (forall i :: 0 <= i < |formats| ==> KnownFormat(formats[i])) &&
                    (supportsJpeg || JPEG !in formats)
  {
    var seen: set<int> := {};
    for i := 0 to |formats|
      invariant seen == set j | 0 <= j < i :: formats[j]
      invariant forall j :: 0 <= j < i ==> KnownFormat(formats[j]) && (supportsJpeg || formats[j] != JPEG)
      invariant forall j, k :: 0 <= j < k < i ==> formats[j] != formats[k]
    {
      var f := formats[i];
      if (f != 1 && f != 34 && f != 35 && f != 33) || f in seen || (f == 33 && !supportsJpeg) {
        assert f in seen ==> exists j :: 0 <= j < i && formats[j] == f;
        return false;
      }
      seen := seen + {f};
    }
    return true;
  }

  lemma NormalizeIsIdempotent(c: Config)
    requires Accepted(c)
    ensures Accepted(WithModes(c)) && WithModes(WithModes(c)) == WithModes(c)
  {
  }

  /** What the HAL is told about an accepted configuration. */
  ghost function DescriptorOf(c: Config, registration: int): Descriptor
    requires Accepted(c)
  {
    var modes := WithModes(c).modes.value;
    Descriptor(registration, c.facing, c.orientation, c.maxOutputStreams,
               seq(|modes|, i requires 0 <= i < |modes| => ToMode(modes[i].value)))
  }

  /** Whatever Java accepts the HAL accepts too, under any positive registration. */
  lemma AcceptedIsValid(c: Config, registration: int)
    requires Accepted(c) && registration > 0
    ensures ValidDescriptor(DescriptorOf(c, registration))
  {
    var d, modes := DescriptorOf(c, registration), WithModes(c).modes.value;
    forall i | 0 <= i < |d.modes| ensures ValidMode(d.modes[i]) {
      assert ModeAccepted(modes[i], c.supportsJpeg);
    }
    forall i, j | 0 <= i < j < |d.modes| ensures d.modes[i].id != d.modes[j].id {
      assert modes[i].value.id != modes[j].value.id;
    }
  }

  /** A source that lists no modes can be had at its maximum size and rate, in every format it
      converts to, and at no other size or rate. */
  lemma LegacySourceIsUsable(c: Config, registration: int, format: int, r: Option<Mode>)
    requires Accepted(c) && registration > 0 && (c.modes.None? || c.modes.value == [])
    requires format == 1 || format == 34 || format == 35 || (format == 33 && c.supportsJpeg)
    requires Selected(DescriptorOf(c, registration), [Output(format, c.maxWidth, c.maxHeight)], c.maxFps, c.maxFps, r)
    ensures r.Some? && r.value.width == c.maxWidth && r.value.height == c.maxHeight && r.value.minFps == r.value.maxFps == c.maxFps
  {
    var d, o := DescriptorOf(c, registration), Output(format, c.maxWidth, c.maxHeight);
    AcceptedIsValid(c, registration);
    assert WithModes(c).modes.value[0] == Some(LegacyMode(c));
    assert d.modes == [ToMode(LegacyMode(c))];
    assert Offers(d.modes[0], o);
    assert (c.maxFps, c.maxFps) in ModeRanges(d.modes[0]);
    assert JpegCount([o]) == if format == JPEG then 1 else 0;
    assert Acceptable(d, [o], c.maxFps, c.maxFps);
    assert Candidate(d, [o], c.maxFps, c.maxFps, d.modes[0]);
  }

  lemma LegacySourceIsNoMore(c: Config, registration: int, o: Output)
    requires Accepted(c) && (c.modes.None? || c.modes.value == [])
    ensures IsAdvertised(DescriptorOf(c, registration), o) ==>
              o.width == c.maxWidth && o.height == c.maxHeight && (o.format == JPEG ==> c.supportsJpeg)
    ensures |DescriptorOf(c, registration).modes| == 1 && !DescriptorOf(c, registration).modes[0].downscale
  {
    assert WithModes(c).modes.value[0] == Some(LegacyMode(c));
  }

  /** No source advertises JPEG unless it supports it. */
  lemma JpegNeedsSupport(c: Config, registration: int, o: Output)
    requires Accepted(c) && IsAdvertised(DescriptorOf(c, registration), o) && o.format == JPEG
    ensures c.supportsJpeg
  {
    var d, modes := DescriptorOf(c, registration), WithModes(c).modes.value;
    var i :| 0 <= i < |d.modes| && Offers(d.modes[i], o);
    assert ModeAccepted(modes[i], c.supportsJpeg);
  }

  /** A source that lists modes is described by exactly those, in order. */
  lemma ListedModesAreKept(c: Config, registration: int, i: nat)
    requires Accepted(c) && c.modes.Some? && i < |c.modes.value|
    ensures var d := DescriptorOf(c, registration); var m := c.modes.value[i];
            && |d.modes| == |c.modes.value| && m.Some? && m.value.formats.Some?
            && d.modes[i] == Mode(m.value.id, m.value.width, m.value.height, m.value.minFps, m.value.maxFps, m.value.formats.value, m.value.downscale)
            && d.facing == c.facing && d.orientation == c.orientation && d.maxStreams == c.maxOutputStreams && d.registration == registration
  {
    assert ModeAccepted(WithModes(c).modes.value[i], c.supportsJpeg);
  }

  // ---------------------------------------------------------------- pack

  function PackMode(m: Mode): seq<int> {
    [m.id, m.width, m.height, m.minFps, m.maxFps, if m.downscale then 1 else 0, |m.formats|] + m.formats
  }

  function PackModes(modes: seq<Mode>): seq<int> {
    if modes == [] then [] else PackMode(modes[0]) + PackModes(modes[1..])
  }

  function Packed(d: Descriptor): seq<int> {
    [d.facing, d.orientation, d.maxStreams, |d.modes|] + PackModes(d.modes)
  }

  lemma PackStep(before: seq<int>, modes: seq<Mode>, i: nat)
    requires i < |modes|
    ensures before + PackModes(modes[i..]) == before + PackMode(modes[i]) + PackModes(modes[i + 1..])
  {
    assert modes[i..][1..] == modes[i + 1..];
    var m, rest := PackMode(modes[i]), PackModes(modes[i + 1..]);
    assert before + (m + rest) == before + m + rest;
  }

  method AppendAll(v: seq<int>, numbers: seq<int>) returns (r: seq<int>)
    ensures r == v + numbers
  {
    r := v;
    for j := 0 to |numbers|
      invariant r == v + numbers[..j]
    {
      r := r + [numbers[j]];
    }
  }

  method Pack(d: Descriptor) returns (v: seq<int>)
    ensures v == Packed(d)
  {
    v := AppendAll([], [d.facing, d.orientation, d.maxStreams, |d.modes|]);
    for i := 0 to |d.modes|
      invariant v + PackModes(d.modes[i..]) == Packed(d)
    {
      PackStep(v, d.modes, i);
      v := AppendNumbers(v, d.modes[i]);
    }
    assert v + [] == v;
  }

  method AppendNumbers(v: seq<int>, m: Mode) returns (r: seq<int>)
    ensures r == v + PackMode(m)
  {
    var numbers := [m.id, m.width, m.height, m.minFps, m.maxFps, if m.downscale then 1 else 0, |m.formats|];
    r := AppendAll(v, numbers);
    r := AppendAll(r, m.formats);
    assert v + numbers + m.formats == v + (numbers + m.formats);
  }

  function ModeStart(modes: seq<Mode>, i: nat): nat
    requires i <= |modes|
  {
    if i == 0 then 4 else ModeStart(modes, i - 1) + 7 + |modes[i - 1].formats|
  }

  lemma {:induction false} PackedPrefix(d: Descriptor, i: nat)
    requires i <= |d.modes|
    ensures ModeStart(d.modes, i) <= |Packed(d)| && Packed(d)[ModeStart(d.modes, i)..] == PackModes(d.modes[i..])
  {
    if i == 0 {
      assert d.modes[0..] == d.modes;
    } else {
      PackedPrefix(d, i - 1);
      var at := ModeStart(d.modes, i - 1);
      assert d.modes[i - 1..][1..] == d.modes[i..];
      assert Packed(d)[at..] == PackMode(d.modes[i - 1]) + PackModes(d.modes[i..]);
      assert Packed(d)[at..][7 + |d.modes[i - 1].formats|..] == PackModes(d.modes[i..]);
    }
  }

  /** Where each number of the descriptor stands in the array. */
  lemma PackedLayout(d: Descriptor, i: nat)
    requires i < |d.modes|
    ensures var v, m, at := Packed(d), d.modes[i], ModeStart(d.modes, i);
            && |v| >= 4 && v[..4] == [d.facing, d.orientation, d.maxStreams, |d.modes|] && at + 7 + |m.formats| <= |v|
            && v[at..at + 7] == [m.id, m.width, m.height, m.minFps, m.maxFps, if m.downscale then 1 else 0, |m.formats|]
            && v[at + 7..at + 7 + |m.formats|] == m.formats
  {
    hide ModeStart;
    PackedPrefix(d, i);
    HeaderFirst(d);
    assert d.modes[i..][0] == d.modes[i];
    ModeFirst(Packed(d), ModeStart(d.modes, i), d.modes[i], PackModes(d.modes[i..][1..]));
  }

  lemma HeaderFirst(d: Descriptor)
    ensures |Packed(d)| >= 4 && Packed(d)[..4] == [d.facing, d.orientation, d.maxStreams, |d.modes|]
  {
    hide PackModes;
  }

  lemma ModeFirst(v: seq<int>, at: nat, m: Mode, rest: seq<int>)
    requires at <= |v| && v[at..] == PackMode(m) + rest
    ensures at + 7 + |m.formats| <= |v|
    ensures v[at..at + 7] == [m.id, m.width, m.height, m.minFps, m.maxFps, if m.downscale then 1 else 0, |m.formats|]
    ensures v[at + 7..at + 7 + |m.formats|] == m.formats
  {
    var tail := v[at..];
    assert v[at..at + 7] == tail[..7];
    assert v[at + 7..at + 7 + |m.formats|] == tail[7..7 + |m.formats|];
  }

  // ---------------------------------------------------------------- unpack

  function ParseMode(v: seq<int>): Option<(Mode, seq<int>)> {
    if |v| < 7 then None
    else if v[6] < 1 || v[6] > 4 || 7 + v[6] > |v| then None
    else Some((Mode(v[0], v[1], v[2], v[3], v[4], v[7..7 + v[6]], v[5] != 0), v[7 + v[6]..]))
  }

  function ParseModes(v: seq<int>, n: nat): Option<(seq<Mode>, seq<int>)> {
    if n == 0 then Some(([], v))
    else match ParseMode(v)
      case None => None
      case Some((m, rest)) =>
        match ParseModes(rest, n - 1)
        case None => None
        case Some((modes, tail)) => Some(([m] + modes, tail))
  }

  function Unpacked(registration: int, v: seq<int>): Option<Descriptor> {
    if |v| < 4 || |v| > MAX_PACKED || v[3] < 1 || v[3] > 32 then None
    else match ParseModes(v[4..], v[3])
      case None => None
      case Some((modes, rest)) => if rest == [] then Some(Descriptor(registration, v[0], v[1], v[2], modes)) else None
  }

  function Prepend(modes: seq<Mode>, parsed: Option<(seq<Mode>, seq<int>)>): Option<(seq<Mode>, seq<int>)> {
    if parsed.Some? then Some((modes + parsed.value.0, parsed.value.1)) else None
  }

  method Unpack(registration: int, v: seq<int>) returns (r: Option<Descriptor>)
    ensures r == Unpacked(registration, v)
  {
    if |v| < 4 || |v| > MAX_PACKED {
      return None;
    }
    if v[3] < 1 || v[3] > 32 {
      return None;
    }
    var modes: seq<Mode> := [];
    var at := 4;
    PrependNothing(ParseModes(v[4..], v[3]));
    for i := 0 to v[3]
      invariant 4 <= at <= |v|
      invariant ParseModes(v[4..], v[3]) == Prepend(modes, ParseModes(v[at..], v[3] - i))
    {
      var one := UnpackMode(v, at);
      if one.None? {
        return None;
      }
      PrependStep(modes, one.value.0, v[at..], v[one.value.1..], v[3] - i);
      modes, at := modes + [one.value.0], one.value.1;
    }
    if at != |v| {
      return None;
    }
    assert modes + [] == modes;
    assert v[at..] == [];
    return Some(Descriptor(registration, v[0], v[1], v[2], modes));
  }

  /** One mode read from position `start`, with the position behind it. */
  method UnpackMode(v: seq<int>, start: nat) returns (r: Option<(Mode, nat)>)
    requires start <= |v|
    ensures r.None? ==> ParseMode(v[start..]).None?
    ensures r.Some? ==> start < r.value.1 <= |v|
    ensures r.Some? ==> ParseMode(v[start..]) == Some((r.value.0, v[r.value.1..]))
  {
    var at := start;
    if at + 7 > |v| {
      return None;
    }
    var n := v[at + 6];
    var formats: seq<int> := [];
    var m := Mode(v[at], v[at + 1], v[at + 2], v[at + 3], v[at + 4], [], v[at + 5] != 0);
    at := at + 7;
    if n < 1 || n > 4 || at + n > |v| {
      return None;
    }
    for j := 0 to n
      invariant at == start + 7 + j && formats == v[start + 7..at]
    {
      formats := formats + [v[at]];
      at := at + 1;
    }
    assert v[start..][7..7 + n] == v[start + 7..at];
    assert v[start..][7 + n..] == v[at..];
    return Some((m.(formats := formats), at));
  }

  lemma PrependNothing(parsed: Option<(seq<Mode>, seq<int>)>)
    ensures Prepend([], parsed) == parsed
  {
    if parsed.Some? {
      assert [] + parsed.value.0 == parsed.value.0;
    }
  }

  lemma PrependStep(modes: seq<Mode>, m: Mode, v: seq<int>, rest: seq<int>, n: nat)
    requires n > 0 && ParseMode(v) == Some((m, rest))
    ensures Prepend(modes, ParseModes(v, n)) == Prepend(modes + [m], ParseModes(rest, n - 1))
  {
    var tail := ParseModes(rest, n - 1);
    if tail.Some? {
      assert modes + ([m] + tail.value.0) == modes + [m] + tail.value.0;
    }
  }

  // ---------------------------------------------------------------- round trips

  lemma ParsePackedMode(m: Mode, rest: seq<int>)
    requires 1 <= |m.formats| <= 4
    ensures ParseMode(PackMode(m) + rest) == Some((m, rest))
  {
    var v := PackMode(m) + rest;
    assert v[7..7 + |m.formats|] == m.formats;
    assert v[7 + |m.formats|..] == rest;
  }

  lemma {:induction false} ParsePackedModes(modes: seq<Mode>, tail: seq<int>)
    requires forall i :: 0 <= i < |modes| ==> 1 <= |modes[i].formats| <= 4
    ensures ParseModes(PackModes(modes) + tail, |modes|) == Some((modes, tail))
    ensures |PackModes(modes)| <= 11 * |modes|
  {
    if modes != [] {
      var first, rest := PackMode(modes[0]), PackModes(modes[1..]);
      ParsePackedModes(modes[1..], tail);
      assert first + rest + tail == first + (rest + tail);
      ParsePackedMode(modes[0], rest + tail);
      assert [modes[0]] + modes[1..] == modes;
    } else {
      assert PackModes(modes) + tail == tail;
    }
  }

  /** The HAL receives exactly the descriptor Java packed, and it always fits the limit. */
  lemma UnpackPacked(d: Descriptor)
    requires ValidDescriptor(d)
    ensures Unpacked(d.registration, Packed(d)) == Some(d) && |Packed(d)| <= 356 <= MAX_PACKED
  {
    forall i | 0 <= i < |d.modes| ensures 1 <= |d.modes[i].formats| <= 4 {
      assert ValidMode(d.modes[i]);
    }
    ParsePackedModes(d.modes, []);
    assert Packed(d)[4..] == PackModes(d.modes) + [];
  }

  /** An accepted Java configuration reaches the HAL unchanged and is accepted there. */
  lemma ConfigurationArrives(c: Config, registration: int)
    requires Accepted(c) && registration > 0
    ensures var d := DescriptorOf(c, registration);
            Unpacked(registration, Packed(d)) == Some(d) && ValidDescriptor(d) && |Packed(d)| <= MAX_PACKED
  {
    AcceptedIsValid(c, registration);
    UnpackPacked(DescriptorOf(c, registration));
  }

  /** The same numbers with every downscale flag written as 0 or 1. */
  function Canonical(v: seq<int>, n: nat): seq<int> {
    if n == 0 || ParseMode(v).None? then v
    else v[..5] + [if v[5] != 0 then 1 else 0] + v[6..7 + v[6]] + Canonical(v[7 + v[6]..], n - 1)
  }

  lemma {:induction false} PackParsedModes(v: seq<int>, n: nat)
    requires ParseModes(v, n).Some?
    ensures PackModes(ParseModes(v, n).value.0) + ParseModes(v, n).value.1 == Canonical(v, n)
    ensures |ParseModes(v, n).value.0| == n
  {
    if n > 0 {
      var (m, rest) := ParseMode(v).value;
      PackParsedModes(rest, n - 1);
      var (modes, tail) := ParseModes(rest, n - 1).value;
      assert ([m] + modes)[1..] == modes;
      assert PackMode(m) == v[..5] + [if v[5] != 0 then 1 else 0] + v[6..7 + v[6]];
      assert PackModes([m] + modes) + tail == PackMode(m) + (PackModes(modes) + tail);
    } else {
      assert [] + v == v;
    }
  }

  /** Every array the HAL side accepts packs back to itself, up to the downscale flags. */
  lemma PackUnpacked(registration: int, v: seq<int>)
    requires Unpacked(registration, v).Some?
    ensures Packed(Unpacked(registration, v).value) == v[..4] + Canonical(v[4..], v[3])
  {
    PackParsedModes(v[4..], v[3]);
    var d := Unpacked(registration, v).value;
    assert PackModes(d.modes) + [] == PackModes(d.modes);
  }
}
