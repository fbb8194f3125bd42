/** Colour-gradient lookup for the heat map: hex parsing into channels, the
    choice of gradient segment and interpolation factor among n colour stops,
    and the degenerate cases of zero and one stop.

    The perceptual colour space (conversion to and from Oklab, and mixing in
    it) belongs to a colour library; it is passed in as a ColorSpace of three
    functions, so results hold for any such library unless a lemma's requires
    clause asks for a property of it. */
module Color {

  /** Colour with real channels, nominally in [0, 1]. */
  datatype Srgb = Srgb(red: real, green: real, blue: real)

  /** Displayable colour with byte channels (alpha is always opaque). */
  datatype Color32 = Color32(r: int, g: int, b: int)

  /** A point of the perceptual colour space. */
  datatype Oklab = Oklab(l: real, a: real, b: real)

  /** The colour library's conversions and its mix(from, to, t). */
  datatype ColorSpace = ColorSpace(
    toOklab: Srgb -> Oklab,
    toSrgb: Oklab -> Srgb,
    mix: (Oklab, Oklab, real) -> Oklab)

  const Black: Color32 := Color32(0, 0, 0)

  /** The heat-map palette: black, blue, cyan, green, yellow, red, white. */
  const HeatmapColors: seq<int> := [0x000000, 0x0000FF, 0x00FFFF, 0x00FF00, 0xFFFF00, 0xFF0000, 0xFFFFFF]

  // ---------------------------------------------------------------------------
  // Hex parsing

  /** An unsigned 32-bit value. */
  type U32 = x: int | 0 <= x < 0x1_0000_0000

  /** `hex >> shift` for the three byte offsets used: a division by 2^shift. */
  function ShiftRight(hex: U32, shift: nat): (shifted: nat)
    requires shift == 0 || shift == 8 || shift == 16
  {
    if shift == 16 then hex / 0x1_0000 else if shift == 8 then hex / 0x100 else hex
  }

  /** The byte of `hex` starting at bit `shift`: (hex >> shift) & 0xFF. */
  function HexChannel(hex: U32, shift: nat): (c: int)
    requires shift == 0 || shift == 8 || shift == 16
    ensures 0 <= c <= 255
  {
    ShiftRight(hex, shift) % 0x100
  }

  /** Reinterprets a signed 32-bit value as unsigned (`as u32`): two's
      complement, so a negative value wraps to value + 2^32. */
  function AsU32(x: int): U32
  {
    x % 0x1_0000_0000
  }

  /** Red from bits 16..23, green from 8..15, blue from 0..7, each scaled by 1/255. */
  function ParseHexSrgb(hex: U32): (color: Srgb)
    ensures 0.0 <= color.red <= 1.0 && 0.0 <= color.green <= 1.0 && 0.0 <= color.blue <= 1.0
  {
    Srgb(HexChannel(hex, 16) as real / 255.0,
         HexChannel(hex, 8) as real / 255.0,
         HexChannel(hex, 0) as real / 255.0)
  }

  /** A float-to-byte cast: saturating at 0 and 255, truncating in between. */
  function SaturatingU8(x: real): (b: int)
    ensures 0 <= b <= 255
  {
    if x <= 0.0 then 0 else if x >= 255.0 then 255 else x.Floor
  }

  /** An Srgb colour as bytes: each channel times 255, cast to a byte. */
  function ToColor32(rgb: Srgb): (color: Color32)
    ensures 0 <= color.r <= 255 && 0 <= color.g <= 255 && 0 <= color.b <= 255
  {
    Color32(SaturatingU8(rgb.red * 255.0), SaturatingU8(rgb.green * 255.0), SaturatingU8(rgb.blue * 255.0))
  }

  /** The byte-colour parse goes through the same scaled channels and back,
      which returns exactly the hex channels. */
  function ParseHexColor32(hex: U32): (color: Color32)
    ensures color == Color32(HexChannel(hex, 16), HexChannel(hex, 8), HexChannel(hex, 0))
  {
    ScaledChannelRoundTrip(HexChannel(hex, 16));
    ScaledChannelRoundTrip(HexChannel(hex, 8));
    ScaledChannelRoundTrip(HexChannel(hex, 0));
    ToColor32(ParseHexSrgb(hex))
  }

  /** Packs three bytes into 0xRRGGBB. */
  function PackHex(r: int, g: int, b: int): U32
    requires 0 <= r <= 255 && 0 <= g <= 255 && 0 <= b <= 255
  {
    r * 0x1_0000 + g * 0x100 + b
  }

  /** Channel extraction inverts packing: 0xRRGGBB splits back into RR, GG, BB. */
  lemma ChannelsOfPackedHex(r: int, g: int, b: int)
    requires 0 <= r <= 255 && 0 <= g <= 255 && 0 <= b <= 255
    ensures HexChannel(PackHex(r, g, b), 16) == r
    ensures HexChannel(PackHex(r, g, b), 8) == g
    ensures HexChannel(PackHex(r, g, b), 0) == b
  {
    var hex := PackHex(r, g, b);
    var low := g * 0x100 + b;
    assert 0 <= low < 0x1_0000;
    assert hex / 0x1_0000 == r;
    assert hex / 0x100 == r * 0x100 + g;
  }

  /** Both parsers agree: the real colour holds the hex channels divided by
      255, and the byte colour holds that colour's channels times 255. */
  lemma ParseHexImplsAgree(hex: U32)
    ensures ParseHexSrgb(hex).red * 255.0 == ParseHexColor32(hex).r as real
    ensures ParseHexSrgb(hex).green * 255.0 == ParseHexColor32(hex).g as real
    ensures ParseHexSrgb(hex).blue * 255.0 == ParseHexColor32(hex).b as real
  {
    ScaledChannelRoundTrip(HexChannel(hex, 16));
    ScaledChannelRoundTrip(HexChannel(hex, 8));
    ScaledChannelRoundTrip(HexChannel(hex, 0));
  }

  lemma ScaledChannelRoundTrip(c: int)
    requires 0 <= c <= 255
    ensures SaturatingU8((c as real / 255.0) * 255.0) == c
  {
    assert (c as real / 255.0) * 255.0 == c as real;
  }

  // ---------------------------------------------------------------------------
  // Gradient lookup

  function Clamp01(x: real): real
  {
    if x < 0.0 then 0.0 else if x > 1.0 then 1.0 else x
  }

  /** Which pair of stops a heat falls between, and how far along. */
  datatype Segment = Segment(lower: nat, t: real)

  /** For n >= 2 stops: the segment index floor(heat * (n - 1)) capped at
      n - 2, and the position t inside that segment. */
  function LocateSegment(heat: real, numStops: nat): (seg: Segment)
    requires numStops >= 2 && 0.0 <= heat <= 1.0
    ensures seg.lower + 1 <= numStops - 1
    ensures 0.0 <= seg.t <= 1.0
  {
    var segmentSize := 1.0 / (numStops - 1) as real;
    var segment := (heat / segmentSize).Floor;
    var lowerIdx := if segment < numStops - 2 then segment else numStops - 2;
    var segmentStart := lowerIdx as real * segmentSize;
    var t := Clamp01((heat - segmentStart) / segmentSize);
    Segment(lowerIdx, t)
  }

  /** The stops of a palette, converted to the perceptual space. */
  function ColorStops(hexColors: seq<int>, space: ColorSpace): (stops: seq<Oklab>)
    ensures |stops| == |hexColors|
  {
    seq(|hexColors|, i requires 0 <= i < |hexColors| =>
      space.toOklab(ParseHexSrgb(AsU32(hexColors[i]))))
  }

  /** Maps a normalised heat to a colour among the stops in `hexColors`;
      every channel is a byte whatever the colour library returns. */
  function HeatToColor(normalizedHeat: real, hexColors: seq<int>, space: ColorSpace): (color: Color32)
    ensures 0 <= color.r <= 255 && 0 <= color.g <= 255 && 0 <= color.b <= 255
  {
    var heat := Clamp01(normalizedHeat);
    var colorStops := ColorStops(hexColors, space);
    var numStops := |colorStops|;
    if numStops == 0 then Black
    else if numStops == 1 then ToColor32(space.toSrgb(colorStops[0]))
    else
      var seg := LocateSegment(heat, numStops);
      var oklab := space.mix(colorStops[seg.lower], colorStops[seg.lower + 1], seg.t);
      ToColor32(space.toSrgb(oklab))
  }

  // ---------------------------------------------------------------------------
  // Properties of the segment choice

  /** Dividing by the segment size 1/(n - 1) is multiplying by n - 1. */
  lemma SegmentScale(heat: real, lower: real, count: real)
    requires count > 0.0
    ensures heat / (1.0 / count) == heat * count
    ensures (heat - lower * (1.0 / count)) / (1.0 / count) == heat * count - lower
  {
    var size := 1.0 / count;
    assert size * count == 1.0;
    var d := heat - lower * size;
    assert (heat * count - lower) * size == heat * (count * size) - lower * size;
    assert (heat * count - lower) * size == d;
  }

  /** The interpolation factor is never clamped: the segment index plus the
      factor is exactly heat * (n - 1), the heat's position in units of
      segments. Together with the bounds in LocateSegment's contract, this
      determines the segment. */
  lemma SegmentReconstructsHeat(heat: real, numStops: nat)
    requires numStops >= 2 && 0.0 <= heat <= 1.0
    ensures LocateSegment(heat, numStops).lower as real + LocateSegment(heat, numStops).t
            == heat * (numStops - 1) as real
  {
    var count := (numStops - 1) as real;
    var x := heat * count;
    var lowerIdx := LocateSegment(heat, numStops).lower;
    SegmentScale(heat, lowerIdx as real, count);
    MulMonotone(heat, 1.0, count);
    assert x <= count;
    var f := x.Floor;
    assert f as real <= x < f as real + 1.0;
    assert 0.0 <= x - lowerIdx as real <= 1.0;
  }

  /** Heat exactly at stop k (k / (n - 1)) selects that stop with no blend
      from its neighbour: factor 0 into the following segment, or factor 1 at
      the last stop. */
  lemma SegmentAtStop(k: nat, numStops: nat)
    requires numStops >= 2 && k < numStops
    ensures 0.0 <= k as real / (numStops - 1) as real <= 1.0
    ensures k < numStops - 1 ==> LocateSegment(k as real / (numStops - 1) as real, numStops) == Segment(k, 0.0)
    ensures k == numStops - 1 ==> LocateSegment(k as real / (numStops - 1) as real, numStops) == Segment(k - 1, 1.0)
  {
    var count := (numStops - 1) as real;
    var heat := k as real / count;
    assert heat * count == k as real;
    assert heat <= 1.0 by {
      if heat > 1.0 {
        MulStrictlyMonotone(1.0, heat, count);
      }
    }
    SegmentReconstructsHeat(heat, numStops);
  }

  /** Heat 0 falls at the start of the first segment and heat 1 at the end of
      the last. */
  lemma SegmentEndpoints(numStops: nat)
    requires numStops >= 2
    ensures LocateSegment(0.0, numStops) == Segment(0, 0.0)
    ensures LocateSegment(1.0, numStops) == Segment(numStops - 2, 1.0)
  {
    SegmentAtStop(0, numStops);
    SegmentAtStop(numStops - 1, numStops);
    assert (numStops - 1) as real / (numStops - 1) as real == 1.0;
  }

  /** More heat never moves the lookup to an earlier segment. */
  lemma SegmentMonotone(heat1: real, heat2: real, numStops: nat)
    requires numStops >= 2 && 0.0 <= heat1 <= heat2 <= 1.0
    ensures LocateSegment(heat1, numStops).lower <= LocateSegment(heat2, numStops).lower
  {
    var count := (numStops - 1) as real;
    SegmentScale(heat1, 0.0, count);
    SegmentScale(heat2, 0.0, count);
    MulMonotone(heat1, heat2, count);
    FloorMonotone(heat1 * count, heat2 * count);
  }

  lemma FloorMonotone(x: real, y: real)
    requires x <= y
    ensures x.Floor <= y.Floor
  {
  }

  lemma MulMonotone(a: real, b: real, c: real)
    requires a <= b && c > 0.0
    ensures a * c <= b * c
  {
  }

  lemma MulStrictlyMonotone(a: real, b: real, c: real)
    requires a < b && c > 0.0
    ensures a * c < b * c
  {
  }

  // ---------------------------------------------------------------------------
  // Properties of the colour lookup

  /** A colour library whose conversions invert each other and whose mix
      returns its first colour at 0 and its second at 1. */
  ghost predicate Faithful(space: ColorSpace)
  {
    (forall c: Srgb :: space.toSrgb(space.toOklab(c)) == c) &&
    (forall p: Oklab, q: Oklab :: space.mix(p, q, 0.0) == p && space.mix(p, q, 1.0) == q)
  }

  /** Heat outside [0, 1] is clamped first: below 0 colours like 0, above 1
      like 1, and everything in range is used as is. */
  lemma HeatIsClamped(heat: real, hexColors: seq<int>, space: ColorSpace)
    ensures HeatToColor(heat, hexColors, space) == HeatToColor(Clamp01(heat), hexColors, space)
    ensures heat < 0.0 ==> HeatToColor(heat, hexColors, space) == HeatToColor(0.0, hexColors, space)
    ensures heat > 1.0 ==> HeatToColor(heat, hexColors, space) == HeatToColor(1.0, hexColors, space)
  {
  }

  /** With no stops the colour is black; with a single stop it is that stop's
      colour, after a trip through the perceptual space, for every heat. */
  lemma DegenerateStops(heat: real, hexColors: seq<int>, space: ColorSpace)
    requires |hexColors| <= 1
    ensures |hexColors| == 0 ==> HeatToColor(heat, hexColors, space) == Black
    ensures |hexColors| == 1 ==>
              (HeatToColor(heat, hexColors, space)
               == ToColor32(space.toSrgb(space.toOklab(ParseHexSrgb(AsU32(hexColors[0]))))))
    ensures |hexColors| == 1 && Faithful(space) ==>
              (HeatToColor(heat, hexColors, space) == ParseHexColor32(AsU32(hexColors[0])))
  {
  }

  /** Between two stops the colour is the library's mix of its neighbouring
      stops, at the factor that places the heat inside their segment. */
  lemma HeatBlendsNeighbouringStops(heat: real, hexColors: seq<int>, space: ColorSpace)
    requires |hexColors| >= 2 && 0.0 <= heat <= 1.0
    ensures var seg := LocateSegment(heat, |hexColors|);
            var stops := ColorStops(hexColors, space);
            HeatToColor(heat, hexColors, space)
            == ToColor32(space.toSrgb(space.mix(stops[seg.lower], stops[seg.lower + 1], seg.t)))
  {
  }

  /** With a faithful colour library, the heat k / (n - 1) shows exactly the
      k-th stop's colour: the gradient passes through every stop, starting
      at the first (heat 0) and ending at the last (heat 1). */
  lemma GradientHitsStops(k: nat, hexColors: seq<int>, space: ColorSpace)
    requires |hexColors| >= 2 && k < |hexColors| && Faithful(space)
    ensures HeatToColor(k as real / (|hexColors| - 1) as real, hexColors, space)
            == ParseHexColor32(AsU32(hexColors[k]))
  {
    var n := |hexColors|;
    var heat := k as real / (n - 1) as real;
    SegmentAtStop(k, n);
    var stops := ColorStops(hexColors, space);
    HeatBlendsNeighbouringStops(heat, hexColors, space);
    if k < n - 1 {
      assert space.mix(stops[k], stops[k + 1], 0.0) == stops[k];
    } else {
      assert space.mix(stops[k - 1], stops[k], 1.0) == stops[k];
    }
  }

  /** The heat-map palette runs from black at no heat to white at the peak. */
  lemma HeatmapRunsBlackToWhite(space: ColorSpace)
    requires Faithful(space)
    ensures HeatToColor(0.0, HeatmapColors, space) == Color32(0, 0, 0)
    ensures HeatToColor(1.0, HeatmapColors, space) == Color32(255, 255, 255)
  {
    BlackAndWhiteParse();
    GradientEnds(HeatmapColors, space);
  }

  /** The gradient starts at the first stop's colour and ends at the last's. */
  lemma GradientEnds(hexColors: seq<int>, space: ColorSpace)
    requires |hexColors| >= 2 && Faithful(space)
    ensures HeatToColor(0.0, hexColors, space) == ParseHexColor32(AsU32(hexColors[0]))
    ensures HeatToColor(1.0, hexColors, space) == ParseHexColor32(AsU32(hexColors[|hexColors| - 1]))
  {
    var n := |hexColors|;
    var count := (n - 1) as real;
    assert count > 0.0;
    assert 0 as real / count == 0.0 && count / count == 1.0;
    GradientHitsStops(0, hexColors, space);
    GradientHitsStops(n - 1, hexColors, space);
  }

  lemma BlackAndWhiteParse()
    ensures ParseHexColor32(AsU32(0x000000)) == Color32(0, 0, 0)
    ensures ParseHexColor32(AsU32(0xFFFFFF)) == Color32(255, 255, 255)
  {
    ParsePackedHex(0, 0, 0);
    ParsePackedHex(255, 255, 255);
  }

  /** The colour written 0xRRGGBB parses to the bytes RR, GG, BB. */
  lemma ParsePackedHex(r: int, g: int, b: int)
    requires 0 <= r <= 255 && 0 <= g <= 255 && 0 <= b <= 255
    ensures ParseHexColor32(AsU32(PackHex(r, g, b))) == Color32(r, g, b)
  {
    var hex := PackHex(r, g, b);
    assert AsU32(hex) == hex;
    ParseHexImplsAgree(hex);
    ChannelsOfPackedHex(r, g, b);
  }
}
