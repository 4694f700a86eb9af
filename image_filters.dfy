/**
 * The editor's pixel pipeline: `applyImageFilters`, an in-place pass over an
 * RGBA byte buffer that runs four tone stages on every pixel and stores the
 * clamped result, and `combinedAdj`, the adjustment used inside a spot-edit
 * region.  Channel arithmetic is over `real`; the byte store of the clamped
 * buffer rounds to the nearest integer, ties to even.
 */
module ImageFilters {
  import opened Types

  /** `clamp`: limit a channel value to [0, 255]. */
  function Clamp(v: real): (c: real)
    ensures 0.0 <= c <= 255.0
    ensures 0.0 <= v <= 255.0 ==> c == v
    ensures v < 0.0 ==> c == 0.0
    ensures v > 255.0 ==> c == 255.0
  {
    if v < 0.0 then 0.0 else if v > 255.0 then 255.0 else v
  }

  /** Storing a value into a clamped byte buffer: round to nearest, ties to even. */
  function StoreByte(v: real): (b: int)
    requires 0.0 <= v <= 255.0
    ensures 0 <= b <= 255
    ensures -0.5 <= b as real - v <= 0.5
    ensures v == v.Floor as real ==> b == v.Floor
  {
    var f := v.Floor;
    var frac := v - f as real;
    if frac < 0.5 then f
    else if frac > 0.5 then f + 1
    else if f % 2 == 0 then f else f + 1
  }

  datatype Rgb = Rgb(r: real, g: real, b: real)

  /** The factors the adjustments are turned into. */
  datatype Factors = Factors(b: real, c: real, s: real, sh: real, hl: real)

  function FactorsOf(adj: ImageAdjustments): Factors
  {
    Factors(adj.brightness / 100.0, adj.contrast / 100.0, adj.saturation / 100.0,
            adj.shadows / 100.0, adj.highlights / 100.0)
  }

  /** The early-return test: every factor is the identity. */
  predicate IsIdentity(f: Factors)
  {
    f.b == 1.0 && f.c == 1.0 && f.s == 1.0 && f.sh == 0.0 && f.hl == 0.0
  }

  /** The factors are the identity exactly for the neutral adjustments. */
  lemma IdentityIffNeutral(adj: ImageAdjustments)
    ensures IsIdentity(FactorsOf(adj)) <==> adj == NeutralAdjustments
  {
  }

  /** Weighted luminance, used both for tone mapping and as the saturation gray. */
  function Luma(p: Rgb): real
  {
    0.299 * p.r + 0.587 * p.g + 0.114 * p.b
  }

  function Cube(x: real): real
  {
    x * x * x
  }

  /** Stage 1: add one amount to all channels, weighted by cubes of the normalised luminance. */
  function ToneMap(p: Rgb, sh: real, hl: real): Rgb
  {
    if sh != 0.0 || hl != 0.0 then
      var nLum := Luma(p) / 255.0;
      var adjVal := (if sh != 0.0 then sh * Cube(1.0 - nLum) * 255.0 else 0.0)
                  + (if hl != 0.0 then hl * Cube(nLum) * 255.0 else 0.0);
      Rgb(p.r + adjVal, p.g + adjVal, p.b + adjVal)
    else p
  }

  /** Stage 2: scale every channel. */
  function Brighten(p: Rgb, b: real): Rgb
  {
    if b != 1.0 then Rgb(p.r * b, p.g * b, p.b * b) else p
  }

  /** Stage 3: scale every channel's distance from 128. */
  function Contrast(p: Rgb, c: real): Rgb
  {
    if c != 1.0 then Rgb((p.r - 128.0) * c + 128.0, (p.g - 128.0) * c + 128.0, (p.b - 128.0) * c + 128.0)
    else p
  }

  /** Stage 4: scale every channel's distance from the gray of the channels so far. */
  function Saturate(p: Rgb, s: real): Rgb
  {
    if s != 1.0 then
      var gray := Luma(p);
      Rgb(gray + (p.r - gray) * s, gray + (p.g - gray) * s, gray + (p.b - gray) * s)
    else p
  }

  /** The four stages in their fixed order. */
  function Grade(p: Rgb, f: Factors): Rgb
  {
    Saturate(Contrast(Brighten(ToneMap(p, f.sh, f.hl), f.b), f.c), f.s)
  }

  /** The four stages with no stage skipped: the reference the skips are checked against. */
  function ToneMapAlways(p: Rgb, sh: real, hl: real): Rgb
  {
    var nLum := Luma(p) / 255.0;
    var adjVal := sh * Cube(1.0 - nLum) * 255.0 + hl * Cube(nLum) * 255.0;
    Rgb(p.r + adjVal, p.g + adjVal, p.b + adjVal)
  }

  function BrightenAlways(p: Rgb, b: real): Rgb
  {
    Rgb(p.r * b, p.g * b, p.b * b)
  }

  function ContrastAlways(p: Rgb, c: real): Rgb
  {
    Rgb((p.r - 128.0) * c + 128.0, (p.g - 128.0) * c + 128.0, (p.b - 128.0) * c + 128.0)
  }

  function SaturateAlways(p: Rgb, s: real): Rgb
  {
    var gray := Luma(p);
    Rgb(gray + (p.r - gray) * s, gray + (p.g - gray) * s, gray + (p.b - gray) * s)
  }

  function GradeUnguarded(p: Rgb, f: Factors): Rgb
  {
    SaturateAlways(ContrastAlways(BrightenAlways(ToneMapAlways(p, f.sh, f.hl), f.b), f.c), f.s)
  }

  lemma ToneMapSkip(p: Rgb, sh: real, hl: real)
    ensures ToneMap(p, sh, hl) == ToneMapAlways(p, sh, hl)
  {
    var nLum := Luma(p) / 255.0;
    assert 0.0 * Cube(1.0 - nLum) * 255.0 == 0.0;
    assert 0.0 * Cube(nLum) * 255.0 == 0.0;
  }

  lemma BrightenSkip(p: Rgb, b: real)
    ensures Brighten(p, b) == BrightenAlways(p, b)
  {
  }

  lemma ContrastSkip(p: Rgb, c: real)
    ensures Contrast(p, c) == ContrastAlways(p, c)
  {
  }

  lemma SaturateSkip(p: Rgb, s: real)
    ensures Saturate(p, s) == SaturateAlways(p, s)
  {
  }

  /** Skipping a stage whose factor is the identity never changes the result. */
  lemma SkipsChangeNothing(p: Rgb, f: Factors)
    ensures Grade(p, f) == GradeUnguarded(p, f)
  {
    var t := ToneMap(p, f.sh, f.hl);
    ToneMapSkip(p, f.sh, f.hl);
    BrightenSkip(t, f.b);
    var br := Brighten(t, f.b);
    ContrastSkip(br, f.c);
    SaturateSkip(Contrast(br, f.c), f.s);
  }

  /** Tone mapping shifts all three channels by the same amount. */
  lemma ToneMapShiftsUniformly(p: Rgb, sh: real, hl: real)
    ensures var t := ToneMap(p, sh, hl); t.r - p.r == t.g - p.g == t.b - p.b
  {
  }

  lemma CubeSign(x: real)
    ensures x >= 0.0 ==> Cube(x) >= 0.0
  {
    if x >= 0.0 {
      assert x * x >= 0.0;
      assert x * x * x >= 0.0;
    }
  }

  /**
   * On a pixel of byte channels, non-negative shadow and highlight amounts
   * never darken it and non-positive ones never lighten it.
   */
  lemma ToneMapDirection(p: Rgb, sh: real, hl: real)
    requires 0.0 <= p.r <= 255.0 && 0.0 <= p.g <= 255.0 && 0.0 <= p.b <= 255.0
    ensures var t := ToneMap(p, sh, hl);
      sh >= 0.0 && hl >= 0.0 ==> t.r >= p.r && t.g >= p.g && t.b >= p.b
    ensures var t := ToneMap(p, sh, hl);
      sh <= 0.0 && hl <= 0.0 ==> t.r <= p.r && t.g <= p.g && t.b <= p.b
  {
    var nLum := Luma(p) / 255.0;
    assert 0.0 <= nLum <= 1.0;
    CubeSign(nLum);
    CubeSign(1.0 - nLum);
    ToneMapShiftsUniformly(p, sh, hl);
  }

  /** Brightness keeps black; contrast keeps the pivot 128. */
  lemma FixedPoints(b: real, c: real)
    ensures Brighten(Rgb(0.0, 0.0, 0.0), b) == Rgb(0.0, 0.0, 0.0)
    ensures Contrast(Rgb(128.0, 128.0, 128.0), c) == Rgb(128.0, 128.0, 128.0)
  {
  }

  /** Saturation keeps the gray it mixes with: luminance is unchanged. */
  lemma SaturationKeepsLuma(p: Rgb, s: real)
    ensures Luma(Saturate(p, s)) == Luma(p)
  {
  }

  /** The bytes stored for a graded channel. */
  function Store(v: real): int
  {
    StoreByte(Clamp(v))
  }

  /** The three colour bytes of one pixel. */
  datatype Pixel = Pixel(r: int, g: int, b: int)

  /** One iteration of the loop: grade a pixel's colour bytes and store the results. */
  function GradePixel(px: Pixel, f: Factors): (q: Pixel)
    ensures 0 <= q.r <= 255 && 0 <= q.g <= 255 && 0 <= q.b <= 255
  {
    var p := Grade(Rgb(px.r as real, px.g as real, px.b as real), f);
    Pixel(Store(p.r), Store(p.g), Store(p.b))
  }

  function Grader(f: Factors): Pixel -> Pixel
  {
    px => GradePixel(px, f)
  }

  /**
   * Element `j` of an RGBA buffer after `op` has been applied to every pixel:
   * the alpha byte (offset 3) is kept, the colour bytes come from `op`.
   */
  function MappedAt(d: seq<int>, op: Pixel -> Pixel, j: int): int
    requires |d| % 4 == 0 && 0 <= j < |d|
  {
    var base := j - j % 4;
    if j % 4 == 3 then d[j]
    else
      var q := op(Pixel(d[base], d[base + 1], d[base + 2]));
      if j % 4 == 0 then q.r else if j % 4 == 1 then q.g else q.b
  }

  function MapPixels(d: seq<int>, op: Pixel -> Pixel): seq<int>
    requires |d| % 4 == 0
  {
    seq(|d|, j requires 0 <= j < |d| => MappedAt(d, op, j))
  }

  /** The buffer after the per-pixel loop of `applyImageFilters`. */
  function Filtered(d: seq<int>, f: Factors): seq<int>
    requires |d| % 4 == 0
  {
    MapPixels(d, Grader(f))
  }

  /** The stride-4 loop: read a pixel's three colour bytes, write back `op` of them. */
  method ForEachPixel(data: array<int>, op: Pixel -> Pixel)
    requires data.Length % 4 == 0
    modifies data
    ensures data[..] == MapPixels(old(data[..]), op)
  {
    ghost var input := data[..];
    var i := 0;
    while i < data.Length
      invariant 0 <= i <= data.Length && i % 4 == 0 && |input| == data.Length
      invariant MappedUpTo(data[..], input, op, i)
      decreases data.Length - i
    {
      ghost var before := data[..];
      var q := op(Pixel(data[i], data[i + 1], data[i + 2]));
      MappedStep(before, input, op, i);
      data[i] := q.r;
      data[i + 1] := q.g;
      data[i + 2] := q.b;
      assert data[..] == before[i := q.r][i + 1 := q.g][i + 2 := q.b];
      NextPixel(i, data.Length);
      i := i + 4;
    }
    assert data[..] == MapPixels(input, op);
  }

  /** Pixels start every four bytes: the next start is still a multiple of 4 within the buffer. */
  lemma NextPixel(i: int, n: int)
    requires 0 <= i < n && i % 4 == 0 && n % 4 == 0
    ensures (i + 4) % 4 == 0 && i + 4 <= n
  {
  }

  /** The first `i` bytes of `s` are mapped and the rest are still the input. */
  predicate MappedUpTo(s: seq<int>, input: seq<int>, op: Pixel -> Pixel, i: int)
    requires |input| % 4 == 0 && |s| == |input| && 0 <= i <= |s|
  {
    && (forall j :: 0 <= j < i ==> s[j] == MappedAt(input, op, j))
    && (forall j :: i <= j < |s| ==> s[j] == input[j])
  }

  /** Writing the pixel at `i` extends the mapped prefix by four bytes. */
  lemma MappedStep(s: seq<int>, input: seq<int>, op: Pixel -> Pixel, i: int)
    requires |input| % 4 == 0 && |s| == |input| && 0 <= i < |s| && i % 4 == 0
    requires MappedUpTo(s, input, op, i)
    ensures i + 4 <= |s|
    ensures var q := op(Pixel(s[i], s[i + 1], s[i + 2]));
      MappedUpTo(s[i := q.r][i + 1 := q.g][i + 2 := q.b], input, op, i + 4)
  {
    MappedPixel(input, op, i);
  }

  /** The four bytes of the pixel starting at `i`, after the map. */
  lemma MappedPixel(d: seq<int>, op: Pixel -> Pixel, i: int)
    requires |d| % 4 == 0 && 0 <= i < |d| && i % 4 == 0
    ensures i + 3 < |d|
    ensures var q := op(Pixel(d[i], d[i + 1], d[i + 2]));
      && MappedAt(d, op, i) == q.r && MappedAt(d, op, i + 1) == q.g
      && MappedAt(d, op, i + 2) == q.b && MappedAt(d, op, i + 3) == d[i + 3]
  {
    assert (i + 1) % 4 == 1 && (i + 1) - (i + 1) % 4 == i;
    assert (i + 2) % 4 == 2 && (i + 2) - (i + 2) % 4 == i;
    assert (i + 3) % 4 == 3;
  }

  /**
   * `applyImageFilters` on the buffer of `getImageData`: unchanged when every
   * factor is the identity, otherwise every pixel graded in place.
   */
  method ApplyImageFilters(data: array<int>, adj: ImageAdjustments)
    requires data.Length % 4 == 0
    modifies data
    ensures data[..] == if IsIdentity(FactorsOf(adj)) then old(data[..]) else Filtered(old(data[..]), FactorsOf(adj))
  {
    var f := FactorsOf(adj);
    if f.b == 1.0 && f.c == 1.0 && f.s == 1.0 && f.sh == 0.0 && f.hl == 0.0 {
      return;
    }
    ForEachPixel(data, Grader(f));
  }

  /** Bytes are the integers 0..255. */
  predicate Bytes(d: seq<int>)
  {
    forall j :: 0 <= j < |d| ==> 0 <= d[j] <= 255
  }

  /**
   * The filtered buffer has the same length, keeps every alpha byte, and holds
   * only bytes: every written channel lies in [0, 255].
   */
  lemma FilteredShape(d: seq<int>, f: Factors)
    requires |d| % 4 == 0
    ensures |Filtered(d, f)| == |d|
    ensures forall j :: 0 <= j < |d| && j % 4 == 3 ==> Filtered(d, f)[j] == d[j]
    ensures forall j :: 0 <= j < |d| && j % 4 != 3 ==> 0 <= Filtered(d, f)[j] <= 255
    ensures Bytes(d) ==> Bytes(Filtered(d, f))
  {
  }

  /**
   * The early return is only a shortcut: grading a byte buffer with identity
   * factors would store back the same bytes.
   */
  lemma IdentityGradeKeepsBytes(d: seq<int>, f: Factors)
    requires |d| % 4 == 0 && Bytes(d) && IsIdentity(f)
    ensures Filtered(d, f) == d
  {
    forall j | 0 <= j < |d| ensures Filtered(d, f)[j] == d[j] {
      var base := j - j % 4;
      PixelBase(j, |d|);
      var px := Pixel(d[base], d[base + 1], d[base + 2]);
      assert 0 <= px.r <= 255 && 0 <= px.g <= 255 && 0 <= px.b <= 255;
      IdentityGradeKeepsPixel(px, f);
      MappedPixel(d, Grader(f), base);
      assert Filtered(d, f)[j] == MappedAt(d, Grader(f), j);
      if j % 4 == 0 {
        assert j == base;
      } else if j % 4 == 1 {
        assert j == base + 1;
      } else if j % 4 == 2 {
        assert j == base + 2;
      } else {
        assert j == base + 3;
      }
    }
  }

  /** Byte `j` belongs to the pixel that starts at `j - j % 4`. */
  lemma PixelBase(j: int, n: int)
    requires 0 <= j < n && n % 4 == 0
    ensures var base := j - j % 4;
      && 0 <= base && base % 4 == 0 && base + 3 < n && 0 <= j % 4 <= 3 && j == base + j % 4
  {
  }

  /** Identity factors grade a pixel of bytes to itself. */
  lemma IdentityGradeKeepsPixel(px: Pixel, f: Factors)
    requires IsIdentity(f) && 0 <= px.r <= 255 && 0 <= px.g <= 255 && 0 <= px.b <= 255
    ensures GradePixel(px, f) == px
  {
    var p := Rgb(px.r as real, px.g as real, px.b as real);
    assert Grade(p, f) == p;
    StoreKeepsByte(px.r);
    StoreKeepsByte(px.g);
    StoreKeepsByte(px.b);
  }

  lemma StoreKeepsByte(n: int)
    requires 0 <= n <= 255
    ensures Store(n as real) == n
  {
    assert (n as real).Floor == n;
  }

  // ---------------------------------------------------------------------------
  // Combined regional adjustment

  function ClampAmount(v: real): real
  {
    if v < -100.0 then -100.0 else if v > 100.0 then 100.0 else v
  }

  /**
   * The adjustment applied inside a region: the percentages multiply, the
   * shadow and highlight amounts add and are clamped to [-100, 100].
   */
  function CombinedAdjustment(global: ImageAdjustments, r: RegionalAdjustment): (c: ImageAdjustments)
    ensures -100.0 <= c.shadows <= 100.0 && -100.0 <= c.highlights <= 100.0
    ensures c.brightness * 100.0 == global.brightness * r.brightness
    ensures c.contrast * 100.0 == global.contrast * r.contrast
    ensures c.saturation * 100.0 == global.saturation * r.saturation
  {
    ImageAdjustments(
      (global.brightness / 100.0) * (r.brightness / 100.0) * 100.0,
      (global.contrast / 100.0) * (r.contrast / 100.0) * 100.0,
      (global.saturation / 100.0) * (r.saturation / 100.0) * 100.0,
      ClampAmount(global.shadows + r.shadows),
      ClampAmount(global.highlights + r.highlights))
  }

  /** A region whose own values are neutral. */
  predicate NeutralRegion(r: RegionalAdjustment)
  {
    RegionAdjustments(r) == NeutralAdjustments
  }

  /** A neutral region reproduces the global adjustment when its amounts are in range. */
  lemma NeutralRegionKeepsGlobal(global: ImageAdjustments, r: RegionalAdjustment)
    requires NeutralRegion(r)
    requires -100.0 <= global.shadows <= 100.0 && -100.0 <= global.highlights <= 100.0
    ensures CombinedAdjustment(global, r) == global
  {
  }

  /** With neutral global values a region applies its own values, amounts clamped. */
  lemma NeutralGlobalAppliesRegion(r: RegionalAdjustment)
    ensures var c := CombinedAdjustment(NeutralAdjustments, r);
      && c.brightness == r.brightness && c.contrast == r.contrast && c.saturation == r.saturation
      && c.shadows == ClampAmount(r.shadows) && c.highlights == ClampAmount(r.highlights)
  {
  }

  /** In-range global and region values give an in-range combination. */
  lemma CombinedStaysInRange(global: ImageAdjustments, r: RegionalAdjustment)
    requires InDocumentedRange(global) && InDocumentedRange(RegionAdjustments(r))
    ensures var c := CombinedAdjustment(global, r);
      && 0.0 <= c.brightness <= 400.0 && 0.0 <= c.contrast <= 400.0 && 0.0 <= c.saturation <= 400.0
      && -100.0 <= c.shadows <= 100.0 && -100.0 <= c.highlights <= 100.0
  {
    ProductBound(global.brightness, r.brightness);
    ProductBound(global.contrast, r.contrast);
    ProductBound(global.saturation, r.saturation);
  }

  lemma ProductBound(a: real, b: real)
    requires 0.0 <= a <= 200.0 && 0.0 <= b <= 200.0
    ensures 0.0 <= a * b <= 40000.0
  {
    NonNegativeProduct(a, b);
    NonNegativeProduct(200.0 - a, b);
    NonNegativeProduct(200.0, 200.0 - b);
  }

  lemma NonNegativeProduct(x: real, y: real)
    requires x >= 0.0 && y >= 0.0
    ensures x * y >= 0.0
  {
  }
}
