/** The print-preparation steps of print_cards.py: undoing a layer blended at a known
    opacity, the two-stage removal of the luminosity and colour layers baked into card
    scans, blacking out the rounded corners and the artist credit, and extending the
    edge pixels outward as printer bleed. Images are height x width arrays of 8-bit
    RGB pixels; floating point is idealised as exact real arithmetic. */
module PrintCards {
  import opened Numeric
  import opened ColorSpace

  // ---------------------------------------------------------------------------
  // invert_opacity

  /** The algebraic inverse of the blend V = a T + (1 - a) B, solved for B. */
  function Unblend(v: real, t: real, opacity: real): (base: real)
    requires opacity != 1.0
    ensures v == opacity * t + (1.0 - opacity) * base
  {
    var d := 1.0 - opacity;
    var q := (v - opacity * t) / d;
    assert q * d == v - opacity * t;
    q
  }

  /** One sample of invert_opacity: unblend, round, then the in-place clamp and cast. */
  function InvertOpacitySample(v: real, t: real, opacity: real): (n: int)
    requires opacity != 1.0
    ensures 0 <= n <= 255
  {
    Clamp8(RoundHalfEven(Unblend(v, t, opacity)))
  }

  /** Unblending a blended value gives back exactly the value underneath. */
  lemma UnblendOfBlend(v: real, base: real, t: real, opacity: real)
    requires opacity != 1.0 && v == opacity * t + (1.0 - opacity) * base
    ensures Unblend(v, t, opacity) == base
  {
    var u := Unblend(v, t, opacity);
    var d := 1.0 - opacity;
    assert d * (u - base) == 0.0;
    if d > 0.0 {
      ProductSign(u - base, d);
    } else {
      ProductSign(u - base, -d);
    }
  }

  /** Blending an 8-bit base under a top layer and inverting gives the base back. */
  lemma InvertOpacityInverse(v: real, base: int, t: real, opacity: real)
    requires 0 <= base <= 255 && opacity != 1.0
    requires v == opacity * t + (1.0 - opacity) * base as real
    ensures InvertOpacitySample(v, t, opacity) == base
  {
    UnblendOfBlend(v, base as real, t, opacity);
    RoundOfInteger(base);
  }

  /** Unblending a value within 0.5 of the exact blend lands within 1 of the base when
      the opacity is at most one half. */
  lemma UnblendNearBase(v: real, base: real, t: real, opacity: real)
    requires 0.0 <= opacity <= 0.5
    requires -0.5 <= v - (opacity * t + (1.0 - opacity) * base) <= 0.5
    ensures -1.0 <= Unblend(v, t, opacity) - base <= 1.0
  {
    var u := Unblend(v, t, opacity);
    var d := 1.0 - opacity;
    var err := v - (opacity * t + (1.0 - opacity) * base);
    assert d * (u - base) == err;
    assert (u - base - 1.0) * d == err - d;
    assert (u - base + 1.0) * d == err + d;
    assert err - d <= 0.0 && err + d >= 0.0;
    ProductSign(u - base - 1.0, d);
    ProductSign(u - base + 1.0, d);
    assert (u - base + 1.0) * d >= 0.0;
  }

  /** Rounding and clamping a value less than 1.5 away from an 8-bit sample stays within
      1 of it. */
  lemma RoundClampNear(u: real, base: int)
    requires 0 <= base <= 255 && -1.5 < u - base as real < 1.5
    ensures base - 1 <= Clamp8(RoundHalfEven(u)) <= base + 1
  {
  }

  /** The blend itself is rounded to 8 bits before it is seen. For an opacity of at most
      one half, that rounding moves the recovered sample by at most one. */
  lemma InvertOpacityOfRoundedBlend(base: int, t: real, opacity: real)
    requires 0 <= base <= 255 && 0.0 <= opacity <= 0.5
    ensures var v := RoundHalfEven(opacity * t + (1.0 - opacity) * base as real);
      base - 1 <= InvertOpacitySample(v as real, t, opacity) <= base + 1
  {
    var v := RoundHalfEven(opacity * t + (1.0 - opacity) * base as real);
    UnblendNearBase(v as real, base as real, t, opacity);
    RoundClampNear(Unblend(v as real, t, opacity), base);
  }

  /** At opacity 0 nothing was blended, and an 8-bit sample comes back unchanged. */
  lemma InvertOpacityAtZero(v: int, t: real)
    requires 0 <= v <= 255
    ensures InvertOpacitySample(v as real, t, 0.0) == v
  {
    RoundOfInteger(v);
  }

  /** The clamp saturates exactly where the rounded inverse leaves [0, 255]; with
      round-half-even, 0.5 still gives 0 and 254.5 still gives 254. */
  lemma InvertOpacitySaturation(v: real, t: real, opacity: real)
    requires opacity != 1.0
    ensures InvertOpacitySample(v, t, opacity) == 0 <==> Unblend(v, t, opacity) <= 0.5
    ensures InvertOpacitySample(v, t, opacity) == 255 <==> Unblend(v, t, opacity) > 254.5
  {
    RoundBelowBound(Unblend(v, t, opacity), 0);
    RoundBelowBound(Unblend(v, t, opacity), 254);
  }

  /** A worked case: base 200 under top 50 at opacity 0.08 is seen as 188, from which
      the base is recovered exactly. */
  lemma InvertOpacityExample()
    ensures RoundHalfEven(0.08 * 50.0 + 0.92 * 200.0) == 188
    ensures InvertOpacitySample(188.0, 50.0, 0.08) == 200
  {
    RoundOfInteger(188);
    assert Unblend(188.0, 50.0, 0.08) == 200.0;
    RoundOfInteger(200);
  }

  /** invert_opacity on one pixel, channel by channel. */
  function InvertOpacity(result: Rgb, top: Rgb, opacity: real): (base: Rgb)
    requires opacity != 1.0
    ensures base.Valid()
  {
    Rgb(InvertOpacitySample(result.r as real, top.r as real, opacity),
        InvertOpacitySample(result.g as real, top.g as real, opacity),
        InvertOpacitySample(result.b as real, top.b as real, opacity))
  }

  /** invert_opacity on whole images of the same shape: the rounded inverse is written
      into a new array, which is then clamped in place. */
  method InvertOpacityImage(result: array2<Rgb>, top: array2<Rgb>, opacity: real)
    returns (base: array2<Rgb>)
    requires opacity != 1.0
    requires top.Length0 == result.Length0 && top.Length1 == result.Length1
    ensures fresh(base)
    ensures base.Length0 == result.Length0 && base.Length1 == result.Length1
    ensures forall i, j :: 0 <= i < result.Length0 && 0 <= j < result.Length1 ==>
      base[i, j] == InvertOpacity(result[i, j], top[i, j], opacity) && base[i, j].Valid()
  {
    base := new Rgb[result.Length0, result.Length1];
    for i := 0 to result.Length0
      invariant forall i', j :: 0 <= i' < i && 0 <= j < result.Length1 ==>
        ClampPixel(base[i', j]) == InvertOpacity(result[i', j], top[i', j], opacity)
    {
      for j := 0 to result.Length1
        invariant forall i', j' :: 0 <= i' < i && 0 <= j' < result.Length1 ==>
          ClampPixel(base[i', j']) == InvertOpacity(result[i', j'], top[i', j'], opacity)
        invariant forall j' :: 0 <= j' < j ==>
          ClampPixel(base[i, j']) == InvertOpacity(result[i, j'], top[i, j'], opacity)
      {
        var v, t := result[i, j], top[i, j];
        base[i, j] := Rgb(RoundHalfEven(Unblend(v.r as real, t.r as real, opacity)),
                          RoundHalfEven(Unblend(v.g as real, t.g as real, opacity)),
                          RoundHalfEven(Unblend(v.b as real, t.b as real, opacity)));
      }
    }
    ClampImage(base);
  }

  // ---------------------------------------------------------------------------
  // invert_idc_layers

  const LUMINOSITY_LAYER := Rgb(99, 99, 99)
  const LUMINOSITY_OPACITY := 0.08
  const COLOR_LAYER := Rgb(96, 96, 96)
  const COLOR_OPACITY := 0.26

  /** Stage 1 reconstruction: the visible pixel's hue and chroma with the luminosity
      layer's luma (`layer` is that layer converted to HCY), converted back to RGB. */
  function LuminosityTop(v: Rgb, layer: Hcy): (top: Rgb)
    requires v.Valid()
    ensures top.Valid()
  {
    HcyToRgb(RgbToHcy(v).(luma := layer.luma))
  }

  function RemoveLuminosityLayer(v: Rgb, layer: Hcy): (s: Rgb)
    requires v.Valid()
    ensures s.Valid()
  {
    InvertOpacity(v, LuminosityTop(v, layer), LUMINOSITY_OPACITY)
  }

  /** Stage 2 reconstruction: the stage-1 pixel's luma with the colour layer's hue and
      chroma, converted back to RGB. */
  function ColorTop(s: Rgb, layer: Hcy): (top: Rgb)
    requires s.Valid()
    ensures top.Valid()
  {
    HcyToRgb(RgbToHcy(s).(hue := layer.hue, chroma := layer.chroma))
  }

  function RemoveColorLayer(s: Rgb, layer: Hcy): (w: Rgb)
    requires s.Valid()
    ensures w.Valid()
  {
    InvertOpacity(s, ColorTop(s, layer), COLOR_OPACITY)
  }

  /** The whole pipeline on one pixel: the luminosity layer is removed first and its
      output feeds the colour-layer removal. */
  function InvertIdcPixel(v: Rgb): (w: Rgb)
    requires v.Valid()
    ensures w.Valid()
  {
    var s := RemoveLuminosityLayer(v, RgbToHcy(LUMINOSITY_LAYER));
    RemoveColorLayer(s, RgbToHcy(COLOR_LAYER))
  }

  /** `idc_luminosity[:, :, 2] = ...`: overwrite the luma channel in place. */
  method SetLuma(a: array2<Hcy>, luma: real)
    modifies a
    ensures forall i, j :: 0 <= i < a.Length0 && 0 <= j < a.Length1 ==>
      a[i, j] == old(a[i, j]).(luma := luma)
  {
    for i := 0 to a.Length0
      invariant forall i', j :: 0 <= i' < i && 0 <= j < a.Length1 ==>
        a[i', j] == old(a[i', j]).(luma := luma)
      invariant forall i', j :: i <= i' < a.Length0 && 0 <= j < a.Length1 ==>
        a[i', j] == old(a[i', j])
    {
      for j := 0 to a.Length1
        invariant forall i', j' :: 0 <= i' < i && 0 <= j' < a.Length1 ==>
          a[i', j'] == old(a[i', j']).(luma := luma)
        invariant forall j' :: 0 <= j' < j ==> a[i, j'] == old(a[i, j']).(luma := luma)
        invariant forall i', j' :: i <= i' < a.Length0 && 0 <= j' < a.Length1 && (i' > i || j' >= j) ==>
          a[i', j'] == old(a[i', j'])
      {
        a[i, j] := a[i, j].(luma := luma);
      }
    }
  }

  /** `idc_color[:, :, 0] = ...; idc_color[:, :, 1] = ...`: overwrite hue and chroma in place. */
  method SetHueAndChroma(a: array2<Hcy>, hue: real, chroma: real)
    modifies a
    ensures forall i, j :: 0 <= i < a.Length0 && 0 <= j < a.Length1 ==>
      a[i, j] == old(a[i, j]).(hue := hue, chroma := chroma)
  {
    for i := 0 to a.Length0
      invariant forall i', j :: 0 <= i' < i && 0 <= j < a.Length1 ==>
        a[i', j] == old(a[i', j]).(hue := hue, chroma := chroma)
      invariant forall i', j :: i <= i' < a.Length0 && 0 <= j < a.Length1 ==>
        a[i', j] == old(a[i', j])
    {
      for j := 0 to a.Length1
        invariant forall i', j' :: 0 <= i' < i && 0 <= j' < a.Length1 ==>
          a[i', j'] == old(a[i', j']).(hue := hue, chroma := chroma)
        invariant forall j' :: 0 <= j' < j ==> a[i, j'] == old(a[i, j']).(hue := hue, chroma := chroma)
        invariant forall i', j' :: i <= i' < a.Length0 && 0 <= j' < a.Length1 && (i' > i || j' >= j) ==>
          a[i', j'] == old(a[i', j'])
      {
        a[i, j] := a[i, j].(hue := hue, chroma := chroma);
      }
    }
  }

  /** Stage 1 on a whole image: convert to HCY, overwrite the luma channel with the
      layer's, convert back, and unblend that reconstruction at the luminosity opacity. */
  method RemoveLuminosityLayerImage(visible: array2<Rgb>, layer: Hcy) returns (stage1: array2<Rgb>)
    requires forall i, j :: 0 <= i < visible.Length0 && 0 <= j < visible.Length1 ==>
      visible[i, j].Valid()
    ensures fresh(stage1)
    ensures stage1.Length0 == visible.Length0 && stage1.Length1 == visible.Length1
    ensures forall i, j :: 0 <= i < visible.Length0 && 0 <= j < visible.Length1 ==>
      stage1[i, j] == RemoveLuminosityLayer(visible[i, j], layer) && stage1[i, j].Valid()
  {
    var idcLuminosity := RgbToHcyImage(visible);
    SetLuma(idcLuminosity, layer.luma);
    var idcLuminosityRgb := HcyToRgbImage(idcLuminosity);
    stage1 := InvertOpacityImage(visible, idcLuminosityRgb, LUMINOSITY_OPACITY);
  }

  /** Stage 2 on a whole image: convert to HCY, overwrite hue and chroma with the
      layer's, convert back, and unblend that reconstruction at the colour opacity. */
  method RemoveColorLayerImage(stage1: array2<Rgb>, layer: Hcy) returns (recovered: array2<Rgb>)
    requires forall i, j :: 0 <= i < stage1.Length0 && 0 <= j < stage1.Length1 ==>
      stage1[i, j].Valid()
    ensures fresh(recovered)
    ensures recovered.Length0 == stage1.Length0 && recovered.Length1 == stage1.Length1
    ensures forall i, j :: 0 <= i < stage1.Length0 && 0 <= j < stage1.Length1 ==>
      recovered[i, j] == RemoveColorLayer(stage1[i, j], layer) && recovered[i, j].Valid()
  {
    var idcColor := RgbToHcyImage(stage1);
    SetHueAndChroma(idcColor, layer.hue, layer.chroma);
    var idcColorRgb := HcyToRgbImage(idcColor);
    recovered := InvertOpacityImage(stage1, idcColorRgb, COLOR_OPACITY);
  }

  /** invert_idc_layers on a whole image: the luminosity stage, then the colour stage
      on its output. */
  method InvertIdcLayers(visible: array2<Rgb>) returns (recovered: array2<Rgb>)
    requires forall i, j :: 0 <= i < visible.Length0 && 0 <= j < visible.Length1 ==>
      visible[i, j].Valid()
    ensures fresh(recovered)
    ensures recovered.Length0 == visible.Length0 && recovered.Length1 == visible.Length1
    ensures forall i, j :: 0 <= i < visible.Length0 && 0 <= j < visible.Length1 ==>
      recovered[i, j] == InvertIdcPixel(visible[i, j]) && recovered[i, j].Valid()
  {
    var luminosityLayerHcy := RgbToHcy(LUMINOSITY_LAYER);
    var colorLayerHcy := RgbToHcy(COLOR_LAYER);
    var stage1 := RemoveLuminosityLayerImage(visible, luminosityLayerHcy);
    recovered := RemoveColorLayerImage(stage1, colorLayerHcy);
  }

  // ---------------------------------------------------------------------------
  // Rectangles written with Python slices

  /** Rows [top, bottom) x columns [left, right); empty when either range is. */
  datatype Rect = Rect(top: nat, bottom: nat, left: nat, right: nat) {
    predicate Contains(i: int, j: int) {
      top <= i < bottom && left <= j < right
    }
  }

  /** The region `image[r0:r1, c0:c1]` of an h x w image, each bound normalised the
      way Python normalises slice bounds. */
  function SliceRect(r0: int, r1: int, c0: int, c1: int, h: nat, w: nat): (rect: Rect)
    ensures rect.bottom <= h && rect.right <= w
  {
    Rect(SliceBound(r0, h), SliceBound(r1, h), SliceBound(c0, w), SliceBound(c1, w))
  }

  const BLACK := Rgb(0, 0, 0)

  /** `image[rect] = 0`: zero every sample inside the rectangle, in place. */
  method ZeroRect(a: array2<Rgb>, rect: Rect)
    requires rect.bottom <= a.Length0 && rect.right <= a.Length1
    modifies a
    ensures forall i, j :: 0 <= i < a.Length0 && 0 <= j < a.Length1 ==>
      a[i, j] == if rect.Contains(i, j) then BLACK else old(a[i, j])
  {
    var i := rect.top;
    while i < rect.bottom
      invariant forall i', j :: 0 <= i' < a.Length0 && 0 <= j < a.Length1 ==>
        a[i', j] == if rect.Contains(i', j) && i' < i then BLACK else old(a[i', j])
    {
      var j := rect.left;
      while j < rect.right
        invariant forall i', j' :: 0 <= i' < a.Length0 && 0 <= j' < a.Length1 ==>
          a[i', j'] == if rect.Contains(i', j') && (i' < i || (i' == i && j' < j)) then BLACK else old(a[i', j'])
      {
        a[i, j] := BLACK;
        j := j + 1;
      }
      i := i + 1;
    }
  }

  /** `np.array(image)`: a new array holding the same pixels, so that the in-place edits
      that follow leave the caller's image alone. */
  method CopyImage(image: array2<Rgb>) returns (a: array2<Rgb>)
    ensures fresh(a)
    ensures a.Length0 == image.Length0 && a.Length1 == image.Length1
    ensures forall i, j :: 0 <= i < a.Length0 && 0 <= j < a.Length1 ==> a[i, j] == image[i, j]
  {
    a := new Rgb[image.Length0, image.Length1];
    for i := 0 to image.Length0
      invariant forall i', j :: 0 <= i' < i && 0 <= j < image.Length1 ==> a[i', j] == image[i', j]
    {
      for j := 0 to image.Length1
        invariant forall i', j' :: 0 <= i' < i && 0 <= j' < image.Length1 ==>
          a[i', j'] == image[i', j']
        invariant forall j' :: 0 <= j' < j ==> a[i, j'] == image[i, j']
      {
        a[i, j] := image[i, j];
      }
    }
  }

  // ---------------------------------------------------------------------------
  // cover_corners

  /** `int(c * scale)` with scale = long_edge / 2100: for a non-negative size the
      largest integer not above c * scale. */
  function CornerSize(c: real, longEdge: int): (n: int)
    ensures 0.0 <= c * (longEdge as real / 2100.0) ==>
      0 <= n && n as real <= c * (longEdge as real / 2100.0) < n as real + 1.0
  {
    Trunc(c * (longEdge as real / 2100.0))
  }

  /** For a non-negative long edge, int(c * scale) and int(-c * scale) are c * L / 2100
      rounded down and its negation. */
  lemma CornerSizeForLongEdge(c: nat, longEdge: int)
    requires longEdge >= 0
    ensures CornerSize(c as real, longEdge) == c * longEdge / 2100
    ensures CornerSize(-(c as real), longEdge) == -(c * longEdge / 2100)
  {
    TruncOfRatio(c, longEdge);
  }

  /** The four slices of cover_corners, in the source's order. */
  function CornerRects(h: nat, w: nat, longEdge: int): (rects: seq<Rect>)
    ensures |rects| == 4
    ensures forall k :: 0 <= k < 4 ==> rects[k].bottom <= h && rects[k].right <= w
  {
    [ SliceRect(0, CornerSize(75.0, longEdge), 0, CornerSize(80.0, longEdge), h, w),
      SliceRect(CornerSize(-90.0, longEdge), h, 0, CornerSize(90.0, longEdge), h, w),
      SliceRect(CornerSize(-90.0, longEdge), h, CornerSize(-90.0, longEdge), w, h, w),
      SliceRect(0, CornerSize(80.0, longEdge), CornerSize(-80.0, longEdge), w, h, w) ]
  }

  predicate InCorners(i: int, j: int, h: nat, w: nat, longEdge: int) {
    var rects := CornerRects(h, w, longEdge);
    rects[0].Contains(i, j) || rects[1].Contains(i, j) ||
    rects[2].Contains(i, j) || rects[3].Contains(i, j)
  }

  /** cover_corners: copy the image, then black out the four corner rectangles of the
      copy in place. The caller's image is not changed. */
  method CoverCorners(image: array2<Rgb>, longEdge: int) returns (a: array2<Rgb>)
    ensures fresh(a)
    ensures a.Length0 == image.Length0 && a.Length1 == image.Length1
    ensures forall i, j :: 0 <= i < a.Length0 && 0 <= j < a.Length1 ==>
      a[i, j] == if InCorners(i, j, a.Length0, a.Length1, longEdge) then BLACK else image[i, j]
  {
    a := CopyImage(image);
    var rects := CornerRects(a.Length0, a.Length1, longEdge);
    ZeroRect(a, rects[0]);
    ZeroRect(a, rects[1]);
    ZeroRect(a, rects[2]);
    ZeroRect(a, rects[3]);
  }

  /** For a non-negative long edge the truncated sizes are plain integer divisions. */
  lemma CornerRectsForLongEdge(h: nat, w: nat, longEdge: int)
    requires longEdge >= 0
    ensures var k75, k80, k90 := 75 * longEdge / 2100, 80 * longEdge / 2100, 90 * longEdge / 2100;
      CornerRects(h, w, longEdge) ==
        [ SliceRect(0, k75, 0, k80, h, w),
          SliceRect(-k90, h, 0, k90, h, w),
          SliceRect(-k90, h, -k90, w, h, w),
          SliceRect(0, k80, -k80, w, h, w) ]
  {
    CornerSizeForLongEdge(75, longEdge);
    CornerSizeForLongEdge(80, longEdge);
    CornerSizeForLongEdge(90, longEdge);
  }

  /** Membership in the four corner slices for given sizes, with k90 >= 1. */
  lemma CornerSlices(i: int, j: int, h: nat, w: nat, k75: int, k80: int, k90: int)
    requires 0 <= i < h && 0 <= j < w && k75 >= 0 && k80 >= 0 && k90 >= 1
    ensures SliceRect(0, k75, 0, k80, h, w).Contains(i, j) <==> i < k75 && j < k80
    ensures SliceRect(-k90, h, 0, k90, h, w).Contains(i, j) <==> i >= h - k90 && j < k90
    ensures SliceRect(-k90, h, -k90, w, h, w).Contains(i, j) <==> i >= h - k90 && j >= w - k90
    ensures SliceRect(0, k80, -k80, w, h, w).Contains(i, j) <==> i < k80 && j >= w - k80
  {
  }

  /** For a long edge of at least 24 pixels (so that int(90 s) >= 1), the corners are:
      the first 75s rows by the first 80s columns, the last 90s rows by the first and
      by the last 90s columns, and the first 80s rows by the last 80s columns, each
      size rounded down and clipped to the image. */
  lemma CornerRegions(i: int, j: int, h: nat, w: nat, longEdge: int)
    requires 0 <= i < h && 0 <= j < w && longEdge >= 24
    ensures var k75, k80, k90 := 75 * longEdge / 2100, 80 * longEdge / 2100, 90 * longEdge / 2100;
      InCorners(i, j, h, w, longEdge) <==>
        (i < k75 && j < k80) || (i >= h - k90 && j < k90) ||
        (i >= h - k90 && j >= w - k90) || (i < k80 && j >= w - k80)
  {
    CornerRectsForLongEdge(h, w, longEdge);
    var k75, k80, k90 := 75 * longEdge / 2100, 80 * longEdge / 2100, 90 * longEdge / 2100;
    assert k90 >= 1;
    CornerSlices(i, j, h, w, k75, k80, k90);
  }

  /** With a long edge of at most 23 pixels, int(-90 s) is 0, so the bottom-right slice
      `image[0:, 0:]` is the whole image and everything is blacked out. */
  lemma CornersCoverAllForTinyLongEdge(i: int, j: int, h: nat, w: nat, longEdge: int)
    requires 0 <= i < h && 0 <= j < w && 0 <= longEdge <= 23
    ensures InCorners(i, j, h, w, longEdge)
  {
    CornerRectsForLongEdge(h, w, longEdge);
    assert 90 * longEdge / 2100 == 0;
  }

  // ---------------------------------------------------------------------------
  // remove_art_credit

  /** The artist-credit slice: `[850:1401, -65:]` for a portrait image (width < height),
      `[-60:, 710:1261]` otherwise. */
  function ArtCreditRect(h: nat, w: nat): (rect: Rect)
    ensures rect.bottom <= h && rect.right <= w
  {
    if w < h then SliceRect(850, 1401, -65, w, h, w)
    else SliceRect(-60, h, 710, 1261, h, w)
  }

  /** The blacked-out region in plain terms, clipped to the image bounds. */
  lemma ArtCreditRegion(i: int, j: int, h: nat, w: nat)
    requires 0 <= i < h && 0 <= j < w
    ensures ArtCreditRect(h, w).Contains(i, j) <==>
      if w < h then 850 <= i <= 1400 && j >= w - 65
      else i >= h - 60 && 710 <= j <= 1260
  {
  }

  /** remove_art_credit: copy the image, then black out the credit rectangle of the copy
      in place. The caller's image is not changed. */
  method RemoveArtCredit(image: array2<Rgb>) returns (a: array2<Rgb>)
    ensures fresh(a)
    ensures a.Length0 == image.Length0 && a.Length1 == image.Length1
    ensures forall i, j :: 0 <= i < a.Length0 && 0 <= j < a.Length1 ==>
      a[i, j] == if ArtCreditRect(a.Length0, a.Length1).Contains(i, j) then BLACK else image[i, j]
  {
    a := CopyImage(image);
    ZeroRect(a, ArtCreditRect(a.Length0, a.Length1));
  }

  // ---------------------------------------------------------------------------
  // add_bleed

  /** numpy.repeat along an axis: every element of `s` repeated n times, in order. */
  function RepeatEach<T>(s: seq<T>, n: nat): (r: seq<T>)
    ensures |r| == |s| * n
  {
    if s == [] then [] else seq(n, _ => s[0]) + RepeatEach(s[1..], n)
  }

  /** The first element as a slice `s[0:1]` (empty when s is). */
  function Head<T>(s: seq<T>): (r: seq<T>)
    ensures |s| > 0 ==> r == [s[0]]
    ensures |s| == 0 ==> r == []
  {
    s[..SliceBound(1, |s|)]
  }

  /** The last element as a slice `s[-1:len(s)]` (empty when s is). */
  function Tail<T>(s: seq<T>): (r: seq<T>)
    ensures |s| > 0 ==> r == [s[|s| - 1]]
    ensures |s| == 0 ==> r == []
  {
    s[SliceBound(-1, |s|)..]
  }

  /** One row with its first and last pixel repeated b times on either side. */
  function ExtendRow(row: seq<Rgb>, b: nat): (r: seq<Rgb>)
    ensures |row| > 0 ==> |r| == |row| + 2 * b
    ensures |row| == 0 ==> r == []
  {
    RepeatEach(Head(row), b) + row + RepeatEach(Tail(row), b)
  }

  /** add_bleed with the bleed already converted to pixels: repeat the first and last
      rows b times above and below, then the first and last columns b times on the
      left and right. */
  function AddBleed(img: seq<seq<Rgb>>, b: nat): (r: seq<seq<Rgb>>)
    ensures |img| > 0 ==> |r| == |img| + 2 * b
    ensures |img| == 0 ==> r == []
  {
    var tall := RepeatEach(Head(img), b) + img + RepeatEach(Tail(img), b);
    seq(|tall|, i requires 0 <= i < |tall| => ExtendRow(tall[i], b))
  }

  predicate IsRectangular(img: seq<seq<Rgb>>, w: nat) {
    forall i :: 0 <= i < |img| ==> |img[i]| == w
  }

  function ClampIndex(k: int, n: nat): (r: nat)
    requires n > 0
    ensures r < n
  {
    if k < 0 then 0 else if k >= n then n - 1 else k
  }

  lemma RepeatSingleton<T>(x: T, n: nat)
    ensures RepeatEach([x], n) == seq(n, _ => x)
  {
    assert [x][1..] == [];
  }

  /** Every pixel of an extended row is the nearest pixel of the original row. */
  lemma ExtendRowAt(row: seq<Rgb>, b: nat, j: int)
    requires |row| > 0 && 0 <= j < |row| + 2 * b
    ensures |ExtendRow(row, b)| == |row| + 2 * b
    ensures ExtendRow(row, b)[j] == row[ClampIndex(j - b, |row|)]
  {
    assert Head(row) == [row[0]];
    assert Tail(row) == [row[|row| - 1]];
    RepeatSingleton(row[0], b);
    RepeatSingleton(row[|row| - 1], b);
  }

  /** add_bleed returns an (h + 2b) x (w + 2b) image whose every pixel is the nearest
      pixel of the input: out[i][j] = in[clamp(i - b)][clamp(j - b)]. */
  lemma AddBleedAt(img: seq<seq<Rgb>>, w: nat, b: nat, i: int, j: int)
    requires |img| > 0 && w > 0 && IsRectangular(img, w)
    requires 0 <= i < |img| + 2 * b && 0 <= j < w + 2 * b
    ensures |AddBleed(img, b)| == |img| + 2 * b
    ensures |AddBleed(img, b)[i]| == w + 2 * b
    ensures AddBleed(img, b)[i][j] == img[ClampIndex(i - b, |img|)][ClampIndex(j - b, w)]
  {
    var h := |img|;
    var tall := RepeatEach(Head(img), b) + img + RepeatEach(Tail(img), b);
    assert Head(img) == [img[0]];
    assert Tail(img) == [img[h - 1]];
    RepeatSingleton(img[0], b);
    RepeatSingleton(img[h - 1], b);
    assert tall[i] == img[ClampIndex(i - b, h)];
    ExtendRowAt(tall[i], b, j);
  }

  /** The interior of the bled image is the input itself. */
  lemma AddBleedInterior(img: seq<seq<Rgb>>, w: nat, b: nat, i: int, j: int)
    requires |img| > 0 && w > 0 && IsRectangular(img, w)
    requires 0 <= i < |img| && 0 <= j < w
    ensures AddBleed(img, b)[i + b][j + b] == img[i][j]
  {
    AddBleedAt(img, w, b, i + b, j + b);
  }

  /** `round(bleed_inches * long_edge / 3.46457)`, the bleed in pixels. */
  function BleedPixels(h: nat, w: nat, bleedInches: real): (n: int)
    ensures bleedInches >= 0.0 ==> n >= 0
  {
    var longEdge := if h > w then h else w;
    var ppi := longEdge as real / 3.46457;
    if bleedInches > 0.0 && ppi > 0.0 then
      ProductSign(ppi, bleedInches);
      RoundHalfEven(bleedInches * ppi)
    else RoundHalfEven(bleedInches * ppi)
  }

  /** add_bleed as called with inches on an image of width w, whose height and width give
      the long edge; numpy.repeat refuses a negative count. */
  function AddBleedInches(img: seq<seq<Rgb>>, w: nat, bleedInches: real): (r: Option<seq<seq<Rgb>>>)
    requires IsRectangular(img, w)
    ensures r.Some? <==> BleedPixels(|img|, w, bleedInches) >= 0
  {
    var b := BleedPixels(|img|, w, bleedInches);
    if b < 0 then None else Some(AddBleed(img, b))
  }

  datatype Option<T> = None | Some(value: T)
}
