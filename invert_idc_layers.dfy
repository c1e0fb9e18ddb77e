/** Properties of the two-stage removal of the IDC luminosity and colour layers
    (invert_idc_layers.py, whose rgb_to_hcy, hcy_to_rgb and invert_opacity are the
    same code as colorspace.py and print_cards.py, and so are modelled once, by
    ColorSpace and PrintCards). The lemmas below eliminate HCY from the pipeline:
    stage 1 shifts the visible pixel so that its luma becomes 99, stage 2 replaces the
    stage-1 pixel by its own rounded grey. */
module IdcLayers {
  import opened Numeric
  import opened ColorSpace
  import opened PrintCards

  /** The luma of an 8-bit pixel on the 0-255 scale, where it is 0.30 R + 0.59 G + 0.11 B. */
  function Luma255(p: Rgb): (y: real)
    requires p.Valid()
    ensures 0.0 <= y <= 255.0
  {
    255.0 * Luma(Normalise(p))
  }

  lemma Luma255IsScaledLuma(p: Rgb)
    requires p.Valid()
    ensures Luma255(p) == 255.0 * RgbToHcy(p).luma
  {
  }

  /** Both overlay colours are grey: hue 0, chroma 0, and luma 99/255 and 96/255. */
  lemma LayerColoursInHcy()
    ensures RgbToHcy(LUMINOSITY_LAYER) == Hcy(0.0, 0.0, 99.0 / 255.0)
    ensures RgbToHcy(COLOR_LAYER) == Hcy(0.0, 0.0, 96.0 / 255.0)
  {
    HueCases(Normalise(LUMINOSITY_LAYER));
    HueCases(Normalise(COLOR_LAYER));
  }

  /** Stage 1 keeps the visible pixel's hue and chroma and sets its luma to that of the
      layer, in HCY. Back in RGB, that is every channel of the visible pixel moved by the
      same amount, then rounded and clamped. */
  lemma LuminosityTopOffset(v: Rgb, layer: Hcy)
    requires v.Valid()
    ensures LuminosityTop(v, layer) == Shifted(v, LumaOffset(v, layer.luma))
  {
    LumaSubstitution(v, layer.luma);
  }

  /** The amount stage 1 moves every channel of v: 99 minus the luma of v, on the
      0-255 scale. */
  function LuminosityShift(v: Rgb): (d: real)
    requires v.Valid()
    ensures -156.0 <= d <= 99.0
    ensures 0.30 * (v.r as real + d) + 0.59 * (v.g as real + d) + 0.11 * (v.b as real + d) == 99.0
  {
    99.0 - Luma255(v)
  }

  /** Setting the luma to the luminosity layer's 99/255 moves every channel by
      LuminosityShift. */
  lemma LumaOffsetToLayer(v: Rgb, layer: Hcy)
    requires v.Valid() && layer.luma == 99.0 / 255.0
    ensures LumaOffset(v, layer.luma) == LuminosityShift(v)
  {
    Luma255IsScaledLuma(v);
  }

  /** With the luminosity layer's luma 99/255, stage 1 adds 99 minus the visible
      pixel's luma to every channel before rounding. */
  lemma LuminosityTopShift(v: Rgb, layer: Hcy)
    requires v.Valid() && layer.luma == 99.0 / 255.0
    ensures LuminosityTop(v, layer) == Shifted(v, LuminosityShift(v))
  {
    LuminosityTopOffset(v, layer);
    LumaOffsetToLayer(v, layer);
  }

  /** A grey pixel shifted by 99 minus its own value is grey 99. */
  lemma GreyShiftedToLayer(k: int)
    requires 0 <= k <= 255
    ensures Shifted(Grey(k), LuminosityShift(Grey(k))) == LUMINOSITY_LAYER
  {
    assert LuminosityShift(Grey(k)) == 99.0 - k as real;
    RoundOfInteger(99);
  }

  /** For a grey visible pixel the stage-1 reconstruction is exactly the layer colour. */
  lemma LuminosityTopOfGrey(k: int, layer: Hcy)
    requires 0 <= k <= 255 && layer.luma == 99.0 / 255.0
    ensures LuminosityTop(Grey(k), layer) == LUMINOSITY_LAYER
  {
    LuminosityTopShift(Grey(k), layer);
    GreyShiftedToLayer(k);
  }

  /** A grey HCY pixel (hue 0, chroma 0) converts to the grey round(255 luma). */
  lemma AchromaticToRgb(y: real)
    requires 0.0 <= y <= 1.0
    ensures HcyToRgb(Hcy(0.0, 0.0, y)) == Grey(RoundHalfEven(255.0 * y))
  {
    ProvisionalTable(0.0, 0.0);
  }

  /** Stage 2 reconstructs a grey pixel: the rounded luma of the stage-1 pixel. */
  lemma ColorTopIsGrey(s: Rgb, layer: Hcy)
    requires s.Valid() && layer.hue == 0.0 && layer.chroma == 0.0
    ensures ColorTop(s, layer) == Grey(RoundHalfEven(Luma255(s)))
  {
    var q := RgbToHcy(s);
    assert q.(hue := 0.0, chroma := 0.0) == Hcy(0.0, 0.0, q.luma);
    AchromaticToRgb(q.luma);
  }

  /** The colour stage leaves a grey pixel unchanged. */
  lemma ColorStageKeepsGrey(k: int, layer: Hcy)
    requires 0 <= k <= 255 && layer.hue == 0.0 && layer.chroma == 0.0
    ensures RemoveColorLayer(Grey(k), layer) == Grey(k)
  {
    ColorTopIsGrey(Grey(k), layer);
    assert Luma255(Grey(k)) == k as real;
    RoundOfInteger(k);
    var u := Unblend(k as real, k as real, COLOR_OPACITY);
    assert 0.74 * (u - k as real) == 0.0;
  }

  /** On a grey pixel the whole pipeline is the inverse of a blend with grey 99 at 0.08. */
  lemma InvertIdcPixelOfGrey(k: int)
    requires 0 <= k <= 255
    ensures var s := InvertOpacitySample(k as real, 99.0, LUMINOSITY_OPACITY);
      InvertIdcPixel(Grey(k)) == Grey(s)
  {
    var layer := RgbToHcy(LUMINOSITY_LAYER);
    LayerColoursInHcy();
    LuminosityTopOfGrey(k, layer);
    var s := InvertOpacitySample(k as real, 99.0, LUMINOSITY_OPACITY);
    assert RemoveLuminosityLayer(Grey(k), layer) == Grey(s);
    ColorStageKeepsGrey(s, RgbToHcy(COLOR_LAYER));
  }

  /** The pipeline without HCY: stage 1 inverts a blend with the luma-shifted visible
      pixel at 0.08, stage 2 inverts a blend with the rounded grey of the result at 0.26. */
  lemma InvertIdcPixelClosedForm(v: Rgb)
    requires v.Valid()
    ensures var top1 := Shifted(v, LuminosityShift(v));
      var s := InvertOpacity(v, top1, LUMINOSITY_OPACITY);
      InvertIdcPixel(v) == InvertOpacity(s, Grey(RoundHalfEven(Luma255(s))), COLOR_OPACITY)
  {
    var layer := RgbToHcy(LUMINOSITY_LAYER);
    LayerColoursInHcy();
    LuminosityTopShift(v, layer);
    ColorTopIsGrey(RemoveLuminosityLayer(v, layer), RgbToHcy(COLOR_LAYER));
  }

  /** Moving every channel of a pixel by the same amount does not change its stage-1
      reconstruction: the shift towards luma 99 absorbs the move. */
  lemma LuminosityTopOfUniformMove(p: Rgb, v: Rgb, delta: real, layer: Hcy)
    requires p.Valid() && v.Valid() && layer.luma == 99.0 / 255.0
    requires v.r as real == p.r as real + delta
    requires v.g as real == p.g as real + delta
    requires v.b as real == p.b as real + delta
    ensures LuminosityTop(v, layer) == LuminosityTop(p, layer)
  {
    LuminosityTopShift(v, layer);
    LuminosityTopShift(p, layer);
    assert LuminosityShift(v) == LuminosityShift(p) - delta;
    ShiftedAgree(v, LuminosityShift(v), p, LuminosityShift(p));
  }

  /** Two shifts that land every channel on the same value give the same pixel. */
  lemma ShiftedAgree(v: Rgb, a: real, p: Rgb, b: real)
    requires v.r as real + a == p.r as real + b
    requires v.g as real + a == p.g as real + b
    requires v.b as real + a == p.b as real + b
    ensures Shifted(v, a) == Shifted(p, b)
  {
  }

  /** Stage 1 undoes the luminosity layer. If the visible pixel v is exactly the blend
      at 0.08 of the original pixel p under p's own luminosity overlay, and that overlay
      moves the three channels of p by the same amount (nothing clamped, no rounding
      tie), then stage 1 returns p. */
  lemma RemoveLuminosityOfForward(p: Rgb, v: Rgb, layer: Hcy)
    requires p.Valid() && v.Valid() && layer.luma == 99.0 / 255.0
    requires var top := LuminosityTop(p, layer);
      top.g - p.g == top.r - p.r && top.b - p.b == top.r - p.r
    requires var top := LuminosityTop(p, layer);
      && v.r as real == 0.08 * top.r as real + 0.92 * p.r as real
      && v.g as real == 0.08 * top.g as real + 0.92 * p.g as real
      && v.b as real == 0.08 * top.b as real + 0.92 * p.b as real
    ensures RemoveLuminosityLayer(v, layer) == p
  {
    var top := LuminosityTop(p, layer);
    var e := top.r - p.r;
    LuminosityTopOfUniformMove(p, v, 0.08 * e as real, layer);
    InvertOpacityInverse(v.r as real, p.r, top.r as real, 0.08);
    InvertOpacityInverse(v.g as real, p.g, top.g as real, 0.08);
    InvertOpacityInverse(v.b as real, p.b, top.b as real, 0.08);
  }

  /** Stage 2 undoes the colour layer. If s is exactly the blend at 0.26 of the original
      pixel p under p's own colour overlay (the grey of p's rounded luma), then s
      rounds to the same grey, and stage 2 returns p. */
  lemma RemoveColorOfForward(p: Rgb, s: Rgb, layer: Hcy)
    requires p.Valid() && s.Valid() && layer.hue == 0.0 && layer.chroma == 0.0
    requires var top := ColorTop(p, layer);
      && s.r as real == 0.26 * top.r as real + 0.74 * p.r as real
      && s.g as real == 0.26 * top.g as real + 0.74 * p.g as real
      && s.b as real == 0.26 * top.b as real + 0.74 * p.b as real
    ensures RemoveColorLayer(s, layer) == p
  {
    var k := RoundHalfEven(Luma255(p));
    ColorTopIsGrey(p, layer);
    ColorTopIsGrey(s, layer);
    assert Luma255(s) == 0.26 * k as real + 0.74 * Luma255(p);
    RoundHalfEvenUnique(Luma255(s), k);
    InvertOpacityInverse(s.r as real, p.r, k as real, 0.26);
    InvertOpacityInverse(s.g as real, p.g, k as real, 0.26);
    InvertOpacityInverse(s.b as real, p.b, k as real, 0.26);
  }

  /** One channel of stage 2 under a rounded blend: the channel is within 0.5 of its blend
      over grey k, and the grey rebuilt from it is within 1 of k. Unblending then lands
      less than 1.5 from the original, so the output is within 1 of it. */
  lemma ColorChannelOfRoundedBlend(sc: int, pc: int, k: int, k2: int)
    requires 0 <= pc <= 255 && -1 <= k2 - k <= 1
    requires -0.5 <= sc as real - (0.26 * k as real + 0.74 * pc as real) <= 0.5
    ensures pc - 1 <= InvertOpacitySample(sc as real, k2 as real, COLOR_OPACITY) <= pc + 1
  {
    var u := Unblend(sc as real, k2 as real, COLOR_OPACITY);
    assert 0.74 * u == sc as real - 0.26 * k2 as real;
    RoundClampNear(u, pc);
  }

  /** Rounding every channel of the blend moves the 0-255 luma by at most 0.5, and the
      blend keeps 0.74 of the original's distance from k, so the rebuilt grey is within
      1 of k. */
  lemma LumaOfRoundedBlend(p: Rgb, s: Rgb, k: int)
    requires p.Valid() && s.Valid()
    requires -0.5 <= Luma255(p) - k as real <= 0.5
    requires -0.5 <= s.r as real - (0.26 * k as real + 0.74 * p.r as real) <= 0.5
    requires -0.5 <= s.g as real - (0.26 * k as real + 0.74 * p.g as real) <= 0.5
    requires -0.5 <= s.b as real - (0.26 * k as real + 0.74 * p.b as real) <= 0.5
    ensures -1 <= RoundHalfEven(Luma255(s)) - k <= 1
  {
    assert Luma255(s) == 0.30 * s.r as real + 0.59 * s.g as real + 0.11 * s.b as real;
    assert Luma255(p) == 0.30 * p.r as real + 0.59 * p.g as real + 0.11 * p.b as real;
    assert -0.87 <= Luma255(s) - k as real <= 0.87;
  }

  /** Stage 2 under a rounded colour blend: if s is p blended at 0.26 under p's own colour
      overlay and rounded to 8 bits, stage 2 returns every channel of p to within 1. */
  lemma RemoveColorOfRoundedForward(p: Rgb, s: Rgb, layer: Hcy)
    requires p.Valid() && s.Valid() && layer.hue == 0.0 && layer.chroma == 0.0
    requires var top := ColorTop(p, layer);
      && s.r == RoundHalfEven(0.26 * top.r as real + 0.74 * p.r as real)
      && s.g == RoundHalfEven(0.26 * top.g as real + 0.74 * p.g as real)
      && s.b == RoundHalfEven(0.26 * top.b as real + 0.74 * p.b as real)
    ensures var w := RemoveColorLayer(s, layer);
      && p.r - 1 <= w.r <= p.r + 1
      && p.g - 1 <= w.g <= p.g + 1
      && p.b - 1 <= w.b <= p.b + 1
  {
    ColorTopIsGrey(p, layer);
    ColorTopIsGrey(s, layer);
    ColorStageOfRoundedBlend(p, s, RoundHalfEven(Luma255(p)));
  }

  /** The same without HCY: s is within 0.5 of p blended over the grey k nearest p's luma;
      unblending s against the grey nearest s's luma gives p to within 1. */
  lemma ColorStageOfRoundedBlend(p: Rgb, s: Rgb, k: int)
    requires p.Valid() && s.Valid()
    requires -0.5 <= Luma255(p) - k as real <= 0.5
    requires -0.5 <= s.r as real - (0.26 * k as real + 0.74 * p.r as real) <= 0.5
    requires -0.5 <= s.g as real - (0.26 * k as real + 0.74 * p.g as real) <= 0.5
    requires -0.5 <= s.b as real - (0.26 * k as real + 0.74 * p.b as real) <= 0.5
    ensures var w := InvertOpacity(s, Grey(RoundHalfEven(Luma255(s))), COLOR_OPACITY);
      && p.r - 1 <= w.r <= p.r + 1
      && p.g - 1 <= w.g <= p.g + 1
      && p.b - 1 <= w.b <= p.b + 1
  {
    LumaOfRoundedBlend(p, s, k);
    var k2 := RoundHalfEven(Luma255(s));
    ColorChannelOfRoundedBlend(s.r, p.r, k, k2);
    ColorChannelOfRoundedBlend(s.g, p.g, k, k2);
    ColorChannelOfRoundedBlend(s.b, p.b, k, k2);
  }

  /** invert_idc_layers returns the original image: if the card was made by blending the
      colour layer over the original p (giving s) and then the luminosity layer over s
      (giving the visible v), each blend exact and the luminosity overlay a uniform move
      of s, the pipeline applied to v gives back p. */
  lemma InvertIdcRecovers(p: Rgb, s: Rgb, v: Rgb)
    requires p.Valid() && s.Valid() && v.Valid()
    requires var top := ColorTop(p, RgbToHcy(COLOR_LAYER));
      && s.r as real == 0.26 * top.r as real + 0.74 * p.r as real
      && s.g as real == 0.26 * top.g as real + 0.74 * p.g as real
      && s.b as real == 0.26 * top.b as real + 0.74 * p.b as real
    requires var top := LuminosityTop(s, RgbToHcy(LUMINOSITY_LAYER));
      top.g - s.g == top.r - s.r && top.b - s.b == top.r - s.r
    requires var top := LuminosityTop(s, RgbToHcy(LUMINOSITY_LAYER));
      && v.r as real == 0.08 * top.r as real + 0.92 * s.r as real
      && v.g as real == 0.08 * top.g as real + 0.92 * s.g as real
      && v.b as real == 0.08 * top.b as real + 0.92 * s.b as real
    ensures InvertIdcPixel(v) == p
  {
    LayerColoursInHcy();
    RemoveLuminosityOfForward(s, v, RgbToHcy(LUMINOSITY_LAYER));
    RemoveColorOfForward(p, s, RgbToHcy(COLOR_LAYER));
  }

  /** A non-grey card for which the recovery applies: the original (24, 174, 124) under
      the colour layer is (50, 161, 124), which under the luminosity layer is seen as
      (48, 159, 122); the pipeline turns (48, 159, 122) back into (24, 174, 124). */
  lemma InvertIdcRecoversExample()
    ensures InvertIdcPixel(Rgb(48, 159, 122)) == Rgb(24, 174, 124)
  {
    var p, s, v := Rgb(24, 174, 124), Rgb(50, 161, 124), Rgb(48, 159, 122);
    var lum, col := RgbToHcy(LUMINOSITY_LAYER), RgbToHcy(COLOR_LAYER);
    LayerColoursInHcy();
    RecoveryExampleAt(p, s, v, lum, col);
  }

  /** The same card with its pixels and layers as variables, so that the conversions
      are not evaluated on constants. */
  lemma RecoveryExampleAt(p: Rgb, s: Rgb, v: Rgb, lum: Hcy, col: Hcy)
    requires p.r == 24 && p.g == 174 && p.b == 124
    requires s.r == 50 && s.g == 161 && s.b == 124
    requires v.r == 48 && v.g == 159 && v.b == 122
    requires lum.luma == 99.0 / 255.0 && col.hue == 0.0 && col.chroma == 0.0
    ensures RemoveLuminosityLayer(v, lum) == s
    ensures RemoveColorLayer(s, col) == p
  {
    ColorOverlayExample(p, col);
    RemoveColorOfForward(p, s, col);
    LuminosityOverlayExample(s, lum);
    RemoveLuminosityOfForward(s, v, lum);
  }

  /** The colour overlay of (24, 174, 124): its luma is exactly 123.5, which rounds to
      the even 124. */
  lemma ColorOverlayExample(p: Rgb, layer: Hcy)
    requires p.r == 24 && p.g == 174 && p.b == 124 && layer.hue == 0.0 && layer.chroma == 0.0
    ensures ColorTop(p, layer) == Grey(124)
  {
    ColorTopIsGrey(p, layer);
    assert Luma255(p) == 123.5;
    RoundHalfEvenUnique(123.5, 124);
  }

  /** The luminosity overlay of (50, 161, 124): its luma is 123.63, so every channel
      moves by -24.63, giving (25, 136, 99). */
  lemma LuminosityOverlayExample(s: Rgb, layer: Hcy)
    requires s.r == 50 && s.g == 161 && s.b == 124 && layer.luma == 99.0 / 255.0
    ensures LuminosityTop(s, layer) == Rgb(25, 136, 99)
  {
    assert Shifted(s, LuminosityShift(s)) == Rgb(25, 136, 99) by {
      assert LuminosityShift(s) == -24.63;
      RoundHalfEvenUnique(25.37, 25);
      RoundHalfEvenUnique(136.37, 136);
      RoundHalfEvenUnique(99.37, 99);
    }
    LuminosityTopShift(s, layer);
  }

  /** The two stages do not commute: on the visible pixel (10, 200, 30), removing the
      luminosity layer first (as the pipeline does) gives (0, 229, 0), while removing
      the colour layer first would give (0, 230, 0). */
  lemma StageOrderMatters()
    ensures InvertIdcPixel(Rgb(10, 200, 30)) == Rgb(0, 229, 0)
    ensures RemoveLuminosityLayer(RemoveColorLayer(Rgb(10, 200, 30), RgbToHcy(COLOR_LAYER)),
                                  RgbToHcy(LUMINOSITY_LAYER)) == Rgb(0, 230, 0)
  {
    var v := Rgb(10, 200, 30);
    var lum, col := RgbToHcy(LUMINOSITY_LAYER), RgbToHcy(COLOR_LAYER);
    LayerColoursInHcy();
    LuminosityStageExample(v, lum);
    ColorStageExample(RemoveLuminosityLayer(v, lum), col);
    ColorStageFirstExample(v, col);
    LuminosityStageSecondExample(RemoveColorLayer(v, col), lum);
  }

  /** Stage 1 on the visible pixel (10, 200, 30): its luma is 124.3, so every channel
      moves by -25.3 and the reconstruction is (0, 175, 5). */
  lemma LuminosityTopExample(v: Rgb, layer: Hcy)
    requires v.r == 10 && v.g == 200 && v.b == 30 && layer.luma == 99.0 / 255.0
    ensures LuminosityTop(v, layer) == Rgb(0, 175, 5)
  {
    assert Shifted(v, LuminosityShift(v)) == Rgb(0, 175, 5) by {
      assert LuminosityShift(v) == -25.3;
      RoundHalfEvenUnique(-15.3, -15);
      RoundHalfEvenUnique(174.7, 175);
      RoundHalfEvenUnique(4.7, 5);
    }
    LuminosityTopShift(v, layer);
  }

  /** Unblending (0, 175, 5) at 0.08 from (10, 200, 30) gives (11, 202, 32). */
  lemma LuminosityStageExample(v: Rgb, layer: Hcy)
    requires v.r == 10 && v.g == 200 && v.b == 30 && layer.luma == 99.0 / 255.0
    ensures RemoveLuminosityLayer(v, layer) == Rgb(11, 202, 32)
  {
    assert InvertOpacity(v, Rgb(0, 175, 5), LUMINOSITY_OPACITY) == Rgb(11, 202, 32) by {
      assert Unblend(10.0, 0.0, 0.08) == 10.0 / 0.92;
      assert Unblend(200.0, 175.0, 0.08) == 186.0 / 0.92;
      assert Unblend(30.0, 5.0, 0.08) == 29.6 / 0.92;
      RoundHalfEvenUnique(10.0 / 0.92, 11);
      RoundHalfEvenUnique(186.0 / 0.92, 202);
      RoundHalfEvenUnique(29.6 / 0.92, 32);
    }
    LuminosityTopExample(v, layer);
  }

  /** Stage 2 on (11, 202, 32): its luma is 126, and unblending grey 126 at 0.26
      clamps red and blue to 0. */
  lemma ColorStageExample(s: Rgb, layer: Hcy)
    requires s.r == 11 && s.g == 202 && s.b == 32 && layer.hue == 0.0 && layer.chroma == 0.0
    ensures RemoveColorLayer(s, layer) == Rgb(0, 229, 0)
  {
    ColorTopIsGrey(s, layer);
    assert Luma255(s) == 126.0;
    RoundOfInteger(126);
    assert Unblend(11.0, 126.0, 0.26) == -21.76 / 0.74;
    assert Unblend(202.0, 126.0, 0.26) == 169.24 / 0.74;
    assert Unblend(32.0, 126.0, 0.26) == -0.76 / 0.74;
    RoundHalfEvenUnique(-21.76 / 0.74, -29);
    RoundHalfEvenUnique(169.24 / 0.74, 229);
    RoundHalfEvenUnique(-0.76 / 0.74, -1);
  }

  /** The colour stage applied first to (10, 200, 30): its luma 124.3 rounds to 124. */
  lemma ColorStageFirstExample(v: Rgb, layer: Hcy)
    requires v.r == 10 && v.g == 200 && v.b == 30 && layer.hue == 0.0 && layer.chroma == 0.0
    ensures RemoveColorLayer(v, layer) == Rgb(0, 227, 0)
  {
    ColorTopIsGrey(v, layer);
    assert Luma255(v) == 124.3;
    RoundHalfEvenUnique(124.3, 124);
    assert Unblend(10.0, 124.0, 0.26) == -22.24 / 0.74;
    assert Unblend(200.0, 124.0, 0.26) == 167.76 / 0.74;
    assert Unblend(30.0, 124.0, 0.26) == -2.24 / 0.74;
    RoundHalfEvenUnique(-22.24 / 0.74, -30);
    RoundHalfEvenUnique(167.76 / 0.74, 227);
    RoundHalfEvenUnique(-2.24 / 0.74, -3);
  }

  /** The luminosity stage applied second, to (0, 227, 0): its luma is 133.93, and the
      reconstruction is (0, 192, 0). */
  lemma LuminosityTopSecondExample(s: Rgb, layer: Hcy)
    requires s.r == 0 && s.g == 227 && s.b == 0 && layer.luma == 99.0 / 255.0
    ensures LuminosityTop(s, layer) == Rgb(0, 192, 0)
  {
    assert Shifted(s, LuminosityShift(s)) == Rgb(0, 192, 0) by {
      assert LuminosityShift(s) == -34.93;
      RoundHalfEvenUnique(-34.93, -35);
      RoundHalfEvenUnique(192.07, 192);
    }
    LuminosityTopShift(s, layer);
  }

  /** Unblending (0, 192, 0) at 0.08 from (0, 227, 0) gives (0, 230, 0). */
  lemma LuminosityStageSecondExample(s: Rgb, layer: Hcy)
    requires s.r == 0 && s.g == 227 && s.b == 0 && layer.luma == 99.0 / 255.0
    ensures RemoveLuminosityLayer(s, layer) == Rgb(0, 230, 0)
  {
    assert InvertOpacity(s, Rgb(0, 192, 0), LUMINOSITY_OPACITY) == Rgb(0, 230, 0) by {
      RoundOfInteger(0);
      assert Unblend(227.0, 192.0, 0.08) == 211.64 / 0.92;
      RoundHalfEvenUnique(211.64 / 0.92, 230);
    }
    LuminosityTopSecondExample(s, layer);
  }
}
