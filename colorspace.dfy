/** The HCY colour space of colorspace.py: hue in degrees, chroma = max - min of the
    normalised channels, and luma = 0.30 R + 0.59 G + 0.11 B. Floating point is
    idealised as exact real arithmetic. The numpy code works on whole images with
    boolean masks; here each conversion is a function on one pixel, and the
    image-level operations apply it at every position of a height x width array. */
module ColorSpace {
  import opened Numeric

  /** One pixel of an 8-bit RGB image (the third axis of an (N, M, 3) uint8 array). */
  datatype Rgb = Rgb(r: int, g: int, b: int) {
    predicate Valid() {
      0 <= r <= 255 && 0 <= g <= 255 && 0 <= b <= 255
    }
    function Max(): int {
      if r >= g && r >= b then r else if g >= b then g else b
    }
    function Min(): int {
      if r <= g && r <= b then r else if g <= b then g else b
    }
  }

  /** A grey pixel: all three channels equal to `k`. */
  function Grey(k: int): Rgb {
    Rgb(k, k, k)
  }

  /** One pixel of an HCY image (float channels). */
  datatype Hcy = Hcy(hue: real, chroma: real, luma: real)

  /** Three float channels (normalised red, green, blue, or a provisional triple). */
  datatype Triple = Triple(r: real, g: real, b: real)

  /** `rgb_arr / 255`: an 8-bit pixel's channels as floats in [0, 1]. */
  function Normalise(p: Rgb): (t: Triple)
    ensures p.Valid() ==> 0.0 <= t.r <= 1.0 && 0.0 <= t.g <= 1.0 && 0.0 <= t.b <= 1.0
  {
    Triple(p.r as real / 255.0, p.g as real / 255.0, p.b as real / 255.0)
  }

  /** The luma weights are non-negative and sum to 1, so normalised channels give a
      luma in [0, 1]. */
  function Luma(t: Triple): (y: real)
    ensures 0.0 <= t.r <= 1.0 && 0.0 <= t.g <= 1.0 && 0.0 <= t.b <= 1.0 ==> 0.0 <= y <= 1.0
  {
    0.30 * t.r + 0.59 * t.g + 0.11 * t.b
  }

  function MaxOf(t: Triple): (m: real)
    ensures m == t.r || m == t.g || m == t.b
    ensures t.r <= m && t.g <= m && t.b <= m
  {
    if t.r >= t.g && t.r >= t.b then t.r else if t.g >= t.b then t.g else t.b
  }

  function MinOf(t: Triple): (m: real)
    ensures m == t.r || m == t.g || m == t.b
    ensures m <= t.r && m <= t.g && m <= t.b
  {
    if t.r <= t.g && t.r <= t.b then t.r else if t.g <= t.b then t.g else t.b
  }

  /** Chroma is never negative, and it is zero exactly when all channels are equal. */
  function Chroma(t: Triple): (c: real)
    ensures c >= 0.0
    ensures c == 0.0 <==> t.r == t.g == t.b
  {
    MaxOf(t) - MinOf(t)
  }

  /** The hue as rgb_to_hcy computes it: start from 0, then overwrite in the order
      red-is-max, green-is-max, blue-is-max (each only where chroma > 0), then add 360
      where the result is negative. */
  function HueOf(t: Triple): (h: real)
    ensures Chroma(t) == 0.0 ==> h == 0.0
  {
    var mx := MaxOf(t);
    var c := Chroma(t);
    var h0 := 0.0;
    var h1 := if t.r == mx && c > 0.0 then 60.0 * (t.g - t.b) / c else h0;
    var h2 := if t.g == mx && c > 0.0 then 60.0 * (2.0 + (t.b - t.r) / c) else h1;
    var h3 := if t.b == mx && c > 0.0 then 60.0 * (4.0 + (t.r - t.g) / c) else h2;
    if h3 < 0.0 then h3 + 360.0 else h3
  }

  /** The textbook reading of the same formula: the FIRST maximal channel in the order
      red, green, blue picks the branch. */
  function HueFirstMax(t: Triple): real {
    var mx := MaxOf(t);
    var c := Chroma(t);
    var h :=
      if c <= 0.0 then 0.0
      else if t.r == mx then 60.0 * (t.g - t.b) / c
      else if t.g == mx then 60.0 * (2.0 + (t.b - t.r) / c)
      else 60.0 * (4.0 + (t.r - t.g) / c);
    if h < 0.0 then h + 360.0 else h
  }

  /** The sign of a product with a positive factor. */
  lemma ProductSign(x: real, c: real)
    requires c > 0.0
    ensures x < 0.0 <==> x * c < 0.0
    ensures x == 0.0 <==> x * c == 0.0
  {
  }

  /** For c > 0, the ratio a / c and how it compares with -1, 0 and 1. */
  lemma Ratio(a: real, c: real)
    requires c > 0.0
    ensures a / c * c == a
    ensures a / c < 0.0 <==> a < 0.0
    ensures a / c == 0.0 <==> a == 0.0
    ensures a / c <= -1.0 <==> a <= -c
    ensures a / c >= 1.0 <==> a >= c
    ensures a / c == -1.0 <==> a == -c
    ensures a / c == 1.0 <==> a == c
  {
    var q := a / c;
    assert q * c == a;
    ProductSign(q, c);
    ProductSign(q + 1.0, c);
    ProductSign(q - 1.0, c);
    assert (q + 1.0) * c == a + c;
    assert (q - 1.0) * c == a - c;
  }

  /** Scaling the numerator scales the ratio: (k a) / c == k (a / c). */
  lemma ScaledRatio(k: real, a: real, c: real)
    requires c > 0.0
    ensures k * a / c == k * (a / c)
  {
    var q := a / c;
    Ratio(a, c);
    Ratio(k * a, c);
    ProductSign(k * a / c - k * q, c);
    assert (k * a / c - k * q) * c == k * a - k * (q * c);
  }

  /** What the overwrite chain in HueOf ends with, by the last maximal channel. */
  lemma HueCases(t: Triple)
    ensures Chroma(t) == 0.0 ==> HueOf(t) == 0.0
    ensures Chroma(t) > 0.0 && t.b == MaxOf(t) ==>
      HueOf(t) == 60.0 * (4.0 + (t.r - t.g) / Chroma(t)) &&
      -1.0 <= (t.r - t.g) / Chroma(t) <= 1.0
    ensures Chroma(t) > 0.0 && t.b < MaxOf(t) && t.g == MaxOf(t) ==>
      HueOf(t) == 60.0 * (2.0 + (t.b - t.r) / Chroma(t)) &&
      -1.0 <= (t.b - t.r) / Chroma(t) < 1.0
    ensures Chroma(t) > 0.0 && t.b < MaxOf(t) && t.g < MaxOf(t) ==>
      -1.0 < (t.g - t.b) / Chroma(t) < 1.0 &&
      HueOf(t) == (if t.g >= t.b then 60.0 * ((t.g - t.b) / Chroma(t))
                   else 60.0 * ((t.g - t.b) / Chroma(t)) + 360.0)
  {
    var c := Chroma(t);
    if c > 0.0 {
      Ratio(t.r - t.g, c);
      Ratio(t.b - t.r, c);
      Ratio(t.g - t.b, c);
      ScaledRatio(60.0, t.g - t.b, c);
    }
  }

  /** Hue always lies in [0, 360), whatever the channel values. */
  lemma HueRange(t: Triple)
    ensures 0.0 <= HueOf(t) < 360.0
  {
    HueCases(t);
  }

  /** When two channels tie for the maximum, the overwrite that wins in the code gives
      the same hue as the branch it overwrites, so the result does not depend on the
      order in which the masks are applied. */
  lemma HueOverwriteOrder(t: Triple)
    ensures HueOf(t) == HueFirstMax(t)
  {
    var c := Chroma(t);
    HueCases(t);
    if c > 0.0 {
      Ratio(t.r - t.g, c);
      Ratio(t.b - t.r, c);
      Ratio(t.g - t.b, c);
    }
  }

  /** rgb_to_hcy on one 8-bit pixel. */
  function RgbToHcy(p: Rgb): (q: Hcy)
    requires p.Valid()
    ensures 0.0 <= q.hue < 360.0
    ensures 0.0 <= q.chroma <= 1.0 && 0.0 <= q.luma <= 1.0
    ensures q.chroma == (p.Max() - p.Min()) as real / 255.0
    ensures q.chroma == 0.0 <==> p.r == p.g == p.b
    ensures q.chroma == 0.0 ==> q.hue == 0.0
  {
    var t := Normalise(p);
    assert t.r == t.g == t.b <==> p.r == p.g == p.b;
    assert Chroma(t) == (p.Max() - p.Min()) as real / 255.0;
    HueRange(t);
    HueCases(t);
    Hcy(HueOf(t), Chroma(t), Luma(t))
  }

  /** Pure red, green and blue sit at hue 0, 120 and 240. */
  lemma PrimaryHues(t: Triple)
    ensures t == Triple(1.0, 0.0, 0.0) ==> HueOf(t) == 0.0
    ensures t == Triple(0.0, 1.0, 0.0) ==> HueOf(t) == 120.0
    ensures t == Triple(0.0, 0.0, 1.0) ==> HueOf(t) == 240.0
  {
    HueCases(t);
    if Chroma(t) > 0.0 {
      Ratio(t.g - t.b, Chroma(t));
      Ratio(t.b - t.r, Chroma(t));
      Ratio(t.r - t.g, Chroma(t));
    }
  }

  /** The same for 8-bit pixels through rgb_to_hcy. */
  lemma PrimaryPixelHues(p: Rgb)
    requires p.Valid()
    ensures p.r == 255 && p.g == 0 && p.b == 0 ==> RgbToHcy(p).hue == 0.0
    ensures p.r == 0 && p.g == 255 && p.b == 0 ==> RgbToHcy(p).hue == 120.0
    ensures p.r == 0 && p.g == 0 && p.b == 255 ==> RgbToHcy(p).hue == 240.0
  {
    var t := Normalise(p);
    PrimaryHues(t);
    if p.r == 255 && p.g == 0 && p.b == 0 {
      assert t == Triple(1.0, 0.0, 0.0);
    } else if p.r == 0 && p.g == 255 && p.b == 0 {
      assert t == Triple(0.0, 1.0, 0.0);
    } else if p.r == 0 && p.g == 0 && p.b == 255 {
      assert t == Triple(0.0, 0.0, 1.0);
    }
  }

  function Abs(x: real): real {
    if x < 0.0 then -x else x
  }

  /** numpy.mod(x, 2) on floats: the remainder takes the sign of the divisor. */
  function Mod2(x: real): (r: real)
    ensures 0.0 <= r < 2.0
  {
    x - 2.0 * (x / 2.0).Floor as real
  }

  /** The second-largest provisional component X = C (1 - |(H' mod 2) - 1|), which
      lies between 0 and C. */
  function SecondComponent(huePrime: real, chroma: real): (x: real)
    ensures chroma >= 0.0 ==> 0.0 <= x <= chroma
  {
    var f := 1.0 - Abs(Mod2(huePrime) - 1.0);
    assert 0.0 <= f <= 1.0;
    if chroma > 0.0 then
      ProductSign(f, chroma);
      ProductSign(1.0 - f, chroma);
      chroma * f
    else chroma * f
  }

  /** The provisional (R1, G1, B1) of hcy_to_rgb: three zero channels, then one masked
      assignment per 60-degree sextant of H' = hue / 60, in the source's order. */
  function Provisional(hue: real, chroma: real): (t: Triple)
    ensures chroma >= 0.0 ==>
      0.0 <= t.r <= chroma && 0.0 <= t.g <= chroma && 0.0 <= t.b <= chroma
  {
    var hp := hue / 60.0;
    var x := SecondComponent(hp, chroma);
    var t0 := Triple(0.0, 0.0, 0.0);
    var t1 := if 0.0 <= hp <= 1.0 then t0.(r := chroma, g := x) else t0;
    var t2 := if 1.0 < hp <= 2.0 then t1.(r := x, g := chroma) else t1;
    var t3 := if 2.0 < hp <= 3.0 then t2.(b := x, g := chroma) else t2;
    var t4 := if 3.0 < hp <= 4.0 then t3.(b := chroma, g := x) else t3;
    var t5 := if 4.0 < hp <= 5.0 then t4.(b := chroma, r := x) else t4;
    if 5.0 < hp <= 6.0 then t5.(b := x, r := chroma) else t5
  }

  /** On each sextant X is linear in H': it rises from 0 to C on the odd-numbered
      sextants and falls from C to 0 on the even-numbered ones. */
  lemma SecondComponentBySextant(hp: real, c: real)
    ensures 0.0 <= hp <= 1.0 ==> SecondComponent(hp, c) == c * hp
    ensures 1.0 < hp <= 2.0 ==> SecondComponent(hp, c) == c * (2.0 - hp)
    ensures 2.0 < hp <= 3.0 ==> SecondComponent(hp, c) == c * (hp - 2.0)
    ensures 3.0 < hp <= 4.0 ==> SecondComponent(hp, c) == c * (4.0 - hp)
    ensures 4.0 < hp <= 5.0 ==> SecondComponent(hp, c) == c * (hp - 4.0)
    ensures 5.0 < hp <= 6.0 ==> SecondComponent(hp, c) == c * (6.0 - hp)
  {
    var k := (hp / 2.0).Floor;
    var x := SecondComponent(hp, c);
    if 0.0 <= hp <= 1.0 {
      assert k == 0 && x == c * (1.0 - (1.0 - hp));
    } else if 1.0 < hp < 2.0 {
      assert k == 0 && x == c * (1.0 - (hp - 1.0));
    } else if hp == 2.0 {
      assert k == 1 && x == c * 0.0;
    } else if 2.0 < hp <= 3.0 {
      assert k == 1 && x == c * (1.0 - (1.0 - (hp - 2.0)));
    } else if 3.0 < hp < 4.0 {
      assert k == 1 && x == c * (1.0 - (hp - 3.0));
    } else if hp == 4.0 {
      assert k == 2 && x == c * 0.0;
    } else if 4.0 < hp <= 5.0 {
      assert k == 2 && x == c * (1.0 - (1.0 - (hp - 4.0)));
    } else if 5.0 < hp < 6.0 {
      assert k == 2 && x == c * (1.0 - (hp - 5.0));
    } else if hp == 6.0 {
      assert k == 3 && x == c * 0.0;
    }
  }

  /** The six masks are disjoint, so at most one assignment fires: on each sextant the
      provisional triple is made of C, a linear X and 0, and outside [0, 360] it stays 0. */
  lemma ProvisionalTable(hue: real, c: real)
    ensures var hp := hue / 60.0; var t := Provisional(hue, c);
      && (0.0 <= hp <= 1.0 ==> t == Triple(c, c * hp, 0.0))
      && (1.0 < hp <= 2.0 ==> t == Triple(c * (2.0 - hp), c, 0.0))
      && (2.0 < hp <= 3.0 ==> t == Triple(0.0, c, c * (hp - 2.0)))
      && (3.0 < hp <= 4.0 ==> t == Triple(0.0, c * (4.0 - hp), c))
      && (4.0 < hp <= 5.0 ==> t == Triple(c * (hp - 4.0), 0.0, c))
      && (5.0 < hp <= 6.0 ==> t == Triple(c, 0.0, c * (6.0 - hp)))
      && (hp < 0.0 || hp > 6.0 ==> t == Triple(0.0, 0.0, 0.0))
  {
    var hp := hue / 60.0;
    SecondComponentBySextant(hp, c);
    var x := SecondComponent(hp, c);
    var t := Provisional(hue, c);
    if 0.0 <= hp <= 1.0 {
      assert t == Triple(c, x, 0.0);
    } else if 1.0 < hp <= 2.0 {
      assert t == Triple(x, c, 0.0);
    } else if 2.0 < hp <= 3.0 {
      assert t == Triple(0.0, c, x);
    } else if 3.0 < hp <= 4.0 {
      assert t == Triple(0.0, x, c);
    } else if 4.0 < hp <= 5.0 {
      assert t == Triple(x, 0.0, c);
    } else if 5.0 < hp <= 6.0 {
      assert t == Triple(c, 0.0, x);
    }
  }

  /** The triple before rounding: provisional channels shifted by m so that their luma
      is exactly the requested luma. */
  function Unrounded(q: Hcy): (t: Triple)
    ensures Luma(t) == q.luma
  {
    var t1 := Provisional(q.hue, q.chroma);
    var m := q.luma - (0.3 * t1.r + 0.59 * t1.g + 0.11 * t1.b);
    Triple(t1.r + m, t1.g + m, t1.b + m)
  }

  /** `(... * 255).round()` followed by a second `.round()`, which changes nothing. */
  function RoundTwice(x: real): (n: int)
    ensures n == RoundHalfEven(x)
  {
    RoundOfInteger(RoundHalfEven(x));
    RoundHalfEven(RoundHalfEven(x) as real)
  }

  /** One output sample: both roundings, then the in-place clamp and the uint8 cast. */
  function Quantise(x: real): (n: int)
    ensures 0 <= n <= 255
    ensures 0.0 <= x <= 255.0 ==> n == RoundHalfEven(x)
  {
    Clamp8(RoundTwice(x))
  }

  /** The clamp `a[a > 255] = 255; a[a < 0] = 0` applied to the three samples of a pixel. */
  function ClampPixel(p: Rgb): (c: Rgb)
    ensures c.Valid()
    ensures p.Valid() ==> c == p
  {
    Rgb(Clamp8(p.r), Clamp8(p.g), Clamp8(p.b))
  }

  /** Scale a triple to 0-255 and quantise each channel. */
  function ToBytes(t: Triple): (p: Rgb)
    ensures p.Valid()
  {
    Rgb(Quantise(t.r * 255.0), Quantise(t.g * 255.0), Quantise(t.b * 255.0))
  }

  /** hcy_to_rgb on one pixel; defined for every real input, always 8-bit. */
  function HcyToRgb(q: Hcy): (p: Rgb)
    ensures p.Valid()
  {
    ToBytes(Unrounded(q))
  }

  /** The pixel hcy_to_rgb builds before its in-place clamp: both roundings only, so
      every channel is the nearest integer to the scaled unrounded channel. */
  function Rounded(q: Hcy): (p: Rgb)
    ensures -0.5 <= p.r as real - Unrounded(q).r * 255.0 <= 0.5
    ensures -0.5 <= p.g as real - Unrounded(q).g * 255.0 <= 0.5
    ensures -0.5 <= p.b as real - Unrounded(q).b * 255.0 <= 0.5
  {
    var t := Unrounded(q);
    Rgb(RoundTwice(t.r * 255.0), RoundTwice(t.g * 255.0), RoundTwice(t.b * 255.0))
  }

  /** A hue outside [0, 360] fires no mask: the output is the grey round(255 luma). */
  lemma HueOutOfRangeIsGrey(q: Hcy)
    requires q.hue < 0.0 || q.hue > 360.0
    ensures HcyToRgb(q) == Grey(Quantise(q.luma * 255.0))
  {
    ProvisionalTable(q.hue, q.chroma);
  }

  /** The triple a pixel's HCY hue and chroma give back: the pixel minus its smallest
      channel. */
  function Offsets(t: Triple): Triple {
    var mn := MinOf(t);
    Triple(t.r - mn, t.g - mn, t.b - mn)
  }

  /** Blue is (among the) maximal channels: H' = 4 + (R - G) / C lies in [3, 5]. */
  lemma ProvisionalBlueMax(t: Triple)
    requires Chroma(t) > 0.0 && t.b == MaxOf(t)
    ensures Provisional(HueOf(t), Chroma(t)) == Offsets(t)
  {
    var c, mx, mn := Chroma(t), MaxOf(t), MinOf(t);
    var hue := HueOf(t);
    var u := (t.r - t.g) / c;
    HueCases(t);
    Ratio(t.r - t.g, c);
    ProvisionalTable(hue, c);
    assert hue / 60.0 == 4.0 + u;
    if u == -1.0 {
      assert t.r == mn && t.g == mx;
    } else if u <= 0.0 {
      assert t.r == mn;
      assert c * (4.0 - (4.0 + u)) == -(u * c);
    } else {
      assert t.g == mn;
      assert c * ((4.0 + u) - 4.0) == u * c;
    }
  }

  /** Green is maximal and blue is not: H' = 2 + (B - R) / C lies in [1, 3). */
  lemma ProvisionalGreenMax(t: Triple)
    requires Chroma(t) > 0.0 && t.b < MaxOf(t) && t.g == MaxOf(t)
    ensures Provisional(HueOf(t), Chroma(t)) == Offsets(t)
  {
    var c, mx, mn := Chroma(t), MaxOf(t), MinOf(t);
    var hue := HueOf(t);
    var v := (t.b - t.r) / c;
    HueCases(t);
    Ratio(t.b - t.r, c);
    ProvisionalTable(hue, c);
    assert hue / 60.0 == 2.0 + v;
    if v == -1.0 {
      assert t.b == mn && t.r == mx;
    } else if v <= 0.0 {
      assert t.b == mn;
      assert c * (2.0 - (2.0 + v)) == -(v * c);
    } else {
      assert t.r == mn;
      assert c * ((2.0 + v) - 2.0) == v * c;
    }
  }

  /** Red alone is maximal: H' = (G - B) / C lies in (-1, 1), and a negative hue is
      moved into (5, 6) by the +360. */
  lemma ProvisionalRedMax(t: Triple)
    requires Chroma(t) > 0.0 && t.b < MaxOf(t) && t.g < MaxOf(t)
    ensures Provisional(HueOf(t), Chroma(t)) == Offsets(t)
  {
    var c, mx, mn := Chroma(t), MaxOf(t), MinOf(t);
    var hue := HueOf(t);
    var w := (t.g - t.b) / c;
    HueCases(t);
    Ratio(t.g - t.b, c);
    ProvisionalTable(hue, c);
    assert t.r == mx;
    if t.g >= t.b {
      assert hue / 60.0 == w;
      assert t.b == mn;
    } else {
      assert hue / 60.0 == w + 6.0;
      assert t.g == mn;
      assert c * (6.0 - (w + 6.0)) == -(w * c);
    }
  }

  /** The provisional triple recovered from rgb_to_hcy's hue and chroma is the pixel
      minus its smallest channel, in every sextant and on every boundary. */
  lemma ProvisionalOfHcy(t: Triple)
    ensures Provisional(HueOf(t), Chroma(t)) == Offsets(t)
  {
    var c, mx := Chroma(t), MaxOf(t);
    if c == 0.0 {
      HueCases(t);
      ProvisionalTable(HueOf(t), c);
      assert HueOf(t) / 60.0 == 0.0;
    } else if t.b == mx {
      ProvisionalBlueMax(t);
    } else if t.g == mx {
      ProvisionalGreenMax(t);
    } else {
      ProvisionalRedMax(t);
    }
  }

  /** Every channel of p moved by the same amount d, then rounded and clamped. */
  function Shifted(p: Rgb, d: real): (s: Rgb)
    ensures s.Valid()
  {
    Rgb(Quantise(p.r as real + d), Quantise(p.g as real + d), Quantise(p.b as real + d))
  }

  /** The amount, on the 0-255 scale, by which p's luma moves when it is replaced by y. */
  function LumaOffset(p: Rgb, y: real): real
    requires p.Valid()
  {
    255.0 * (y - RgbToHcy(p).luma)
  }

  /** Rewrites Shifted(p, a) to Shifted(p, b) for equal amounts, away from the
      definitions of the conversions. */
  lemma ShiftedByEqualAmounts(x: Rgb, p: Rgb, a: real, b: real)
    requires x == Shifted(p, a) && a == b
    ensures x == Shifted(p, b)
  {
  }

  /** An 8-bit pixel shifted by nothing is itself. */
  lemma ShiftedByZero(p: Rgb)
    requires p.Valid()
    ensures Shifted(p, 0.0) == p
  {
    RoundOfInteger(p.r);
    RoundOfInteger(p.g);
    RoundOfInteger(p.b);
  }

  /** The definition of HcyToRgb as a fact, so that proofs about the conversion can
      rewrite with it without unfolding everything beneath. */
  lemma HcyToRgbUnfolded(q: Hcy)
    ensures HcyToRgb(q) == ToBytes(Unrounded(q))
  {
  }

  /** Every normalised channel of t raised by the same amount, d on the 0-255 scale. */
  function Raise(t: Triple, d: real): Triple {
    Triple(t.r + d / 255.0, t.g + d / 255.0, t.b + d / 255.0)
  }

  /** Before rounding, replacing the luma of rgb_to_hcy(p) by y raises every normalised
      channel of p by the same amount. */
  lemma UnroundedOfSubstitution(p: Rgb, y: real)
    requires p.Valid()
    ensures Unrounded(RgbToHcy(p).(luma := y)) == Raise(Normalise(p), LumaOffset(p, y))
  {
    ProvisionalOfHcy(Normalise(p));
  }

  /** Raising the normalised channels by d / 255 moves the 8-bit channels by d. */
  lemma ToBytesOfRaised(p: Rgb, d: real)
    ensures ToBytes(Raise(Normalise(p), d)) == Shifted(p, d)
  {
    var t := Normalise(p);
    assert (t.r + d / 255.0) * 255.0 == p.r as real + d;
    assert (t.g + d / 255.0) * 255.0 == p.g as real + d;
    assert (t.b + d / 255.0) * 255.0 == p.b as real + d;
  }

  /** Replacing the luma of rgb_to_hcy(p) by y and converting back shifts every
      channel of p by the same amount, 255 (y - luma), before rounding and clamping. */
  lemma LumaSubstitution(p: Rgb, y: real)
    requires p.Valid()
    ensures HcyToRgb(RgbToHcy(p).(luma := y)) == Shifted(p, LumaOffset(p, y))
  {
    HcyToRgbUnfolded(RgbToHcy(p).(luma := y));
    UnroundedOfSubstitution(p, y);
    ToBytesOfRaised(p, LumaOffset(p, y));
  }

  /** Over exact arithmetic, converting an 8-bit pixel to HCY and back returns it. */
  lemma RoundTrip(p: Rgb)
    requires p.Valid()
    ensures HcyToRgb(RgbToHcy(p)) == p
  {
    var q := RgbToHcy(p);
    assert q.(luma := q.luma) == q;
    LumaSubstitution(p, q.luma);
    assert LumaOffset(p, q.luma) == 0.0;
    ShiftedByEqualAmounts(HcyToRgb(q), p, LumaOffset(p, q.luma), 0.0);
    ShiftedByZero(p);
  }

  /** The two in-place clamps of an integer-valued image. */
  method ClampImage(a: array2<Rgb>)
    modifies a
    ensures forall i, j :: 0 <= i < a.Length0 && 0 <= j < a.Length1 ==>
      a[i, j] == ClampPixel(old(a[i, j]))
  {
    for i := 0 to a.Length0
      invariant forall i', j :: 0 <= i' < i && 0 <= j < a.Length1 ==>
        a[i', j] == ClampPixel(old(a[i', j]))
      invariant forall i', j :: i <= i' < a.Length0 && 0 <= j < a.Length1 ==>
        a[i', j] == old(a[i', j])
    {
      for j := 0 to a.Length1
        invariant forall i', j' :: 0 <= i' < i && 0 <= j' < a.Length1 ==>
          a[i', j'] == ClampPixel(old(a[i', j']))
        invariant forall j' :: 0 <= j' < j ==> a[i, j'] == ClampPixel(old(a[i, j']))
        invariant forall i', j' :: i <= i' < a.Length0 && 0 <= j' < a.Length1 && (i' > i || j' >= j) ==>
          a[i', j'] == old(a[i', j'])
      {
        a[i, j] := ClampPixel(a[i, j]);
      }
    }
  }

  /** rgb_to_hcy on a whole height x width image. */
  method RgbToHcyImage(img: array2<Rgb>) returns (hcy: array2<Hcy>)
    requires forall i, j :: 0 <= i < img.Length0 && 0 <= j < img.Length1 ==> img[i, j].Valid()
    ensures fresh(hcy)
    ensures hcy.Length0 == img.Length0 && hcy.Length1 == img.Length1
    ensures forall i, j :: 0 <= i < img.Length0 && 0 <= j < img.Length1 ==>
      hcy[i, j] == RgbToHcy(img[i, j])
  {
    hcy := new Hcy[img.Length0, img.Length1];
    for i := 0 to img.Length0
      invariant forall i', j :: 0 <= i' < i && 0 <= j < img.Length1 ==>
        hcy[i', j] == RgbToHcy(img[i', j])
    {
      for j := 0 to img.Length1
        invariant forall i', j' :: 0 <= i' < i && 0 <= j' < img.Length1 ==>
          hcy[i', j'] == RgbToHcy(img[i', j'])
        invariant forall j' :: 0 <= j' < j ==> hcy[i, j'] == RgbToHcy(img[i, j'])
      {
        hcy[i, j] := RgbToHcy(img[i, j]);
      }
    }
  }

  /** hcy_to_rgb on a whole image: the rounded samples are written first and then
      clamped in place, as the source does. */
  method HcyToRgbImage(hcy: array2<Hcy>) returns (img: array2<Rgb>)
    ensures fresh(img)
    ensures img.Length0 == hcy.Length0 && img.Length1 == hcy.Length1
    ensures forall i, j :: 0 <= i < hcy.Length0 && 0 <= j < hcy.Length1 ==>
      img[i, j] == HcyToRgb(hcy[i, j]) && img[i, j].Valid()
  {
    img := new Rgb[hcy.Length0, hcy.Length1];
    for i := 0 to hcy.Length0
      invariant forall i', j :: 0 <= i' < i && 0 <= j < hcy.Length1 ==>
        img[i', j] == Rounded(hcy[i', j])
    {
      for j := 0 to hcy.Length1
        invariant forall i', j' :: 0 <= i' < i && 0 <= j' < hcy.Length1 ==>
          img[i', j'] == Rounded(hcy[i', j'])
        invariant forall j' :: 0 <= j' < j ==> img[i, j'] == Rounded(hcy[i, j'])
      {
        img[i, j] := Rounded(hcy[i, j]);
      }
    }
    ClampImage(img);
  }
}
