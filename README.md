# Card-scan print preparation, modelled in Dafny

This project models the image transforms that prepare scanned trading-card images
for print:

- the RGB to HCY colour conversion and its inverse (`rgb_to_hcy` and `hcy_to_rgb`
  in colorspace.py, duplicated verbatim in invert_idc_layers.py);
- `invert_opacity`, which undoes a layer blended over an image at a known opacity;
- `invert_idc_layers`, which removes two overlay layers baked into the scans. It
  first removes a luminosity layer (grey 99 at opacity 0.08) and then a colour layer
  (grey 96 at opacity 0.26). Each stage rebuilds the overlay from the image itself
  by substituting HCY channels;
- `cover_corners` and `remove_art_credit`, which black out fixed rectangles in place;
- `add_bleed`, which extends the edge pixels outward.

Images are height x width grids of 8-bit RGB pixels (`array2<Rgb>`). Floating point
is idealised as exact real arithmetic. numpy's and Python's rounding is half to
even. The clamp and the `uint8` cast are exact integer operations.

Modules:

- `Numeric` (numeric.dfy): rounding, the 8-bit clamp, `int()` truncation and Python
  slice bounds.
- `ColorSpace` (colorspace.dfy): the two conversions per pixel, and the image-level
  loops that apply them.
- `PrintCards` (print_cards.dfy): `invert_opacity`, the two-stage pipeline per pixel
  and per image, the in-place rectangle edits, and `add_bleed`.
- `IdcLayers` (invert_idc_layers.dfy): what the pipeline computes, with HCY
  eliminated.
  - Stage 1 adds `99 - luma` (on the 0-255 scale) to every channel of the visible
    pixel, then rounds and clamps, to rebuild the luminosity overlay.
  - Stage 2 rebuilds the colour overlay as the rounded grey of the stage-1 pixel's
    luma.

The masked numpy assignments are modelled in their order. A later mask overwrites
an earlier one, for the hue in `rgb_to_hcy` and for the sextants in `hcy_to_rgb`.
The in-place clamps and channel overwrites are loops over `array2` that modify the
array.

Read as a textbook formula, the hue would come from the first maximal channel. The
code's overwrite order makes the last maximal channel win instead. The model follows
the code, and `ColorSpace.HueOverwriteOrder` proves that both readings give the same
hue.

## Model

| member | source | states |
|---|---|---|
| Numeric.RoundHalfEven | colorspace.py:62-63 | the result is within 0.5 of the input, and an exact half goes to the even neighbour |
| Numeric.Clamp8 | colorspace.py:64-66 | the result lies in [0, 255]; values above 255 become 255 and values below 0 become 0; values already in range are unchanged |
| Numeric.Trunc | print_cards.py:66-69 | `int()` truncates toward zero: the bounds for non-negative and for negative inputs |
| Numeric.SliceBound | print_cards.py:79-82 | Python slice-bound normalisation: a negative bound counts from the end, and the result is clipped to [0, n] |
| Numeric.TruncOfRatio | print_cards.py:65-69 | for a non-negative long edge L, `int(c * L / 2100)` is `c * L` integer-divided by 2100, and `int(-c * L / 2100)` is its negation |
| ColorSpace.Normalise | colorspace.py:11 | dividing an 8-bit pixel by 255 puts every channel in [0, 1] |
| ColorSpace.Luma | colorspace.py:16 | the luma of channels in [0, 1] lies in [0, 1] |
| ColorSpace.Chroma | colorspace.py:15 | chroma is never negative, and it is 0 exactly when the three channels are equal |
| ColorSpace.HueOf | colorspace.py:17-24 | the hue is 0 wherever chroma is 0, because no mask fires there |
| ColorSpace.MaxOf | colorspace.py:15 | the per-pixel maximum is one of the channels and is at least each of them |
| ColorSpace.MinOf | colorspace.py:15 | the per-pixel minimum is one of the channels and is at most each of them |
| ColorSpace.HueCases | colorspace.py:17-24 | the hue left by the overwrite chain: 0 when chroma is 0, otherwise the formula of the last maximal channel, with its ratio in [-1, 1] |
| ColorSpace.HueRange | invert_idc_layers.py:18-25 | hue always lies in [0, 360), including the red branch moved up by 360 (the same code as colorspace.py:17-24) |
| ColorSpace.HueOverwriteOrder | colorspace.py:18-24 | the overwrite order of the code gives the same hue as choosing the first maximal channel in the order red, green, blue |
| ColorSpace.RgbToHcy | colorspace.py:4-25 | hue in [0, 360); chroma is (max - min) / 255 and lies in [0, 1]; luma lies in [0, 1]; chroma is 0 exactly for grey pixels, and their hue is 0 |
| ColorSpace.PrimaryHues | colorspace.py:21-23 | normalised pure red, green and blue have hue 0, 120 and 240 |
| ColorSpace.PrimaryPixelHues | invert_idc_layers.py:5-26 | the 8-bit pixels (255,0,0), (0,255,0) and (0,0,255) convert to hue 0, 120 and 240 |
| ColorSpace.Mod2 | colorspace.py:38 | `numpy.mod(h', 2)` lies in [0, 2) for every real h' |
| ColorSpace.SecondComponent | colorspace.py:38 | for non-negative chroma C, X = C (1 - abs((h' mod 2) - 1)) lies in [0, C] |
| ColorSpace.SecondComponentBySextant | colorspace.py:38 | on each sextant X is linear in h': C h', C (2 - h'), C (h' - 2), C (4 - h'), C (h' - 4) and C (6 - h') |
| ColorSpace.Provisional | colorspace.py:37-59 | for non-negative chroma every provisional channel lies in [0, C] |
| ColorSpace.ProvisionalTable | colorspace.py:37-59 | the six sextant masks are disjoint; on each sextant the provisional triple is made of C, the linear X and 0; outside [0, 360] it stays (0, 0, 0) |
| ColorSpace.Unrounded | colorspace.py:61-62 | the luma offset m makes the luma of the triple before rounding exactly the requested luma |
| ColorSpace.Rounded | colorspace.py:62-63 | before the clamp, every channel is within 0.5 of 255 times the unrounded channel |
| ColorSpace.RoundTwice | colorspace.py:62-63 | the second `.round()` changes nothing: the result is the half-even rounding of the input |
| ColorSpace.Quantise | colorspace.py:62-66 | an output sample is an integer in [0, 255], and it is the rounded input whenever the input is in [0, 255] |
| ColorSpace.ClampPixel | colorspace.py:64-65 | the clamped pixel is 8-bit, and an 8-bit pixel is unchanged |
| ColorSpace.HcyToRgb | colorspace.py:28-66 | for every real hue, chroma and luma, the output pixel is 8-bit |
| ColorSpace.HueOutOfRangeIsGrey | invert_idc_layers.py:40-67 | a hue outside [0, 360] fires no mask, so the output is the grey round(255 luma), clamped |
| ColorSpace.ProvisionalBlueMax | colorspace.py:23 | when blue is maximal, the provisional triple rebuilt from hue and chroma is the pixel minus its minimum channel |
| ColorSpace.ProvisionalGreenMax | colorspace.py:22 | the same when green is maximal and blue is not |
| ColorSpace.ProvisionalRedMax | colorspace.py:21 | the same when red alone is maximal, including the hues moved up by 360 |
| ColorSpace.ProvisionalOfHcy | colorspace.py:37-59 | for every pixel, the provisional triple of its own hue and chroma is the pixel minus its minimum channel |
| ColorSpace.ShiftedByZero | colorspace.py:62-66 | rounding and clamping an unshifted 8-bit pixel gives it back |
| ColorSpace.UnroundedOfSubstitution | colorspace.py:61-62 | converting back after replacing the luma by y raises every normalised channel by the same amount |
| ColorSpace.ToBytesOfRaised | colorspace.py:62 | raising the normalised channels by d / 255 moves every 8-bit channel by d before rounding |
| ColorSpace.LumaSubstitution | colorspace.py:4-66 | `hcy_to_rgb` of `rgb_to_hcy(p)` with its luma replaced by y is p with every channel moved by 255 (y - luma), then rounded and clamped |
| ColorSpace.RoundTrip | colorspace.py:4-66 | `hcy_to_rgb(rgb_to_hcy(p)) == p` for every 8-bit pixel, over exact arithmetic |
| ColorSpace.ClampImage | colorspace.py:64-65 | the in-place clamp leaves every pixel of the array equal to the clamp of its old value |
| ColorSpace.RgbToHcyImage | colorspace.py:4-25 | a freshly allocated array of the same height and width holding `rgb_to_hcy` of every pixel |
| ColorSpace.HcyToRgbImage | colorspace.py:28-66 | a freshly allocated array of the same height and width holding the 8-bit `hcy_to_rgb` of every pixel |
| PrintCards.Unblend | print_cards.py:18 | for opacity other than 1, the result B solves V = a T + (1 - a) B |
| PrintCards.InvertOpacitySample | print_cards.py:18-22 | each output sample is an integer in [0, 255] |
| PrintCards.UnblendOfBlend | print_cards.py:18 | unblending a blended value returns exactly the base under it |
| PrintCards.InvertOpacityInverse | invert_idc_layers.py:81-85 | if V = a T + (1 - a) B for an 8-bit B and a other than 1, the inversion returns exactly B |
| PrintCards.UnblendNearBase | print_cards.py:18 | at opacity at most 0.5, a visible value within 0.5 of the exact blend unblends to within 1 of the base |
| PrintCards.RoundClampNear | print_cards.py:19-22 | a value less than 1.5 away from an 8-bit base rounds and clamps to within 1 of it |
| PrintCards.InvertOpacityOfRoundedBlend | print_cards.py:18-22 | if the visible sample is the rounded blend of an 8-bit base at opacity at most 0.5, the inversion returns the base up to 1 |
| PrintCards.InvertOpacityAtZero | print_cards.py:18-22 | at opacity 0, every 8-bit sample comes back unchanged |
| PrintCards.InvertOpacitySaturation | print_cards.py:19-21 | the output is 0 exactly when the unblended value is at most 0.5, and 255 exactly when it is above 254.5 |
| PrintCards.InvertOpacityExample | print_cards.py:18-22 | base 200 under top 50 at 0.08 is seen as 188, and inverting 188 gives 200 |
| PrintCards.InvertOpacity | print_cards.py:7-22 | every channel of the recovered pixel is 8-bit |
| PrintCards.InvertOpacityImage | print_cards.py:18-22 | the output is a freshly allocated array with the inputs' shape; every pixel is the per-pixel inversion and is 8-bit |
| PrintCards.LuminosityTop | print_cards.py:42-44 | the stage-1 reconstruction is an 8-bit pixel |
| PrintCards.RemoveLuminosityLayer | print_cards.py:45 | the stage-1 output is an 8-bit pixel |
| PrintCards.ColorTop | print_cards.py:47-50 | the stage-2 reconstruction is an 8-bit pixel |
| PrintCards.RemoveColorLayer | print_cards.py:51 | the stage-2 output is an 8-bit pixel |
| PrintCards.InvertIdcPixel | print_cards.py:32-51 | the pipeline's output pixel is 8-bit |
| PrintCards.SetLuma | invert_idc_layers.py:106 | the in-place overwrite replaces the luma of every pixel and nothing else |
| PrintCards.SetHueAndChroma | invert_idc_layers.py:111-112 | the in-place overwrite replaces the hue and chroma of every pixel and nothing else |
| PrintCards.RemoveLuminosityLayerImage | invert_idc_layers.py:105-108 | stage 1 on a whole image: a freshly allocated array of the same shape, every pixel the per-pixel luminosity removal |
| PrintCards.RemoveColorLayerImage | invert_idc_layers.py:110-114 | stage 2 on a whole image: a freshly allocated array of the same shape, every pixel the per-pixel colour removal |
| PrintCards.InvertIdcLayers | print_cards.py:25-53 | a freshly allocated array with the input's height and width; every pixel is the luminosity stage followed by the colour stage, and is 8-bit |
| PrintCards.SliceRect | print_cards.py:66-69 | a slice rectangle lies inside the image |
| PrintCards.ZeroRect | print_cards.py:66 | `image[rect] = 0`: black inside the rectangle, every other pixel unchanged |
| PrintCards.CornerSize | print_cards.py:65-69 | for a non-negative scaled size, `int(c * scale)` is the largest integer not above it |
| PrintCards.CornerSizeForLongEdge | print_cards.py:65-69 | `int(c * scale)` and `int(-c * scale)` are the rounded-down c * L / 2100 and its negation |
| PrintCards.CornerRects | print_cards.py:66-69 | four slice rectangles, each inside the image |
| PrintCards.CopyImage | print_cards.py:64 | `np.array(image)`: a freshly allocated array of the same shape holding the same pixels |
| PrintCards.CoverCorners | print_cards.py:56-70 | a freshly allocated copy of the image, black inside the four corner slices and equal to the input elsewhere; the input is not written |
| PrintCards.CornerRectsForLongEdge | print_cards.py:65-69 | for a non-negative long edge, the four slices in integer terms |
| PrintCards.CornerRegions | print_cards.py:65-69 | for a long edge of at least 24, a pixel is blacked out exactly when it lies in the top-left 75s x 80s block, the bottom-left or bottom-right 90s x 90s block, or the top-right 80s x 80s block |
| PrintCards.CornersCoverAllForTinyLongEdge | print_cards.py:67-68 | for a long edge of at most 23, `int(-90 s)` is 0 and every pixel is blacked out |
| PrintCards.ArtCreditRect | print_cards.py:77-82 | the credit rectangle lies inside the image |
| PrintCards.ArtCreditRegion | print_cards.py:77-82 | portrait: rows 850..1400 by the last 65 columns; otherwise the last 60 rows by columns 710..1260; both clipped to the image |
| PrintCards.RemoveArtCredit | print_cards.py:73-83 | a freshly allocated copy of the image, black inside the credit rectangle and equal to the input elsewhere; the input is not written |
| PrintCards.Head | print_cards.py:101 | `im[0:1]` is the one-element slice of the first element, or empty for an empty input |
| PrintCards.Tail | print_cards.py:102 | `im[-1:len(im)]` is the one-element slice of the last element, or empty for an empty input |
| PrintCards.ExtendRow | print_cards.py:105-107 | a non-empty row gains b pixels on each side; an empty row stays empty |
| PrintCards.AddBleed | print_cards.py:99-107 | a non-empty image gains b rows at the top and at the bottom; an empty image stays empty |
| PrintCards.BleedPixels | print_cards.py:93-98 | a non-negative bleed in inches gives a non-negative bleed in pixels |
| PrintCards.RepeatEach | print_cards.py:101-106 | `numpy.repeat` of n copies gives n times as many elements |
| PrintCards.ClampIndex | print_cards.py:101-107 | the clamped index lies in [0, n) |
| PrintCards.RepeatSingleton | print_cards.py:101-102 | repeating a one-element slice n times gives n copies of that element |
| PrintCards.ExtendRowAt | print_cards.py:105-107 | an extended row has w + 2b pixels, each the nearest pixel of the original row |
| PrintCards.AddBleedAt | print_cards.py:98-107 | the bled image is (h + 2b) x (w + 2b), and out[i][j] = in[clamp(i - b)][clamp(j - b)], so the corner blocks repeat the corner pixels |
| PrintCards.AddBleedInterior | print_cards.py:104-107 | the interior [b, b + h) x [b, b + w) of the bled image is the input |
| PrintCards.AddBleedInches | print_cards.py:93-101 | for an image of width w, a result exists exactly when the rounded bleed in pixels is non-negative |
| IdcLayers.Luma255 | invert_idc_layers.py:17 | the luma on the 0-255 scale lies in [0, 255] |
| IdcLayers.LayerColoursInHcy | invert_idc_layers.py:94-103 | (99,99,99) and (96,96,96) convert to hue 0, chroma 0, and luma 99/255 and 96/255 |
| IdcLayers.LuminosityTopOffset | invert_idc_layers.py:105-107 | the stage-1 reconstruction is the visible pixel with every channel moved by the same amount, then rounded and clamped; only the HCY pixel before `hcy_to_rgb` keeps the visible hue and chroma |
| IdcLayers.LuminosityShift | invert_idc_layers.py:105-107 | the stage-1 shift lies in [-156, 99], and moving every channel of v by it makes the 0-255 luma exactly 99, the layer's grey |
| IdcLayers.LumaOffsetToLayer | invert_idc_layers.py:102-106 | with the luminosity layer's luma, that amount is 99 minus the visible pixel's luma |
| IdcLayers.LuminosityTopShift | invert_idc_layers.py:105-107 | the stage-1 reconstruction is the visible pixel plus (99 - luma) on every channel, rounded and clamped |
| IdcLayers.GreyShiftedToLayer | invert_idc_layers.py:105-107 | a grey pixel moved by 99 minus its value is (99, 99, 99) |
| IdcLayers.LuminosityTopOfGrey | invert_idc_layers.py:105-107 | for a grey visible pixel the stage-1 reconstruction is exactly (99, 99, 99) |
| IdcLayers.AchromaticToRgb | invert_idc_layers.py:44-67 | hue 0 and chroma 0 convert to the grey round(255 luma) |
| IdcLayers.ColorTopIsGrey | invert_idc_layers.py:110-113 | the stage-2 reconstruction is the grey round(luma) of the stage-1 pixel |
| IdcLayers.ColorStageKeepsGrey | invert_idc_layers.py:110-114 | the colour stage leaves a grey pixel unchanged |
| IdcLayers.InvertIdcPixelOfGrey | invert_idc_layers.py:105-114 | on a grey pixel k the whole pipeline is the inversion of a blend with grey 99 at 0.08 |
| IdcLayers.InvertIdcPixelClosedForm | invert_idc_layers.py:105-114 | the pipeline without HCY: stage 1 unblends the luma-shifted visible pixel at 0.08, and stage 2 unblends the rounded grey of the result at 0.26 |
| IdcLayers.LuminosityTopOfUniformMove | invert_idc_layers.py:105-107 | moving every channel of a pixel by the same amount does not change its stage-1 reconstruction |
| IdcLayers.RemoveLuminosityOfForward | invert_idc_layers.py:105-108 | if v is an 8-bit p blended exactly at 0.08 under p's own luminosity overlay, and that overlay moves every channel of p equally, stage 1 returns p |
| IdcLayers.RemoveColorOfForward | invert_idc_layers.py:110-114 | if s is an 8-bit p blended exactly at 0.26 under p's own colour overlay, stage 2 returns p |
| IdcLayers.ColorChannelOfRoundedBlend | invert_idc_layers.py:114 | a channel within 0.5 of its blend over grey k, unblended at 0.26 against a grey within 1 of k, comes back within 1 of the original |
| IdcLayers.LumaOfRoundedBlend | invert_idc_layers.py:110-113 | if every channel is within 0.5 of its blend over the grey k nearest the original's luma, the rebuilt grey is within 1 of k |
| IdcLayers.ColorStageOfRoundedBlend | invert_idc_layers.py:110-114 | stage 2 without HCY returns every channel of the original to within 1 when the blended pixel is within 0.5 of the exact blend |
| IdcLayers.RemoveColorOfRoundedForward | invert_idc_layers.py:110-114 | if s is p blended at 0.26 under p's own colour overlay and rounded to 8 bits, stage 2 returns every channel of p to within 1 |
| IdcLayers.InvertIdcRecovers | invert_idc_layers.py:94-114 | for any 8-bit original p, with the colour layer then the luminosity layer blended exactly over it, the pipeline returns p |
| IdcLayers.ColorOverlayExample | invert_idc_layers.py:110-113 | the colour overlay of (24, 174, 124) is the grey 124, its luma 123.5 rounded half to even |
| IdcLayers.LuminosityOverlayExample | invert_idc_layers.py:105-107 | the luminosity overlay of (50, 161, 124) is (25, 136, 99) |
| IdcLayers.RecoveryExampleAt | invert_idc_layers.py:105-114 | stage 1 turns (48, 159, 122) into (50, 161, 124), and stage 2 turns that into (24, 174, 124) |
| IdcLayers.InvertIdcRecoversExample | print_cards.py:25-53 | the coloured pixel (24, 174, 124), seen through both layers as (48, 159, 122), is recovered exactly |
| IdcLayers.StageOrderMatters | invert_idc_layers.py:105-114 | the stages do not commute: (10, 200, 30) gives (0, 229, 0) in the source's order and (0, 230, 0) the other way round |
| IdcLayers.LuminosityTopExample | invert_idc_layers.py:105-107 | the stage-1 reconstruction of (10, 200, 30) is (0, 175, 5) |
| IdcLayers.LuminosityStageExample | invert_idc_layers.py:108 | stage 1 turns (10, 200, 30) into (11, 202, 32) |
| IdcLayers.ColorStageExample | invert_idc_layers.py:110-114 | stage 2 turns (11, 202, 32) into (0, 229, 0) |
| IdcLayers.ColorStageFirstExample | invert_idc_layers.py:110-114 | stage 2 alone turns (10, 200, 30) into (0, 227, 0) |
| IdcLayers.LuminosityTopSecondExample | invert_idc_layers.py:105-107 | the stage-1 reconstruction of (0, 227, 0) is (0, 192, 0) |
| IdcLayers.LuminosityStageSecondExample | invert_idc_layers.py:105-108 | stage 1 turns (0, 227, 0) into (0, 230, 0) |

## Left out

- Image and file I/O is not modelled: `Image.open`, `Image.fromarray`, `np.array(image)` and saving. The model starts and ends at pixel arrays.
- `gamma_correction` is not modelled: a fractional floating-point power cannot be expressed over Dafny reals.
- `set_portrait` is not modelled: it is a wrapper over PIL's rotation, whose pixel semantics are not visible here.
- Float rounding is not captured; the round trip and the exact inversion hold over reals only.
- Only three-channel RGB input is modelled (the `Rgb` record). RGBA and greyscale arrays are not.
- PrintCards.InvertOpacity: requires an opacity other than 1. At 1 the source divides by zero, and numpy's inf/nan results are not modelled.
- PrintCards.AddBleed: is modelled on `seq<seq<Rgb>>` values, as the source builds new arrays by concatenation. The shape lemmas assume a non-empty, rectangular image. numpy's behaviour on an empty image is not modelled.
- PrintCards.BleedPixels: `long_edge / 3.46457` is exact real division, not the float quotient.
- PrintCards.CoverCorners: the long edge is an integer parameter. A float `long_edge` is not modelled.
- IdcLayers.InvertIdcRecovers: recovery is promised only when each blend is exact rather than rounded to 8 bits, and the luminosity overlay moves all three channels equally, with no clamp or rounding tie in between. Under a rounded blend, `invert_opacity` with a known top layer is bounded (PrintCards.InvertOpacityOfRoundedBlend) and so is the colour stage (IdcLayers.RemoveColorOfRoundedForward), each to within 1; the luminosity stage, whose rebuilt overlay can change when the blend is rounded, is not bounded under a rounded blend.
- Image-level methods state their results per pixel. Each returns a freshly allocated array: the pipeline stages build new arrays, and CoverCorners and RemoveArtCredit edit a copy made by CopyImage, so no caller's array is written. numpy views that share memory are not modelled.
