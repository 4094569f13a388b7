/**
 * The IHS substitution step of main.py (lines 63-79): the intensity channel
 * of the (I, V1, V2) cube is replaced by the histogram-matched pan band
 * (option "1") or by the a trous wavelet injection (option "2"), the cube is
 * mapped back to RGB with `mask_matrix_to_rgb`, the other spectral bands are
 * appended, and the output file name is chosen.
 *
 * The cube `iv1v2` is a numpy (H, W, C) array that the script copies and then
 * overwrites in place, so it is an `array3` here; everything after the
 * substitution is pure and works on values.
 */
module Pipeline {
  import opened Functions
  import opened Wavelet
  import opened Ihs

  // ---------------------------------------------------------------------
  // main.py:63-69, the substitution of the intensity channel

  /** The samples of an (H, W, C) array, pixel by pixel. */
  function ToCube(a: array3<real>): (img: Image)
    reads a
    ensures IsImage(img, a.Length0, a.Length1, a.Length2) && WellFormed(img)
    ensures forall y, x, k :: 0 <= y < a.Length0 && 0 <= x < a.Length1 && 0 <= k < a.Length2 ==>
      img[y][x][k] == a[y, x, k]
    ensures forall k :: 0 <= k < a.Length2 ==> HasChannel(img, k)
  {
    var img := seq(a.Length0, y requires 0 <= y < a.Length0 reads a =>
      seq(a.Length1, x requires 0 <= x < a.Length1 reads a =>
        seq(a.Length2, k requires 0 <= k < a.Length2 reads a => a[y, x, k])));
    assert a.Length0 > 0 && a.Length1 > 0 ==> Depth(img) == a.Length2;
    img
  }

  /** `img[:,:,0] = b`: channel 0 replaced by the band b, every other channel kept. */
  function ReplaceChannel0(img: Image, b: Band): (r: Image)
    requires WellFormed(img) && HasChannel(img, 0)
    requires IsGrid(b, |img|, ImageWidth(img))
    ensures IsImage(r, |img|, ImageWidth(img), Depth(img))
    ensures forall y, x :: 0 <= y < |img| && 0 <= x < ImageWidth(img) ==>
      |r[y][x]| == |img[y][x]| && r[y][x][0] == b[y][x] &&
      forall k :: 1 <= k < |img[y][x]| ==> r[y][x][k] == img[y][x][k]
  {
    seq(|img|, y requires 0 <= y < |img| =>
      seq(ImageWidth(img), x requires 0 <= x < ImageWidth(img) => [b[y][x]] + img[y][x][1..]))
  }

  /** Only channel 0 changes: it becomes b, and channels 1 .. C-1 are those of img. */
  lemma ReplaceChannel0Channels(img: Image, b: Band)
    requires WellFormed(img) && HasChannel(img, 0)
    requires IsGrid(b, |img|, ImageWidth(img))
    ensures WellFormed(ReplaceChannel0(img, b)) && Depth(ReplaceChannel0(img, b)) == Depth(img)
    ensures HasChannel(ReplaceChannel0(img, b), 0) && Channel(ReplaceChannel0(img, b), 0) == b
    ensures forall k :: 1 <= k < Depth(img) ==>
      HasChannel(img, k) && HasChannel(ReplaceChannel0(img, b), k) &&
      Channel(ReplaceChannel0(img, b), k) == Channel(img, k)
  {
    var r := ReplaceChannel0(img, b);
    assert |img| > 0 && ImageWidth(img) > 0 ==> Depth(r) == Depth(img);
    BandExtensionality(Channel(r, 0), b);
    forall k | 1 <= k < Depth(img)
      ensures HasChannel(img, k) && HasChannel(r, k) && Channel(r, k) == Channel(img, k)
    {
      BandExtensionality(Channel(r, k), Channel(img, k));
    }
  }

  /**
   * The band written into channel 0 for option "1" (pan_i) or option "2"
   * (`a_wavelet(pan_i, iv1v2[:,:,0])`, which is I + pan_i - filter2D(pan_i, filtro_9x9)).
   */
  function NewIntensity(iv: Image, option: string, panI: Band): (b: Band)
    requires WellFormed(iv) && HasChannel(iv, 0)
    requires option == "1" || option == "2"
    requires IsGrid(panI, |iv|, ImageWidth(iv))
    ensures IsGrid(b, |iv|, ImageWidth(iv))
    ensures forall y, x :: 0 <= y < |iv| && 0 <= x < ImageWidth(iv) ==>
      b[y][x] == (if option == "1" then panI[y][x]
                  else iv[y][x][0] + panI[y][x] - Filter2D(panI, Filtro9x9)[y][x])
  {
    if option == "1" then panI else AWavelet(panI, Channel(iv, 0))
  }

  /**
   * `pan_v1_v2` after lines 63-69, as a value: channel 0 is the new
   * intensity for options "1" and "2", and untouched for any other option;
   * channels 1 .. C-1 are always those of iv1v2.
   */
  function Substituted(iv: Image, option: string, panI: Band): (r: Image)
    requires WellFormed(iv) && HasChannel(iv, 0)
    requires option == "1" || option == "2" ==> IsGrid(panI, |iv|, ImageWidth(iv))
    ensures IsImage(r, |iv|, ImageWidth(iv), Depth(iv))
    ensures forall y, x :: 0 <= y < |iv| && 0 <= x < ImageWidth(iv) ==>
      |r[y][x]| == |iv[y][x]| && forall k :: 1 <= k < |iv[y][x]| ==> r[y][x][k] == iv[y][x][k]
    ensures forall y, x :: 0 <= y < |iv| && 0 <= x < ImageWidth(iv) ==>
      r[y][x][0] == (if option == "1" || option == "2" then NewIntensity(iv, option, panI)[y][x] else iv[y][x][0])
  {
    if option == "1" || option == "2" then ReplaceChannel0(iv, NewIntensity(iv, option, panI)) else iv
  }

  /** `a.copy()`: a new array with the same samples. */
  method CopyCube(a: array3<real>) returns (b: array3<real>)
    ensures fresh(b)
    ensures b.Length0 == a.Length0 && b.Length1 == a.Length1 && b.Length2 == a.Length2
    ensures ToCube(b) == ToCube(a)
  {
    b := new real[a.Length0, a.Length1, a.Length2];
    forall y, x, k | 0 <= y < a.Length0 && 0 <= x < a.Length1 && 0 <= k < a.Length2 {
      b[y, x, k] := a[y, x, k];
    }
    ImageExtensionality(ToCube(b), ToCube(a), a.Length0, a.Length1, a.Length2);
  }

  /** `a[:,:,0] = band`, in place. */
  method SetChannel0(a: array3<real>, band: Band)
    requires a.Length2 >= 1 && IsGrid(band, a.Length0, a.Length1)
    modifies a
    ensures ToCube(a) == ReplaceChannel0(old(ToCube(a)), band)
  {
    ghost var want := ReplaceChannel0(ToCube(a), band);
    forall y, x | 0 <= y < a.Length0 && 0 <= x < a.Length1 {
      a[y, x, 0] := band[y][x];
    }
    forall y, x, k | 0 <= y < a.Length0 && 0 <= x < a.Length1 && 0 <= k < a.Length2
      ensures a[y, x, k] == want[y][x][k]
    {
    }
    ImageExtensionality(ToCube(a), want, a.Length0, a.Length1, a.Length2);
  }

  /**
   * Lines 63-69: `pan_v1_v2 = iv1v2.copy()`, then channel 0 of the copy is
   * overwritten according to the option.  The result is a new array, and
   * iv1v2 is left as it was.
   */
  method SubstituteIntensity(iv1v2: array3<real>, option: string, panI: Band) returns (panV1V2: array3<real>)
    requires iv1v2.Length2 >= 1
    requires option == "1" || option == "2" ==> IsGrid(panI, iv1v2.Length0, iv1v2.Length1)
    ensures fresh(panV1V2) && unchanged(iv1v2)
    ensures panV1V2.Length0 == iv1v2.Length0 && panV1V2.Length1 == iv1v2.Length1 && panV1V2.Length2 == iv1v2.Length2
    ensures ToCube(panV1V2) == Substituted(ToCube(iv1v2), option, panI)
  {
    panV1V2 := CopyCube(iv1v2);
    if option == "1" || option == "2" {
      SetChannel0(panV1V2, NewIntensity(ToCube(iv1v2), option, panI));
    }
  }

  // ---------------------------------------------------------------------
  // main.py:72-73, back from (I, V1, V2) to RGB

  /** `mask_matrix_to_rgb`, as written. */
  function MaskMatrixToRgb(s2: real, s6: real): (m: Matrix)
    requires Roots(s2, s6)
    ensures |m| == 3 && forall k :: 0 <= k < 3 ==> |m[k]| == 3
    ensures ValidMask(m) && UnitFirstColumn(m)
  {
    [[1.0, 1.0 / s6, 1.0 / s6],
     [1.0, 1.0 / s6, -1.0 / 2.0],
     [1.0, -2.0 / s6, 0.0]]
  }

  /** The RGB values that `mask_matrix_to_rgb` gives one (I, V1, V2) pixel. */
  function RgbPixel(q: seq<real>, s2: real, s6: real): (p: seq<real>)
    requires Roots(s2, s6) && |q| == 3
    ensures |p| == 3
    ensures p[0] == q[0] + q[1] / s6 + q[2] / s6
    ensures p[1] == q[0] + q[1] / s6 - q[2] / 2.0
    ensures p[2] == q[0] - 2.0 * q[1] / s6
  {
    var m := MaskMatrixToRgb(s2, s6);
    Dot3(m[0], q);
    Dot3(m[1], q);
    Dot3(m[2], q);
    TransformPixel(m, q)
  }

  /** Line 73: `process_imag_to_another_model(pan_v1_v2, mask_matrix_to_rgb)`. */
  function IhsToRgb(img: Image, s2: real, s6: real): (r: Image)
    requires Roots(s2, s6) && WellFormed(img)
    requires |img| > 0 && ImageWidth(img) > 0 ==> Depth(img) >= 1
    ensures IsImage(r, |img|, ImageWidth(img), 3)
    ensures forall y, x :: 0 <= y < |img| && 0 <= x < ImageWidth(img) && |img[y][x]| == 3 ==>
      r[y][x] == RgbPixel(img[y][x], s2, s6)
  {
    ProcessImagToAnotherModel(img, MaskMatrixToRgb(s2, s6))
  }

  /** A 3x3 matrix whose first column is all ones, as both inverses here are. */
  predicate UnitFirstColumn(m: Matrix) {
    |m| == 3 && forall k :: 0 <= k < 3 ==> |m[k]| == 3 && m[k][0] == 1.0
  }

  /** With an all-ones first column, raising I by d raises every output channel by d. */
  lemma IntensityShift(m: Matrix, q: seq<real>, d: real)
    requires UnitFirstColumn(m) && |q| == 3
    ensures TransformPixel(m, [q[0] + d, q[1], q[2]]) == Brighten(TransformPixel(m, q), d)
  {
    var a, b := TransformPixel(m, [q[0] + d, q[1], q[2]]), Brighten(TransformPixel(m, q), d);
    forall k | 0 <= k < 3
      ensures a[k] == b[k]
    {
      Dot3(m[k], [q[0] + d, q[1], q[2]]);
      Dot3(m[k], q);
    }
  }

  /** `rgb_to_ihs` followed by `mask_matrix_to_rgb` gives B back exactly. */
  lemma RoundTripBlue(px: seq<real>, s2: real, s6: real)
    requires Roots(s2, s6) && IsRgb(px)
    ensures RgbPixel(IhsPixel(px, s2, s6), s2, s6)[2] == px[2]
  {
    var q := IhsPixel(px, s2, s6);
    assert 2.0 * q[1] / s6 == 2.0 * (px[0] + px[1] - 2.0 * px[2]) / 6.0 by {
      SquareQuotient(px[0] + px[1] - 2.0 * px[2], s6, 6.0);
    }
  }

  /** (a / s) / s == a / v when s * s == v. */
  lemma SquareQuotient(a: real, s: real, v: real)
    requires IsSqrt(s, v) && v > 0.0
    ensures a / s / s == a / v
  {
    var t := a / s / s;
    assert t * s == a / s;
    assert t * v == a by {
      assert t * v == t * (s * s) == (t * s) * s;
    }
    assert (t - a / v) * v == 0.0;
  }

  /**
   * The R and G that the round trip gives: the mean of R and G plus a
   * multiple of R - G that is (R - G) / 2 only if sqrt(2) * sqrt(6) were 2
   * (for R) or sqrt(2) were 1 (for G).
   */
  lemma RoundTripRedGreen(px: seq<real>, s2: real, s6: real)
    requires Roots(s2, s6) && IsRgb(px)
    ensures RgbPixel(IhsPixel(px, s2, s6), s2, s6)[0] == (px[0] + px[1]) / 2.0 + (px[0] - px[1]) / (s2 * s6)
    ensures RgbPixel(IhsPixel(px, s2, s6), s2, s6)[1] == (px[0] + px[1]) / 2.0 - (px[0] - px[1]) / (2.0 * s2)
  {
    var q := IhsPixel(px, s2, s6);
    var p := RgbPixel(q, s2, s6);
    var r, g, b := px[0], px[1], px[2];
    SquareQuotient(r + g - 2.0 * b, s6, 6.0);
    assert q[2] / s6 == (r - g) / (s2 * s6);
    assert q[2] / 2.0 == (r - g) / (2.0 * s2);
    assert q[0] + q[1] / s6 == (r + g) / 2.0;
  }

  /** The round trip returns the pixel exactly if and only if R == G. */
  lemma RoundTripExactIff(px: seq<real>, s2: real, s6: real)
    requires Roots(s2, s6) && IsRgb(px)
    ensures RgbPixel(IhsPixel(px, s2, s6), s2, s6) == px <==> px[0] == px[1]
  {
    var p := RgbPixel(IhsPixel(px, s2, s6), s2, s6);
    var r, g := px[0], px[1];
    RoundTripRedGreen(px, s2, s6);
    RoundTripBlue(px, s2, s6);
    if r == g {
      assert p[0] == r && p[1] == g;
      assert p == px;
    } else {
      assert s2 * s6 != 2.0 by {
        assert (s2 * s6) * (s2 * s6) == (s2 * s2) * (s6 * s6) == 12.0;
      }
      NotHalf(r - g, s2 * s6);
      assert p[0] != r;
    }
  }

  /** d / s == d / 2 forces d == 0 when s is positive and not 2. */
  lemma NotHalf(d: real, s: real)
    requires d != 0.0 && s > 0.0 && s != 2.0
    ensures d / s != d / 2.0
  {
    assert d / s * s == d;
    assert d / 2.0 * s - d == d * (s - 2.0) / 2.0;
    assert d * (s - 2.0) != 0.0;
  }

  /** The pure red pixel (1, 0, 0) does not survive the round trip. */
  lemma RoundTripRedCounterexample(s2: real, s6: real)
    requires Roots(s2, s6)
    ensures RgbPixel(IhsPixel([1.0, 0.0, 0.0], s2, s6), s2, s6) != [1.0, 0.0, 0.0]
  {
    RoundTripExactIff([1.0, 0.0, 0.0], s2, s6);
  }

  /** The exact inverse of `mask_matrix` in ihs.py. */
  function ExactMaskMatrixToRgb(s2: real, s6: real): (m: Matrix)
    requires Roots(s2, s6)
    ensures |m| == 3 && forall k :: 0 <= k < 3 ==> |m[k]| == 3
    ensures ValidMask(m) && UnitFirstColumn(m)
  {
    [[1.0, 1.0 / s6, 1.0 / s2],
     [1.0, 1.0 / s6, -1.0 / s2],
     [1.0, -2.0 / s6, 0.0]]
  }

  /** The RGB values that the exact inverse gives one (I, V1, V2) pixel. */
  function ExactRgbPixel(q: seq<real>, s2: real, s6: real): (p: seq<real>)
    requires Roots(s2, s6) && |q| == 3
    ensures |p| == 3
    ensures p[0] == q[0] + q[1] / s6 + q[2] / s2
    ensures p[1] == q[0] + q[1] / s6 - q[2] / s2
    ensures p[2] == q[0] - 2.0 * q[1] / s6
  {
    var m := ExactMaskMatrixToRgb(s2, s6);
    Dot3(m[0], q);
    Dot3(m[1], q);
    Dot3(m[2], q);
    TransformPixel(m, q)
  }

  /** The exact inverse undoes `rgb_to_ihs` on every RGB pixel. */
  lemma ExactRoundTrip(px: seq<real>, s2: real, s6: real)
    requires Roots(s2, s6) && IsRgb(px)
    ensures ExactRgbPixel(IhsPixel(px, s2, s6), s2, s6) == px
  {
    var q := IhsPixel(px, s2, s6);
    var p := ExactRgbPixel(q, s2, s6);
    var r, g, b := px[0], px[1], px[2];
    SquareQuotient(r + g - 2.0 * b, s6, 6.0);
    SquareQuotient(r - g, s2, 2.0);
    assert p[0] == r && p[1] == g && p[2] == b;
  }

  /** And `rgb_to_ihs` undoes the exact inverse on every (I, V1, V2) pixel. */
  lemma ExactRoundTripBack(q: seq<real>, s2: real, s6: real)
    requires Roots(s2, s6) && |q| == 3
    ensures IhsPixel(ExactRgbPixel(q, s2, s6), s2, s6) == q
  {
    var p := ExactRgbPixel(q, s2, s6);
    var t := IhsPixel(p, s2, s6);
    var i, v1, v2 := q[0], q[1], q[2];
    assert p[0] + p[1] + p[2] == 3.0 * i;
    assert p[0] + p[1] - 2.0 * p[2] == 6.0 * (v1 / s6);
    assert p[0] - p[1] == 2.0 * (v2 / s2);
    SquareQuotient(6.0 * v1, s6, 6.0);
    SquareQuotient(2.0 * v2, s2, 2.0);
    assert t[1] == v1 && t[2] == v2;
  }

  /** With the exact inverse, converting an RGB image to IHS and back returns it unchanged. */
  lemma ExactRoundTripImage(img: Image, s2: real, s6: real)
    requires Roots(s2, s6) && IsImage(img, |img|, ImageWidth(img), 3)
    ensures WellFormed(img) && WellFormed(RgbToIhs(img, s2, s6))
    ensures ProcessImagToAnotherModel(RgbToIhs(img, s2, s6), ExactMaskMatrixToRgb(s2, s6)) == img
  {
    var iv := RgbToIhs(img, s2, s6);
    assert |img| > 0 && ImageWidth(img) > 0 ==> Depth(img) == 3 && Depth(iv) == 3;
    var back := ProcessImagToAnotherModel(iv, ExactMaskMatrixToRgb(s2, s6));
    forall y, x, k | 0 <= y < |img| && 0 <= x < ImageWidth(img) && 0 <= k < 3
      ensures back[y][x][k] == img[y][x][k]
    {
      ExactRoundTrip(img[y][x], s2, s6);
    }
    ImageExtensionality(back, img, |img|, ImageWidth(img), 3);
  }

  // ---------------------------------------------------------------------
  // main.py:73-77, the fused image

  /**
   * The fused raster before the 8-bit cast: the cube mapped back to RGB
   * with the inverse matrix, then the other bands.  main.py passes
   * `mask_matrix_to_rgb`; the exact inverse fits here as well.
   */
  function FusedImage(panV1V2: Image, otherBands: seq<Band>, inverse: Matrix): (r: Image)
    requires IsImage(panV1V2, |panV1V2|, ImageWidth(panV1V2), 3) && ValidMask(inverse) && |inverse| == 3
    requires AllGrids(otherBands, |panV1V2|, ImageWidth(panV1V2))
    ensures IsImage(r, |panV1V2|, ImageWidth(panV1V2), 3 + |otherBands|)
  {
    assert |panV1V2| > 0 && ImageWidth(panV1V2) > 0 ==> Depth(panV1V2) == 3;
    var rgb := ProcessImagToAnotherModel(panV1V2, inverse);
    assert |rgb| > 0 && ImageWidth(rgb) > 0 ==> Depth(rgb) == 3;
    MergeBands(rgb, otherBands)
  }

  /** A pixel of the fused raster: the inverse transform of the cube's pixel, then the other bands' samples. */
  lemma FusedImageSample(s: Image, otherBands: seq<Band>, inverse: Matrix, y: nat, x: nat)
    requires IsImage(s, |s|, ImageWidth(s), 3) && ValidMask(inverse) && |inverse| == 3
    requires AllGrids(otherBands, |s|, ImageWidth(s))
    requires y < |s| && x < ImageWidth(s)
    ensures FusedImage(s, otherBands, inverse)[y][x][..3] == TransformPixel(inverse, s[y][x])
    ensures forall j :: 0 <= j < |otherBands| ==> FusedImage(s, otherBands, inverse)[y][x][3 + j] == otherBands[j][y][x]
  {
    assert Depth(s) == 3;
    var rgb := ProcessImagToAnotherModel(s, inverse);
    assert Depth(rgb) == 3 && |rgb[y][x]| == 3;
    var px := MergeBands(rgb, otherBands)[y][x];
    assert FusedImage(s, otherBands, inverse)[y][x] == px;
    forall k | 0 <= k < 3
      ensures px[k] == rgb[y][x][k]
    {
    }
    assert px[..3] == rgb[y][x];
  }

  /** With `mask_matrix_to_rgb`, the RGB part of the fused raster is line 73's output, `IhsToRgb`. */
  lemma FusedImageAsWritten(s: Image, otherBands: seq<Band>, s2: real, s6: real, y: nat, x: nat)
    requires Roots(s2, s6) && IsImage(s, |s|, ImageWidth(s), 3)
    requires AllGrids(otherBands, |s|, ImageWidth(s))
    requires y < |s| && x < ImageWidth(s)
    ensures WellFormed(s)
    ensures FusedImage(s, otherBands, MaskMatrixToRgb(s2, s6))[y][x][..3] == IhsToRgb(s, s2, s6)[y][x]
    ensures IhsToRgb(s, s2, s6)[y][x] == RgbPixel(s[y][x], s2, s6)
  {
    assert Depth(s) == 3;
    FusedImageSample(s, otherBands, MaskMatrixToRgb(s2, s6), y, x);
  }

  /**
   * Pixel (y, x) of the fused raster made from the cube s: its R, G, B are
   * those the inverse gives iv's (I, V1, V2), each shifted by the change s
   * made to I; the other bands follow unchanged.
   */
  predicate FusedAt(iv: Image, s: Image, otherBands: seq<Band>, inverse: Matrix, y: nat, x: nat)
    requires IsImage(iv, |iv|, ImageWidth(iv), 3) && IsImage(s, |iv|, ImageWidth(iv), 3)
    requires UnitFirstColumn(inverse) && AllGrids(otherBands, |iv|, ImageWidth(iv))
    requires y < |iv| && x < ImageWidth(iv)
  {
    var f := FusedImage(s, otherBands, inverse);
    f[y][x][..3] == Brighten(TransformPixel(inverse, iv[y][x]), s[y][x][0] - iv[y][x][0]) &&
    forall j :: 0 <= j < |otherBands| ==> f[y][x][3 + j] == otherBands[j][y][x]
  }

  /**
   * The fused raster after substituting the intensity: every RGB value is
   * the inverse of the original (I, V1, V2) plus the change in I.
   */
  lemma FusedPixel(iv: Image, option: string, panI: Band, otherBands: seq<Band>, inverse: Matrix, y: nat, x: nat)
    requires IsImage(iv, |iv|, ImageWidth(iv), 3) && UnitFirstColumn(inverse)
    requires option == "1" || option == "2" ==> IsGrid(panI, |iv|, ImageWidth(iv))
    requires AllGrids(otherBands, |iv|, ImageWidth(iv))
    requires y < |iv| && x < ImageWidth(iv)
    ensures WellFormed(iv) && HasChannel(iv, 0)
    ensures IsImage(Substituted(iv, option, panI), |iv|, ImageWidth(iv), 3)
    ensures FusedAt(iv, Substituted(iv, option, panI), otherBands, inverse, y, x)
  {
    assert Depth(iv) == 3;
    var s := Substituted(iv, option, panI);
    FusedChroma(iv, s, otherBands, inverse, y, x);
  }

  /** The fused pixel of any cube whose pixel (y, x) keeps the chroma of iv's. */
  lemma FusedChroma(iv: Image, s: Image, otherBands: seq<Band>, inverse: Matrix, y: nat, x: nat)
    requires IsImage(iv, |iv|, ImageWidth(iv), 3) && IsImage(s, |iv|, ImageWidth(iv), 3)
    requires UnitFirstColumn(inverse) && AllGrids(otherBands, |iv|, ImageWidth(iv))
    requires y < |iv| && x < ImageWidth(iv)
    requires s[y][x][1] == iv[y][x][1] && s[y][x][2] == iv[y][x][2]
    ensures FusedAt(iv, s, otherBands, inverse, y, x)
  {
    var q := iv[y][x];
    var d := s[y][x][0] - q[0];
    ShiftedPixel(s[y][x], q);
    FusedImageSample(s, otherBands, inverse, y, x);
    IntensityShift(inverse, q, d);
  }

  /** A pixel that differs from q at most in channel 0. */
  lemma ShiftedPixel(p: seq<real>, q: seq<real>)
    requires |p| == 3 && |q| == 3 && p[1] == q[1] && p[2] == q[2]
    ensures p == [q[0] + (p[0] - q[0]), q[1], q[2]]
  {
  }

  /**
   * With option "1" and `mask_matrix_to_rgb`, the blue band of the fused
   * raster is the original blue plus the difference between pan_i and the
   * intensity.
   */
  lemma FusedBlue(rgb: Image, panI: Band, otherBands: seq<Band>, s2: real, s6: real, y: nat, x: nat)
    requires Roots(s2, s6) && IsImage(rgb, |rgb|, ImageWidth(rgb), 3)
    requires IsGrid(panI, |rgb|, ImageWidth(rgb))
    requires AllGrids(otherBands, |rgb|, ImageWidth(rgb))
    requires y < |rgb| && x < ImageWidth(rgb)
    ensures WellFormed(rgb) && WellFormed(RgbToIhs(rgb, s2, s6)) && HasChannel(RgbToIhs(rgb, s2, s6), 0)
    ensures UnitFirstColumn(MaskMatrixToRgb(s2, s6))
    ensures FusedImage(Substituted(RgbToIhs(rgb, s2, s6), "1", panI), otherBands, MaskMatrixToRgb(s2, s6))[y][x][2] ==
      rgb[y][x][2] + panI[y][x] - (rgb[y][x][0] + rgb[y][x][1] + rgb[y][x][2]) / 3.0
  {
    assert Depth(rgb) == 3;
    var iv := RgbToIhs(rgb, s2, s6);
    assert Depth(iv) == 3;
    FusedPixel(iv, "1", panI, otherBands, MaskMatrixToRgb(s2, s6), y, x);
    RoundTripBlue(rgb[y][x], s2, s6);
  }

  /**
   * With the exact inverse, IHS fusion adds the change in intensity to each
   * of R, G and B of the original pixel, for either option.
   */
  lemma FusedExact(rgb: Image, option: string, panI: Band, otherBands: seq<Band>, s2: real, s6: real, y: nat, x: nat)
    requires Roots(s2, s6) && IsImage(rgb, |rgb|, ImageWidth(rgb), 3)
    requires option == "1" || option == "2" ==> IsGrid(panI, |rgb|, ImageWidth(rgb))
    requires AllGrids(otherBands, |rgb|, ImageWidth(rgb))
    requires y < |rgb| && x < ImageWidth(rgb)
    ensures WellFormed(rgb) && WellFormed(RgbToIhs(rgb, s2, s6)) && HasChannel(RgbToIhs(rgb, s2, s6), 0)
    ensures UnitFirstColumn(ExactMaskMatrixToRgb(s2, s6))
    ensures
      var iv := RgbToIhs(rgb, s2, s6);
      var s := Substituted(iv, option, panI);
      FusedImage(s, otherBands, ExactMaskMatrixToRgb(s2, s6))[y][x][..3] == Brighten(rgb[y][x], s[y][x][0] - iv[y][x][0])
  {
    assert Depth(rgb) == 3;
    var iv := RgbToIhs(rgb, s2, s6);
    assert Depth(iv) == 3;
    FusedPixel(iv, option, panI, otherBands, ExactMaskMatrixToRgb(s2, s6), y, x);
    ExactRoundTrip(rgb[y][x], s2, s6);
  }

  // ---------------------------------------------------------------------
  // main.py:79, the output file name

  /** `f"{'wavelet_resultado' if option=='2' else 'ihs_resultado'}_{name}"`. */
  function ResultName(option: string, name: string): (r: string)
    ensures |r| >= 14 + |name|
    ensures r[|r| - |name|..] == name
    ensures (|r| >= 18 && r[..18] == "wavelet_resultado_") == (option == "2")
    ensures option == "2" ==> |r| == 18 + |name|
    ensures option != "2" ==> |r| == 14 + |name| && r[..14] == "ihs_resultado_"
  {
    var r := (if option == "2" then "wavelet_resultado" else "ihs_resultado") + "_" + name;
    assert option != "2" ==> r[0] == 'i';
    r
  }

  /** Different spectral image names give different result names, for either method. */
  lemma ResultNameInjective(option: string, n1: string, n2: string)
    ensures ResultName(option, n1) == ResultName(option, n2) <==> n1 == n2
  {
    var r1, r2 := ResultName(option, n1), ResultName(option, n2);
    if r1 == r2 {
      assert |n1| == |n2|;
      assert n1 == r1[|r1| - |n1|..];
    }
  }
}
