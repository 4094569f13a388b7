/**
 * The forward colour transform of data_fusion/ihs/ihs.py: RGB to the
 * intensity / two-chroma space (I, V1, V2) by a constant 3x3 matrix applied
 * to every pixel with process_imag_to_another_model.
 *
 * sqrt(2) and sqrt(6) are not computed: they are parameters s2 and s6 of
 * which only IsSqrt is known.
 */
module Ihs {
  import opened Functions

  /** s is the positive square root of v. */
  predicate IsSqrt(s: real, v: real) {
    s > 0.0 && s * s == v
  }

  /** The pair of square roots the transforms use. */
  predicate Roots(s2: real, s6: real) {
    IsSqrt(s2, 2.0) && IsSqrt(s6, 6.0)
  }

  /** `mask_matrix` of `rgb_to_ihs`: rows I, V1 and V2. */
  function MaskMatrix(s2: real, s6: real): (m: Matrix)
    requires Roots(s2, s6)
    ensures |m| == 3 && forall k :: 0 <= k < 3 ==> |m[k]| == 3
    ensures ValidMask(m)
  {
    [[1.0 / 3.0, 1.0 / 3.0, 1.0 / 3.0],
     [1.0 / s6, 1.0 / s6, -2.0 / s6],
     [1.0 / s2, -1.0 / s2, 0.0]]
  }

  /** An RGB pixel. */
  predicate IsRgb(px: seq<real>) {
    |px| == 3
  }

  /** The I, V1, V2 values of one RGB pixel. */
  function IhsPixel(px: seq<real>, s2: real, s6: real): (q: seq<real>)
    requires Roots(s2, s6) && IsRgb(px)
    ensures |q| == 3
    ensures q[0] == (px[0] + px[1] + px[2]) / 3.0
    ensures q[1] == (px[0] + px[1] - 2.0 * px[2]) / s6
    ensures q[2] == (px[0] - px[1]) / s2
  {
    var m := MaskMatrix(s2, s6);
    Dot3(m[0], px);
    Dot3(m[1], px);
    Dot3(m[2], px);
    TransformPixel(m, px)
  }

  /**
   * `rgb_to_ihs(image_rgb)`: three output channels, one per matrix row,
   * each output pixel computed from the same input pixel alone; on an RGB
   * pixel they are I, V1 and V2.
   */
  function RgbToIhs(img: Image, s2: real, s6: real): (r: Image)
    requires Roots(s2, s6) && WellFormed(img)
    requires |img| > 0 && ImageWidth(img) > 0 ==> Depth(img) >= 1
    ensures IsImage(r, |img|, ImageWidth(img), 3)
    ensures forall y, x :: 0 <= y < |img| && 0 <= x < ImageWidth(img) ==>
      r[y][x] == TransformPixel(MaskMatrix(s2, s6), img[y][x])
    ensures forall y, x :: 0 <= y < |img| && 0 <= x < ImageWidth(img) && IsRgb(img[y][x]) ==>
      r[y][x] == IhsPixel(img[y][x], s2, s6)
  {
    ProcessImagToAnotherModel(img, MaskMatrix(s2, s6))
  }

  /** I is the arithmetic mean of the three colour channels. */
  lemma IntensityIsMean(img: Image, s2: real, s6: real, y: nat, x: nat)
    requires Roots(s2, s6) && IsImage(img, |img|, ImageWidth(img), 3)
    requires y < |img| && x < ImageWidth(img)
    ensures WellFormed(img)
    ensures 3.0 * RgbToIhs(img, s2, s6)[y][x][0] == img[y][x][0] + img[y][x][1] + img[y][x][2]
  {
    assert Depth(img) == 3;
    var q := IhsPixel(img[y][x], s2, s6);
    assert RgbToIhs(img, s2, s6)[y][x] == q;
  }

  /** A grey pixel (R = G = B) has no chroma, and its intensity is its grey level; only grey pixels have no chroma. */
  lemma GreyPixel(px: seq<real>, s2: real, s6: real)
    requires Roots(s2, s6) && IsRgb(px)
    ensures px[0] == px[1] == px[2] ==> IhsPixel(px, s2, s6) == [px[0], 0.0, 0.0]
    ensures IhsPixel(px, s2, s6)[1] == 0.0 && IhsPixel(px, s2, s6)[2] == 0.0 ==> px[0] == px[1] == px[2]
  {
    var q := IhsPixel(px, s2, s6);
    if q[1] == 0.0 && q[2] == 0.0 {
      ZeroQuotient(px[0] - px[1], s2);
      ZeroQuotient(px[0] + px[1] - 2.0 * px[2], s6);
    }
  }

  lemma ZeroQuotient(a: real, s: real)
    requires s > 0.0 && a / s == 0.0
    ensures a == 0.0
  {
    assert a == (a / s) * s;
  }

  /** Adds d to every channel of a pixel. */
  function Brighten(px: seq<real>, d: real): (r: seq<real>)
    ensures |r| == |px| && forall j :: 0 <= j < |px| ==> r[j] == px[j] + d
  {
    seq(|px|, j requires 0 <= j < |px| => px[j] + d)
  }

  /** Adding d to R, G and B adds d to I and leaves V1 and V2 unchanged (each chroma row sums to 0). */
  lemma BrightenPixel(px: seq<real>, d: real, s2: real, s6: real)
    requires Roots(s2, s6) && IsRgb(px)
    ensures IhsPixel(Brighten(px, d), s2, s6)[0] == IhsPixel(px, s2, s6)[0] + d
    ensures IhsPixel(Brighten(px, d), s2, s6)[1] == IhsPixel(px, s2, s6)[1]
    ensures IhsPixel(Brighten(px, d), s2, s6)[2] == IhsPixel(px, s2, s6)[2]
  {
    var b := Brighten(px, d);
    var q, p := IhsPixel(b, s2, s6), IhsPixel(px, s2, s6);
    assert q[1] == (px[0] + px[1] - 2.0 * px[2]) / s6 by {
      assert b[0] + b[1] - 2.0 * b[2] == px[0] + px[1] - 2.0 * px[2];
    }
    assert q[2] == (px[0] - px[1]) / s2 by {
      assert b[0] - b[1] == px[0] - px[1];
    }
  }

  /** The pixel with its R and G channels exchanged. */
  function SwapRG(px: seq<real>): (r: seq<real>)
    requires IsRgb(px)
    ensures IsRgb(r) && r[0] == px[1] && r[1] == px[0] && r[2] == px[2]
  {
    [px[1], px[0], px[2]]
  }

  /** Exchanging R and G keeps I and V1 and negates V2. */
  lemma SwapRGPixel(px: seq<real>, s2: real, s6: real)
    requires Roots(s2, s6) && IsRgb(px)
    ensures IhsPixel(SwapRG(px), s2, s6) == [IhsPixel(px, s2, s6)[0], IhsPixel(px, s2, s6)[1], -IhsPixel(px, s2, s6)[2]]
  {
    var q, p := IhsPixel(SwapRG(px), s2, s6), IhsPixel(px, s2, s6);
    assert q[2] == -p[2] by {
      assert px[1] - px[0] == -(px[0] - px[1]);
    }
  }
}
