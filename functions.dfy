/**
 * Band and image helpers of func/functions.py.
 *
 * A band is a grid of samples, row by row (numpy shape (H, W)).  An image is
 * pixel-interleaved, numpy shape (H, W, C): `img[y][x]` is the vector of the
 * C channel values of pixel (y, x).  A raster as read from a dataset is band
 * interleaved, shape (C, H, W), i.e. a sequence of bands.
 * Samples are exact reals; floating-point rounding is not modelled.
 */
module Functions {

  type Band = seq<seq<real>>
  type Image = seq<seq<seq<real>>>
  type Matrix = seq<seq<real>>

  /** An 8-bit sample, as read from the 8-bit rasters. */
  type Byte = x: int | 0 <= x < 256

  // ---------------------------------------------------------------------
  // Shapes

  function Width(b: Band): nat {
    if |b| == 0 then 0 else |b[0]|
  }

  predicate IsGrid<T>(b: seq<seq<T>>, h: nat, w: nat) {
    |b| == h && forall y :: 0 <= y < h ==> |b[y]| == w
  }

  /** A rectangular band. */
  predicate IsBand(b: Band) {
    IsGrid(b, |b|, Width(b))
  }

  /** Two rectangular bands of the same height and width. */
  predicate SameShape(a: Band, b: Band) {
    IsBand(a) && IsGrid(b, |a|, Width(a))
  }

  function ImageWidth(img: Image): nat {
    if |img| == 0 then 0 else |img[0]|
  }

  function Depth(img: Image): nat {
    if |img| == 0 || |img[0]| == 0 then 0 else |img[0][0]|
  }

  predicate IsImage(img: Image, h: nat, w: nat, c: nat) {
    |img| == h &&
    forall y :: 0 <= y < h ==>
      |img[y]| == w && forall x :: 0 <= x < w ==> |img[y][x]| == c
  }

  /** An (H, W, C) array. */
  predicate WellFormed(img: Image) {
    IsImage(img, |img|, ImageWidth(img), Depth(img))
  }

  /** Every pixel of `img` has a channel `k`. */
  predicate HasChannel(img: Image, k: nat) {
    forall y, x :: 0 <= y < |img| && 0 <= x < |img[y]| ==> k < |img[y][x]|
  }

  /** `img[:,:,k]`: channel `k` as a band. */
  function Channel(img: Image, k: nat): (b: Band)
    requires WellFormed(img) && HasChannel(img, k)
    ensures IsGrid(b, |img|, ImageWidth(img))
    ensures forall y, x :: 0 <= y < |img| && 0 <= x < ImageWidth(img) ==> b[y][x] == img[y][x][k]
  {
    seq(|img|, y requires 0 <= y < |img| =>
      seq(ImageWidth(img), x requires 0 <= x < ImageWidth(img) => img[y][x][k]))
  }

  /** Two bands with the same shape and the same samples are equal. */
  lemma BandExtensionality(a: Band, b: Band)
    requires SameShape(a, b)
    requires forall y, x :: 0 <= y < |a| && 0 <= x < Width(a) ==> a[y][x] == b[y][x]
    ensures a == b
  {
    forall y | 0 <= y < |a|
      ensures a[y] == b[y]
    {
      assert |a[y]| == Width(a);
    }
  }

  /** Two images with the same shape and the same samples are equal. */
  lemma ImageExtensionality(a: Image, b: Image, h: nat, w: nat, c: nat)
    requires IsImage(a, h, w, c) && IsImage(b, h, w, c)
    requires forall y, x, k :: 0 <= y < h && 0 <= x < w && 0 <= k < c ==> a[y][x][k] == b[y][x][k]
    ensures a == b
  {
    forall y | 0 <= y < h
      ensures a[y] == b[y]
    {
      forall x | 0 <= x < w
        ensures a[y][x] == b[y][x]
      {
      }
    }
  }

  // ---------------------------------------------------------------------
  // functions.py:26-29, process_imag_to_another_model

  function Min(a: nat, b: nat): nat {
    if a <= b then a else b
  }

  /** The first `n` terms of `sum(value * px[channel] for ...)`, added left to right. */
  function PrefixDot(row: seq<real>, px: seq<real>, n: nat): real
    requires n <= |row| && n <= |px|
  {
    if n == 0 then 0.0 else PrefixDot(row, px, n - 1) + row[n - 1] * px[n - 1]
  }

  /**
   * One mask row applied to one pixel: `zip(row, range(C))` stops at the
   * shorter of the row and the channel count.
   */
  function Dot(row: seq<real>, px: seq<real>): real {
    PrefixDot(row, px, Min(|row|, |px|))
  }

  /** The output pixel: one value per mask row. */
  function TransformPixel(mask: Matrix, px: seq<real>): (out: seq<real>)
    ensures |out| == |mask|
    ensures forall k :: 0 <= k < |mask| ==> out[k] == Dot(mask[k], px)
  {
    seq(|mask|, k requires 0 <= k < |mask| => Dot(mask[k], px))
  }

  /** A mask numpy can stack: at least one row, and no empty row (an empty row sums to the scalar 0). */
  predicate ValidMask(mask: Matrix) {
    |mask| >= 1 && forall k :: 0 <= k < |mask| ==> |mask[k]| >= 1
  }

  /**
   * `process_imag_to_another_model(img, mask)`: output channel k is
   * sum_j mask[k][j] * img[:,:,j], one output channel per mask row; every
   * output pixel is computed from the same input pixel alone.
   */
  function ProcessImagToAnotherModel(img: Image, mask: Matrix): (r: Image)
    requires WellFormed(img) && ValidMask(mask)
    requires |img| > 0 && ImageWidth(img) > 0 ==> Depth(img) >= 1
    ensures IsImage(r, |img|, ImageWidth(img), |mask|)
    ensures forall y, x :: 0 <= y < |img| && 0 <= x < ImageWidth(img) ==>
      r[y][x] == TransformPixel(mask, img[y][x])
  {
    seq(|img|, y requires 0 <= y < |img| =>
      seq(ImageWidth(img), x requires 0 <= x < ImageWidth(img) => TransformPixel(mask, img[y][x])))
  }

  // Linearity of the per-pixel transform.

  /** c times every entry of a vector: a pixel, a kernel row or a list of row sums. */
  function Scale(c: real, px: seq<real>): (r: seq<real>)
    ensures |r| == |px| && forall j :: 0 <= j < |px| ==> r[j] == c * px[j]
  {
    seq(|px|, j requires 0 <= j < |px| => c * px[j])
  }

  function AddPixel(p: seq<real>, q: seq<real>): (r: seq<real>)
    requires |p| == |q|
    ensures |r| == |p| && forall j :: 0 <= j < |p| ==> r[j] == p[j] + q[j]
  {
    seq(|p|, j requires 0 <= j < |p| => p[j] + q[j])
  }

  function ScaleImage(c: real, img: Image): (r: Image)
    requires WellFormed(img)
    ensures IsImage(r, |img|, ImageWidth(img), Depth(img))
    ensures forall y, x :: 0 <= y < |img| && 0 <= x < ImageWidth(img) ==> r[y][x] == Scale(c, img[y][x])
  {
    seq(|img|, y requires 0 <= y < |img| =>
      seq(ImageWidth(img), x requires 0 <= x < ImageWidth(img) => Scale(c, img[y][x])))
  }

  function AddImage(a: Image, b: Image): (r: Image)
    requires WellFormed(a) && IsImage(b, |a|, ImageWidth(a), Depth(a))
    ensures IsImage(r, |a|, ImageWidth(a), Depth(a))
    ensures forall y, x :: 0 <= y < |a| && 0 <= x < ImageWidth(a) ==> r[y][x] == AddPixel(a[y][x], b[y][x])
  {
    seq(|a|, y requires 0 <= y < |a| =>
      seq(ImageWidth(a), x requires 0 <= x < ImageWidth(a) => AddPixel(a[y][x], b[y][x])))
  }

  lemma {:induction false} PrefixDotScale(row: seq<real>, px: seq<real>, c: real, n: nat)
    requires n <= |row| && n <= |px|
    ensures PrefixDot(row, Scale(c, px), n) == c * PrefixDot(row, px, n)
  {
    if n > 0 {
      PrefixDotScale(row, px, c, n - 1);
    }
  }

  lemma {:induction false} PrefixDotAdd(row: seq<real>, p: seq<real>, q: seq<real>, n: nat)
    requires |p| == |q| && n <= |row| && n <= |p|
    ensures PrefixDot(row, AddPixel(p, q), n) == PrefixDot(row, p, n) + PrefixDot(row, q, n)
  {
    if n > 0 {
      PrefixDotAdd(row, p, q, n - 1);
    }
  }

  /** Scaling every pixel by c scales every output pixel by c. */
  lemma TransformPixelScale(mask: Matrix, px: seq<real>, c: real)
    ensures TransformPixel(mask, Scale(c, px)) == Scale(c, TransformPixel(mask, px))
  {
    forall k | 0 <= k < |mask|
      ensures TransformPixel(mask, Scale(c, px))[k] == Scale(c, TransformPixel(mask, px))[k]
    {
      PrefixDotScale(mask[k], px, c, Min(|mask[k]|, |px|));
    }
  }

  /** The transform of a sum of pixels is the sum of their transforms. */
  lemma TransformPixelAdd(mask: Matrix, p: seq<real>, q: seq<real>)
    requires |p| == |q|
    ensures TransformPixel(mask, AddPixel(p, q)) == AddPixel(TransformPixel(mask, p), TransformPixel(mask, q))
  {
    forall k | 0 <= k < |mask|
      ensures TransformPixel(mask, AddPixel(p, q))[k] == AddPixel(TransformPixel(mask, p), TransformPixel(mask, q))[k]
    {
      PrefixDotAdd(mask[k], p, q, Min(|mask[k]|, |p|));
    }
  }

  /** process_imag_to_another_model is homogeneous: transforming c*img gives c times the transform. */
  lemma ProcessScale(img: Image, mask: Matrix, c: real)
    requires WellFormed(img) && ValidMask(mask)
    requires |img| > 0 && ImageWidth(img) > 0 ==> Depth(img) >= 1
    ensures WellFormed(ScaleImage(c, img))
    ensures ProcessImagToAnotherModel(ScaleImage(c, img), mask)
         == ScaleImage(c, ProcessImagToAnotherModel(img, mask))
  {
    var s := ScaleImage(c, img);
    var lhs := ProcessImagToAnotherModel(s, mask);
    var out := ProcessImagToAnotherModel(img, mask);
    assert ImageWidth(s) == ImageWidth(img);
    assert WellFormed(s);
    var rhs := ScaleImage(c, out);
    forall y, x | 0 <= y < |img| && 0 <= x < ImageWidth(img)
      ensures lhs[y][x] == rhs[y][x]
    {
      TransformPixelScale(mask, img[y][x], c);
    }
    ImageExtensionality(lhs, rhs, |img|, ImageWidth(img), |mask|);
  }

  /** process_imag_to_another_model is additive: the transform of a sum is the sum of the transforms. */
  lemma ProcessAdd(a: Image, b: Image, mask: Matrix)
    requires WellFormed(a) && IsImage(b, |a|, ImageWidth(a), Depth(a)) && ValidMask(mask)
    requires |a| > 0 && ImageWidth(a) > 0 ==> Depth(a) >= 1
    ensures WellFormed(b) && WellFormed(AddImage(a, b))
    ensures ProcessImagToAnotherModel(AddImage(a, b), mask)
         == AddImage(ProcessImagToAnotherModel(a, mask), ProcessImagToAnotherModel(b, mask))
  {
    var s := AddImage(a, b);
    assert ImageWidth(s) == ImageWidth(a) && ImageWidth(b) == ImageWidth(a);
    assert WellFormed(s) && WellFormed(b);
    var lhs := ProcessImagToAnotherModel(s, mask);
    var pa := ProcessImagToAnotherModel(a, mask);
    var pb := ProcessImagToAnotherModel(b, mask);
    var rhs := AddImage(pa, pb);
    forall y, x | 0 <= y < |a| && 0 <= x < ImageWidth(a)
      ensures lhs[y][x] == rhs[y][x]
    {
      TransformPixelAdd(mask, a[y][x], b[y][x]);
    }
    ImageExtensionality(lhs, rhs, |a|, ImageWidth(a), |mask|);
  }

  /** A three-term sum, unfolded. */
  lemma Dot3(row: seq<real>, px: seq<real>)
    requires |row| == 3 && |px| >= 3
    ensures Dot(row, px) == row[0] * px[0] + row[1] * px[1] + row[2] * px[2]
  {
    assert Dot(row, px) == PrefixDot(row, px, 3);
    assert PrefixDot(row, px, 1) == row[0] * px[0];
    assert PrefixDot(row, px, 2) == row[0] * px[0] + row[1] * px[1];
  }

  // ---------------------------------------------------------------------
  // functions.py:17, 20, 155-166: splitting and stacking bands

  /**
   * `get_RGB_bands_satellite_ndarray_and_other_bands`: the list
   * `[src[ix,:,:] for ix in range(src.shape[0])]` of the bands of a (C, H, W) raster.
   */
  function SplitBands(src: seq<Band>): (bands: seq<Band>)
    ensures |bands| == |src|
    ensures forall ix :: 0 <= ix < |src| ==> bands[ix] == src[ix]
  {
    seq(|src|, ix requires 0 <= ix < |src| => src[ix])
  }

  /** Bands that numpy can stack: at least one, all of the first one's shape. */
  predicate Stackable(bands: seq<Band>) {
    |bands| >= 1 && IsBand(bands[0]) &&
    forall k :: 0 <= k < |bands| ==> IsGrid(bands[k], |bands[0]|, Width(bands[0]))
  }

  /** `np.dstack` of single bands: channel k of the result is bands[k]. */
  function DStack(bands: seq<Band>): (r: Image)
    requires Stackable(bands)
    ensures IsImage(r, |bands[0]|, Width(bands[0]), |bands|)
    ensures WellFormed(r)
    ensures forall k :: 0 <= k < |bands| ==> HasChannel(r, k) && Channel(r, k) == bands[k]
  {
    var h, w := |bands[0]|, Width(bands[0]);
    var r := seq(h, y requires 0 <= y < h =>
      seq(w, x requires 0 <= x < w => seq(|bands|, k requires 0 <= k < |bands| => bands[k][y][x])));
    assert IsImage(r, h, w, |bands|);
    assert h > 0 && w > 0 ==> Depth(r) == |bands|;
    forall k | 0 <= k < |bands|
      ensures HasChannel(r, k) && Channel(r, k) == bands[k]
    {
      BandExtensionality(Channel(r, k), bands[k]);
    }
    r
  }

  /** `ndarray_rgb(r, g, b)`: channels 0, 1, 2 are r, g and b. */
  function NdarrayRgb(r: Band, g: Band, b: Band): (img: Image)
    requires SameShape(r, g) && SameShape(r, b)
    ensures IsImage(img, |r|, Width(r), 3) && WellFormed(img)
    ensures HasChannel(img, 2)
    ensures Channel(img, 0) == r && Channel(img, 1) == g && Channel(img, 2) == b
  {
    DStack([r, g, b])
  }

  /** The samples at (y, x) of a list of bands. */
  predicate AllGrids(bands: seq<Band>, h: nat, w: nat) {
    forall k :: 0 <= k < |bands| ==> IsGrid(bands[k], h, w)
  }

  function Column(bands: seq<Band>, h: nat, w: nat, y: nat, x: nat): (px: seq<real>)
    requires AllGrids(bands, h, w)
    requires y < h && x < w
    ensures |px| == |bands| && forall k :: 0 <= k < |bands| ==> px[k] == bands[k][y][x]
  {
    seq(|bands|, k requires 0 <= k < |bands| => bands[k][y][x])
  }

  /**
   * `merge_bands(imageRBG, list_new_bands)`: the channels of the image
   * followed by the listed bands, in order.
   */
  function MergeBands(img: Image, newBands: seq<Band>): (r: Image)
    requires WellFormed(img)
    requires AllGrids(newBands, |img|, ImageWidth(img))
    ensures IsImage(r, |img|, ImageWidth(img), Depth(img) + |newBands|)
    ensures forall y, x, k :: 0 <= y < |img| && 0 <= x < ImageWidth(img) && 0 <= k < Depth(img) + |newBands| ==>
      r[y][x][k] == if k < Depth(img) then img[y][x][k] else newBands[k - Depth(img)][y][x]
  {
    var h, w := |img|, ImageWidth(img);
    seq(h, y requires 0 <= y < h =>
      seq(w, x requires 0 <= x < w => img[y][x] + Column(newBands, h, w, y, x)))
  }

  /** The merged image is an (H, W, C + n) array. */
  lemma MergeBandsWellFormed(img: Image, newBands: seq<Band>)
    requires WellFormed(img)
    requires AllGrids(newBands, |img|, ImageWidth(img))
    ensures WellFormed(MergeBands(img, newBands))
    ensures forall k :: 0 <= k < Depth(img) + |newBands| ==> HasChannel(MergeBands(img, newBands), k)
  {
    var r := MergeBands(img, newBands);
    assert |img| > 0 && ImageWidth(img) > 0 ==> Depth(r) == Depth(img) + |newBands|;
  }

  /** Channel k < C of the merged image is channel k of the image. */
  lemma MergeBandsOldChannel(img: Image, newBands: seq<Band>, k: nat)
    requires WellFormed(img)
    requires AllGrids(newBands, |img|, ImageWidth(img))
    requires k < Depth(img)
    ensures WellFormed(MergeBands(img, newBands)) && HasChannel(MergeBands(img, newBands), k) && HasChannel(img, k)
    ensures Channel(MergeBands(img, newBands), k) == Channel(img, k)
  {
    MergeBandsWellFormed(img, newBands);
    BandExtensionality(Channel(MergeBands(img, newBands), k), Channel(img, k));
  }

  /** Channel C + k of the merged image is the k-th listed band. */
  lemma MergeBandsNewChannel(img: Image, newBands: seq<Band>, k: nat)
    requires WellFormed(img)
    requires AllGrids(newBands, |img|, ImageWidth(img))
    requires k < |newBands|
    ensures WellFormed(MergeBands(img, newBands)) && HasChannel(MergeBands(img, newBands), Depth(img) + k)
    ensures Channel(MergeBands(img, newBands), Depth(img) + k) == newBands[k]
  {
    MergeBandsWellFormed(img, newBands);
    var r, c := MergeBands(img, newBands), Depth(img);
    var ch := Channel(r, c + k);
    assert IsGrid(newBands[k], |img|, ImageWidth(img));
    forall y, x | 0 <= y < |img| && 0 <= x < ImageWidth(img)
      ensures ch[y][x] == newBands[k][y][x]
    {
      assert r[y][x][c + k] == newBands[k][y][x];
    }
    BandExtensionality(ch, newBands[k]);
  }

  /** Channel law of merge_bands: the image's channels first, then the listed bands. */
  lemma MergeBandsChannels(img: Image, newBands: seq<Band>)
    requires WellFormed(img)
    requires AllGrids(newBands, |img|, ImageWidth(img))
    ensures WellFormed(MergeBands(img, newBands))
    ensures forall k :: 0 <= k < Depth(img) ==>
      HasChannel(MergeBands(img, newBands), k) && HasChannel(img, k) &&
      Channel(MergeBands(img, newBands), k) == Channel(img, k)
    ensures forall k :: 0 <= k < |newBands| ==>
      HasChannel(MergeBands(img, newBands), Depth(img) + k) &&
      Channel(MergeBands(img, newBands), Depth(img) + k) == newBands[k]
  {
    MergeBandsWellFormed(img, newBands);
    forall k | 0 <= k < Depth(img)
      ensures HasChannel(MergeBands(img, newBands), k) && HasChannel(img, k) &&
        Channel(MergeBands(img, newBands), k) == Channel(img, k)
    {
      MergeBandsOldChannel(img, newBands, k);
    }
    forall k | 0 <= k < |newBands|
      ensures HasChannel(MergeBands(img, newBands), Depth(img) + k) &&
        Channel(MergeBands(img, newBands), Depth(img) + k) == newBands[k]
    {
      MergeBandsNewChannel(img, newBands, k);
    }
  }

  /** Channel k of the split, stacked and re-merged raster is band k. */
  lemma SplitStackMergeChannel(src: seq<Band>, k: nat)
    requires |src| >= 3 && Stackable(src) && k < |src|
    ensures var rgb := NdarrayRgb(src[0], src[1], src[2]);
      var merged := MergeBands(rgb, src[3..]);
      WellFormed(merged) && HasChannel(merged, k) && Channel(merged, k) == src[k]
  {
    var rgb := NdarrayRgb(src[0], src[1], src[2]);
    var h, w := |src[0]|, Width(src[0]);
    var merged := MergeBands(rgb, src[3..]);
    MergeBandsWellFormed(rgb, src[3..]);
    assert IsImage(merged, h, w, Depth(rgb) + |src| - 3);
    assert IsGrid(src[k], h, w);
    if h > 0 && w > 0 {
      assert Depth(rgb) == 3;
      if k < 3 {
        MergeBandsOldChannel(rgb, src[3..], k);
      } else {
        MergeBandsNewChannel(rgb, src[3..], k - 3);
      }
    } else {
      assert HasChannel(merged, k);
      BandExtensionality(Channel(merged, k), src[k]);
    }
  }

  /**
   * The flow of main.py:37-40 and 77 without the fusion in between: split a
   * raster into bands, stack the first three as RGB, merge the rest back
   * behind them; channel k of the result is band k of the raster.
   */
  lemma SplitStackMerge(src: seq<Band>)
    requires |src| >= 3 && Stackable(src)
    ensures var bands := SplitBands(src);
      var rgb := NdarrayRgb(bands[0], bands[1], bands[2]);
      var merged := MergeBands(rgb, bands[3..]);
      |merged| == |src[0]| &&
      (forall k :: 0 <= k < |src| ==> HasChannel(merged, k) && Channel(merged, k) == src[k])
  {
    var bands := SplitBands(src);
    assert bands == src;
    forall k | 0 <= k < |src|
      ensures HasChannel(MergeBands(NdarrayRgb(src[0], src[1], src[2]), src[3..]), k)
      ensures Channel(MergeBands(NdarrayRgb(src[0], src[1], src[2]), src[3..]), k) == src[k]
    {
      SplitStackMergeChannel(src, k);
    }
  }

  // ---------------------------------------------------------------------
  // functions.py:109, get_pancromatica

  /**
   * One pan sample: the mean of the three 8-bit band samples, truncated to
   * an integer by the cast to uint8 (truncation is the floor on these
   * non-negative values).  It lies between the smallest and the largest
   * of the three.
   */
  function PanPixel(b1: Byte, b2: Byte, b3: Byte): (p: Byte)
    ensures 3 * p <= b1 + b2 + b3 < 3 * p + 3
    ensures (b1 <= b2 && b1 <= b3 ==> b1 <= p) && (b2 <= b1 && b2 <= b3 ==> b2 <= p)
         && (b3 <= b1 && b3 <= b2 ==> b3 <= p)
    ensures (b1 >= b2 && b1 >= b3 ==> p <= b1) && (b2 >= b1 && b2 >= b3 ==> p <= b2)
         && (b3 >= b1 && b3 >= b2 ==> p <= b3)
  {
    (b1 + b2 + b3) / 3
  }

  /** `get_pancromatica`: the per-pixel truncated mean of bands 1, 2 and 3. */
  function GetPancromatica(b1: seq<seq<Byte>>, b2: seq<seq<Byte>>, b3: seq<seq<Byte>>): (pan: seq<seq<Byte>>)
    requires |b1| > 0 ==> IsGrid(b1, |b1|, |b1[0]|)
    requires |b1| > 0 ==> IsGrid(b2, |b1|, |b1[0]|) && IsGrid(b3, |b1|, |b1[0]|)
    requires |b1| == 0 ==> |b2| == 0 && |b3| == 0
    ensures |pan| == |b1| && forall y :: 0 <= y < |b1| ==> |pan[y]| == |b1[y]|
    ensures forall y, x :: 0 <= y < |b1| && 0 <= x < |b1[y]| ==>
      3 * (pan[y][x] as int) <= b1[y][x] as int + b2[y][x] as int + b3[y][x] as int < 3 * (pan[y][x] as int) + 3
  {
    seq(|b1|, y requires 0 <= y < |b1| =>
      seq(|b1[y]|, x requires 0 <= x < |b1[y]| => PanPixel(b1[y][x], b2[y][x], b3[y][x])))
  }
}
