/**
 * The two-level "a trous" wavelet injection of data_fusion/a_wavelet/a_wavelet.py:
 * two literal low-pass kernels, OpenCV's filter2D on them, and the
 * injection of the two detail planes of the pan band into the intensity band.
 */
module Wavelet {
  import opened Functions

  type Kernel = seq<seq<real>>

  /** A non-empty rectangular kernel. */
  predicate IsKernel(k: Kernel) {
    |k| >= 1 && Width(k) >= 1 && IsBand(k)
  }

  // ---------------------------------------------------------------------
  // The kernels, a_wavelet.py:5-22

  const Filtro5x5: Kernel := [
    [1.0/256.0, 1.0/64.0, 3.0/128.0, 1.0/64.0, 1.0/256.0],
    [1.0/64.0, 1.0/16.0, 3.0/32.0, 1.0/16.0, 1.0/64.0],
    [3.0/128.0, 3.0/32.0, 9.0/64.0, 3.0/32.0, 3.0/128.0],
    [1.0/64.0, 1.0/16.0, 3.0/32.0, 1.0/16.0, 1.0/64.0],
    [1.0/256.0, 1.0/64.0, 3.0/128.0, 1.0/64.0, 1.0/256.0]
  ]

  const Filtro9x9: Kernel := [
    [1.0/256.0, 0.0, 1.0/64.0, 0.0, 3.0/128.0, 0.0, 1.0/64.0, 0.0, 1.0/256.0],
    [0.0, 0.0, 0.0, 0.0, 0.0, 0.0, 0.0, 0.0, 0.0],
    [1.0/64.0, 0.0, 1.0/16.0, 0.0, 3.0/32.0, 0.0, 1.0/16.0, 0.0, 1.0/64.0],
    [0.0, 0.0, 0.0, 0.0, 0.0, 0.0, 0.0, 0.0, 0.0],
    [3.0/128.0, 0.0, 3.0/32.0, 0.0, 9.0/64.0, 0.0, 3.0/32.0, 0.0, 3.0/128.0],
    [0.0, 0.0, 0.0, 0.0, 0.0, 0.0, 0.0, 0.0, 0.0],
    [1.0/64.0, 0.0, 1.0/16.0, 0.0, 3.0/32.0, 0.0, 1.0/16.0, 0.0, 1.0/64.0],
    [0.0, 0.0, 0.0, 0.0, 0.0, 0.0, 0.0, 0.0, 0.0],
    [1.0/256.0, 0.0, 1.0/64.0, 0.0, 3.0/128.0, 0.0, 1.0/64.0, 0.0, 1.0/256.0]
  ]

  /** The one-dimensional B3-spline taps (1, 4, 6, 4, 1) / 16. */
  const B3: seq<real> := [1.0/16.0, 4.0/16.0, 6.0/16.0, 4.0/16.0, 1.0/16.0]

  /** The first n entries of a row, added left to right. */
  function SumTo(row: seq<real>, n: nat): real
    requires n <= |row|
  {
    if n == 0 then 0.0 else SumTo(row, n - 1) + row[n - 1]
  }

  /** Sum of a row. */
  function RowSum(row: seq<real>): real {
    SumTo(row, |row|)
  }

  /** The sum of each kernel row. */
  function RowSums(k: Kernel): (r: seq<real>)
    ensures |r| == |k| && forall i :: 0 <= i < |k| ==> r[i] == RowSum(k[i])
  {
    seq(|k|, i requires 0 <= i < |k| => RowSum(k[i]))
  }

  /** Sum of all coefficients of a kernel, row by row. */
  function KernelSum(k: Kernel): real {
    RowSum(RowSums(k))
  }

  /** The outer product u v^T. */
  function Outer(u: seq<real>, v: seq<real>): (k: Kernel)
    ensures |k| == |u| && forall i :: 0 <= i < |u| ==> |k[i]| == |v|
    ensures forall i, j :: 0 <= i < |u| && 0 <= j < |v| ==> k[i][j] == u[i] * v[j]
  {
    seq(|u|, i requires 0 <= i < |u| => seq(|v|, j requires 0 <= j < |v| => u[i] * v[j]))
  }

  /** k^T, for a square kernel. */
  function Transpose(k: Kernel): (t: Kernel)
    requires IsGrid(k, |k|, |k|)
    ensures IsGrid(t, |k|, |k|)
    ensures forall r, c :: 0 <= r < |k| && 0 <= c < |k| ==> t[r][c] == k[c][r]
  {
    seq(|k|, r requires 0 <= r < |k| => seq(|k|, c requires 0 <= c < |k| => k[c][r]))
  }

  /** The kernel upside down. */
  function FlipRows(k: Kernel): (t: Kernel)
    ensures |t| == |k| && forall r :: 0 <= r < |k| ==> t[r] == k[|k| - 1 - r]
  {
    seq(|k|, r requires 0 <= r < |k| => k[|k| - 1 - r])
  }

  /** The kernel mirrored left to right. */
  function FlipColumns(k: Kernel): (t: Kernel)
    ensures |t| == |k|
    ensures forall r :: 0 <= r < |k| ==> |t[r]| == |k[r]|
    ensures forall r, c :: 0 <= r < |k| && 0 <= c < |k[r]| ==> t[r][c] == k[r][|k[r]| - 1 - c]
  {
    seq(|k|, r requires 0 <= r < |k| =>
      seq(|k[r]|, c requires 0 <= c < |k[r]| => k[r][|k[r]| - 1 - c]))
  }

  /**
   * filtro_5x5 is the separable B3-spline kernel: the outer product of
   * (1, 4, 6, 4, 1) / 16 with itself.
   */
  lemma Filtro5x5Separable()
    ensures Filtro5x5 == Outer(B3, B3)
  {
    var o := Outer(B3, B3);
    assert Filtro5x5[0] == o[0];
    assert Filtro5x5[1] == o[1];
    assert Filtro5x5[2] == o[2];
    assert Filtro5x5[3] == o[3];
    assert Filtro5x5[4] == o[4];
  }

  /** The outer product of a vector with itself is symmetric. */
  lemma OuterTranspose(u: seq<real>)
    ensures Transpose(Outer(u, u)) == Outer(u, u)
  {
    var o := Outer(u, u);
    forall r, c | 0 <= r < |u| && 0 <= c < |u|
      ensures Transpose(o)[r][c] == o[r][c]
    {
      assert o[c][r] == u[c] * u[r] == u[r] * u[c];
    }
    BandExtensionality(Transpose(o), o);
  }

  /** filtro_5x5 is symmetric: it equals its transpose. */
  lemma Filtro5x5Transpose()
    ensures Transpose(Filtro5x5) == Filtro5x5
  {
    Filtro5x5Separable();
    OuterTranspose(B3);
  }

  /** filtro_5x5 is unchanged by mirroring its rows (upside down) or its columns (left to right). */
  lemma Filtro5x5Mirror()
    ensures FlipRows(Filtro5x5) == Filtro5x5
    ensures FlipColumns(Filtro5x5) == Filtro5x5
  {
    var f := Filtro5x5;
    assert FlipRows(f)[0] == f[0] && FlipRows(f)[1] == f[1] && FlipRows(f)[2] == f[2];
    assert FlipRows(f)[3] == f[3] && FlipRows(f)[4] == f[4];
    var g := FlipColumns(f);
    assert g[0] == f[0];
    assert g[1] == f[1];
    assert g[2] == f[2];
    assert g[3] == f[3];
    assert g[4] == f[4];
  }

  // ---------------------------------------------------------------------
  // Dilation by one: the 9x9 kernel is the 5x5 kernel with a zero between taps

  /** d is row with a zero between every two adjacent taps. */
  predicate Holes(d: seq<real>, row: seq<real>) {
    |row| >= 1 && |d| == 2 * |row| - 1 &&
    forall j :: 0 <= j < |d| ==> d[j] == HoleTap(row, j)
  }

  /** Entry j of the dilated row: a tap on even j, a hole on odd j. */
  function HoleTap(row: seq<real>, j: nat): real
    requires j < 2 * |row| - 1
  {
    if j % 2 == 0 then row[j / 2] else 0.0
  }

  /** A row with a zero inserted between every two adjacent taps. */
  function DilateRow(row: seq<real>): (r: seq<real>)
    requires |row| >= 1
    ensures Holes(r, row)
  {
    seq(2 * |row| - 1, j requires 0 <= j < 2 * |row| - 1 => HoleTap(row, j))
  }

  lemma HoleTapEven(row: seq<real>, j: nat)
    requires j < |row|
    ensures HoleTap(row, 2 * j) == row[j]
  {
    Parity(j);
  }

  lemma HoleTapOdd(row: seq<real>, j: nat)
    requires 1 <= j < |row|
    ensures HoleTap(row, 2 * j - 1) == 0.0
  {
    Parity(j);
  }

  function Zeros(n: nat): (r: seq<real>)
    ensures |r| == n && forall j :: 0 <= j < n ==> r[j] == 0.0
  {
    seq(n, _ => 0.0)
  }

  /**
   * A kernel with one row and one column of zeros inserted between every
   * two adjacent taps (the a trous "holes"): `g[2r][2c] == f[r][c]`, and
   * every entry with an odd row or column index is 0.
   */
  function Dilate(k: Kernel): (g: Kernel)
    requires IsKernel(k)
    ensures |g| == 2 * |k| - 1 && IsGrid(g, |g|, 2 * Width(k) - 1) && IsKernel(g)
    ensures forall r, c :: 0 <= r < |k| && 0 <= c < Width(k) ==> g[2 * r][2 * c] == k[r][c]
    ensures forall r, c :: 0 <= r < |g| && 0 <= c < Width(g) && (r % 2 == 1 || c % 2 == 1) ==> g[r][c] == 0.0
  {
    var g := seq(2 * |k| - 1, r requires 0 <= r < 2 * |k| - 1 => KernelRow(k, r));
    DilateTaps(k, g);
    DilateHoles(k, g);
    g
  }

  /** Row r of the dilated kernel: a dilated row of k on even r, zeros on odd r. */
  function KernelRow(k: Kernel, r: nat): (row: seq<real>)
    requires IsKernel(k) && r < 2 * |k| - 1
    ensures |row| == 2 * Width(k) - 1
  {
    if r % 2 == 0 then
      assert |k[r / 2]| == Width(k);
      DilateRow(k[r / 2])
    else
      Zeros(2 * Width(k) - 1)
  }

  /** Rows built by KernelRow form a kernel whose even entries are those of k. */
  lemma DilateTaps(k: Kernel, g: Kernel)
    requires IsKernel(k) && |g| == 2 * |k| - 1
    requires forall r :: 0 <= r < |g| ==> g[r] == KernelRow(k, r)
    ensures IsGrid(g, |g|, 2 * Width(k) - 1) && IsKernel(g)
    ensures forall r, c :: 0 <= r < |k| && 0 <= c < Width(k) ==> g[2 * r][2 * c] == k[r][c]
  {
    assert Width(g) == |g[0]|;
    forall r, c | 0 <= r < |k| && 0 <= c < Width(k)
      ensures g[2 * r][2 * c] == k[r][c]
    {
      Parity(r);
      assert |k[r]| == Width(k) && g[2 * r] == DilateRow(k[r]);
      HoleTapEven(k[r], c);
    }
  }

  /** Rows built by KernelRow are zero on every odd row and every odd column. */
  lemma DilateHoles(k: Kernel, g: Kernel)
    requires IsKernel(k) && |g| == 2 * |k| - 1 && IsGrid(g, |g|, 2 * Width(k) - 1)
    requires forall r :: 0 <= r < |g| ==> g[r] == KernelRow(k, r)
    ensures forall r, c :: 0 <= r < |g| && 0 <= c < Width(g) && (r % 2 == 1 || c % 2 == 1) ==> g[r][c] == 0.0
  {
    var w := 2 * Width(k) - 1;
    assert Width(g) == w;
    forall r, c | 0 <= r < |g| && 0 <= c < w && (r % 2 == 1 || c % 2 == 1)
      ensures g[r][c] == 0.0
    {
      if r % 2 == 0 {
        var row := k[r / 2];
        assert |row| == Width(k) && g[r] == DilateRow(row);
        OddIndex(c);
        HoleTapOdd(row, (c + 1) / 2);
      }
    }
  }

  lemma OddIndex(c: int)
    requires c % 2 == 1
    ensures c == 2 * ((c + 1) / 2) - 1
  {
  }

  lemma Parity(j: int)
    ensures (2 * j) % 2 == 0 && (2 * j) / 2 == j
    ensures (2 * j - 1) % 2 == 1
  {
  }

  /** The entries of filtro_9x9: zero on odd rows and columns, filtro_5x5 on even ones. */
  lemma Filtro9x9Entries()
    ensures forall i, j :: 0 <= i < 9 && 0 <= j < 9 && (i % 2 == 1 || j % 2 == 1) ==> Filtro9x9[i][j] == 0.0
    ensures forall i, j :: 0 <= i < 5 && 0 <= j < 5 ==> Filtro9x9[2 * i][2 * j] == Filtro5x5[i][j]
  {
  }

  /** filtro_9x9 is filtro_5x5 dilated by one. */
  lemma Filtro9x9IsDilated()
    ensures IsKernel(Filtro5x5)
    ensures Filtro9x9 == Dilate(Filtro5x5)
  {
    var g := Dilate(Filtro5x5);
    Filtro9x9Entries();
    forall r, c | 0 <= r < 9 && 0 <= c < 9
      ensures Filtro9x9[r][c] == g[r][c]
    {
      if r % 2 == 0 && c % 2 == 0 {
        assert r == 2 * (r / 2) && c == 2 * (c / 2);
      }
    }
    BandExtensionality(Filtro9x9, g);
  }
  // ---------------------------------------------------------------------
  // Both kernels are normalised: their coefficients sum to exactly 1

  lemma {:induction false} SumToScale(c: real, v: seq<real>, n: nat)
    requires n <= |v|
    ensures SumTo(Scale(c, v), n) == c * SumTo(v, n)
  {
    if n > 0 {
      SumToScale(c, v, n - 1);
    }
  }

  /** Scaling every entry scales the sum. */
  lemma RowSumScale(c: real, v: seq<real>)
    ensures RowSum(Scale(c, v)) == c * RowSum(v)
  {
    SumToScale(c, v, |v|);
  }

  /** The coefficients of u v^T sum to (sum u) * (sum v). */
  lemma KernelSumOuter(u: seq<real>, v: seq<real>)
    ensures KernelSum(Outer(u, v)) == RowSum(u) * RowSum(v)
  {
    var o, s := Outer(u, v), RowSum(v);
    var rs := RowSums(o);
    forall i | 0 <= i < |u|
      ensures rs[i] == Scale(s, u)[i]
    {
      assert o[i] == Scale(u[i], v);
      RowSumScale(u[i], v);
    }
    assert rs == Scale(s, u);
    RowSumScale(s, u);
  }

  lemma B3Sum()
    ensures RowSum(B3) == 1.0
  {
    assert SumTo(B3, 1) == 1.0 / 16.0;
    assert SumTo(B3, 2) == 5.0 / 16.0;
    assert SumTo(B3, 3) == 11.0 / 16.0;
    assert SumTo(B3, 4) == 15.0 / 16.0;
  }

  /** The 25 coefficients of filtro_5x5 sum to exactly 1. */
  lemma Filtro5x5Sum()
    ensures KernelSum(Filtro5x5) == 1.0
  {
    Filtro5x5Separable();
    KernelSumOuter(B3, B3);
    B3Sum();
  }

  lemma {:induction false} SumToZeros(w: nat, n: nat)
    requires n <= w
    ensures SumTo(Zeros(w), n) == 0.0
  {
    if n > 0 {
      SumToZeros(w, n - 1);
    }
  }

  lemma {:induction false} SumToHoles(d: seq<real>, row: seq<real>, i: nat)
    requires Holes(d, row) && i < |row|
    ensures SumTo(d, 2 * i + 1) == SumTo(row, i + 1)
  {
    HoleTapEven(row, i);
    if i > 0 {
      SumToHoles(d, row, i - 1);
      HoleTapOdd(row, i);
      assert SumTo(d, 2 * i) == SumTo(d, 2 * i - 1) + d[2 * i - 1];
    }
  }

  /** Inserting zeros between the taps of a row does not change its sum. */
  lemma RowSumDilate(row: seq<real>)
    requires |row| >= 1
    ensures RowSum(DilateRow(row)) == RowSum(row)
  {
    SumToHoles(DilateRow(row), row, |row| - 1);
  }

  /** Dilation does not change the sum of a kernel's coefficients. */
  lemma KernelSumDilate(k: Kernel)
    requires IsKernel(k)
    ensures KernelSum(Dilate(k)) == KernelSum(k)
  {
    var g, w := Dilate(k), 2 * Width(k) - 1;
    var rs, ks := RowSums(g), RowSums(k);
    assert |ks| >= 1;
    var d := DilateRow(ks);
    forall r | 0 <= r < |g|
      ensures rs[r] == d[r]
    {
      if r % 2 == 0 {
        assert r == 2 * (r / 2);
        assert |k[r / 2]| == Width(k) && g[r] == DilateRow(k[r / 2]);
        RowSumDilate(k[r / 2]);
      } else {
        assert g[r] == Zeros(w);
        SumToZeros(w, w);
      }
    }
    assert rs == d;
    RowSumDilate(ks);
  }

  /** The coefficients of filtro_9x9 also sum to exactly 1. */
  lemma Filtro9x9Sum()
    ensures KernelSum(Filtro9x9) == 1.0
  {
    Filtro9x9IsDilated();
    KernelSumDilate(Filtro5x5);
    Filtro5x5Sum();
  }
  // ---------------------------------------------------------------------
  // cv2.filter2D(src, -1, kernel): same-size correlation, anchor at the
  // kernel's centre, border BORDER_REFLECT_101 (OpenCV's default)

  /**
   * OpenCV's border interpolation for BORDER_REFLECT_101 (gfedcb|abcdefgh|gfedcba):
   * an index outside [0, n) is mirrored about the first or last sample, without
   * repeating it, until it falls inside.
   */
  function Reflect101(p: int, n: nat): (q: nat)
    requires n >= 1
    ensures q < n
    ensures 0 <= p < n ==> q == p
    decreases if p < 0 then -p else if p >= n then p - n + 1 else 0
  {
    if n == 1 then 0
    else if p < 0 then Reflect101(-p, n)
    else if p >= n then Reflect101(2 * n - 2 - p, n)
    else p
  }

  /** The products of one kernel row with the samples under it: krow[j] * src(yy, x + j - ax). */
  function RowProducts(img: Band, krow: seq<real>, yy: nat, x: int, ax: int): (p: seq<real>)
    requires yy < |img| && |img[yy]| >= 1
    ensures |p| == |krow|
    ensures forall j :: 0 <= j < |krow| ==> p[j] == krow[j] * img[yy][Reflect101(x + j - ax, |img[yy]|)]
  {
    seq(|krow|, j requires 0 <= j < |krow| => krow[j] * img[yy][Reflect101(x + j - ax, |img[yy]|)])
  }

  /** One kernel row's taps: sum_j krow[j] * src(yy, x + j - ax). */
  function RowTaps(img: Band, krow: seq<real>, yy: nat, x: int, ax: int): real
    requires yy < |img| && |img[yy]| >= 1
  {
    RowSum(RowProducts(img, krow, yy, x, ax))
  }

  /** The taps of every kernel row i, each on source row y + i - ay. */
  function RowTapSums(img: Band, k: Kernel, y: int, x: int, ay: int, ax: int): (p: seq<real>)
    requires IsBand(img) && |img| >= 1 && Width(img) >= 1
    ensures |p| == |k|
    ensures forall i :: 0 <= i < |k| ==> p[i] == RowTaps(img, k[i], Reflect101(y + i - ay, |img|), x, ax)
  {
    seq(|k|, i requires 0 <= i < |k| => RowTaps(img, k[i], Reflect101(y + i - ay, |img|), x, ax))
  }

  /** All the taps: sum_i sum_j k[i][j] * src(y + i - ay, x + j - ax). */
  function Taps(img: Band, k: Kernel, y: int, x: int, ay: int, ax: int): real
    requires IsBand(img) && |img| >= 1 && Width(img) >= 1
  {
    RowSum(RowTapSums(img, k, y, x, ay, ax))
  }

  /** `cv2.filter2D` anchors the kernel at its centre: (rows / 2, columns / 2). */
  function Correlate(img: Band, k: Kernel, y: nat, x: nat): real
    requires IsBand(img) && y < |img| && x < Width(img)
    requires IsKernel(k)
  {
    Taps(img, k, y, x, |k| / 2, Width(k) / 2)
  }

  /**
   * `cv2.filter2D(img, -1, k)`: an image of the same height and width whose
   * sample at (y, x) is the correlation of the kernel with the neighbourhood
   * of (y, x).
   */
  function Filter2D(img: Band, k: Kernel): (r: Band)
    requires IsBand(img) && IsKernel(k)
    ensures SameShape(r, img)
    ensures forall y, x :: 0 <= y < |img| && 0 <= x < Width(img) ==> r[y][x] == Correlate(img, k, y, x)
  {
    seq(|img|, y requires 0 <= y < |img| =>
      seq(Width(img), x requires 0 <= x < Width(img) => Correlate(img, k, y, x)))
  }

  /** A band of height h and width w all of whose samples are c. */
  predicate IsConstant(img: Band, h: nat, w: nat, c: real) {
    IsGrid(img, h, w) && forall y, x :: 0 <= y < h && 0 <= x < w ==> img[y][x] == c
  }

  lemma RowTapsConstant(img: Band, krow: seq<real>, yy: nat, x: int, ax: int, c: real)
    requires IsConstant(img, |img|, Width(img), c) && yy < |img| && |img[yy]| >= 1
    ensures RowTaps(img, krow, yy, x, ax) == c * RowSum(krow)
  {
    var p, q := RowProducts(img, krow, yy, x, ax), Scale(c, krow);
    forall j | 0 <= j < |krow|
      ensures p[j] == q[j]
    {
      var xx := Reflect101(x + j - ax, |img[yy]|);
      assert |img[yy]| == Width(img) && img[yy][xx] == c;
    }
    assert p == q;
    RowSumScale(c, krow);
  }

  lemma RowTapSumsConstant(img: Band, k: Kernel, y: int, x: int, ay: int, ax: int, c: real)
    requires IsConstant(img, |img|, Width(img), c) && |img| >= 1 && Width(img) >= 1
    ensures RowTapSums(img, k, y, x, ay, ax) == Scale(c, RowSums(k))
  {
    var p, q := RowTapSums(img, k, y, x, ay, ax), Scale(c, RowSums(k));
    forall i | 0 <= i < |k|
      ensures p[i] == q[i]
    {
      var yy := Reflect101(y + i - ay, |img|);
      assert |img[yy]| == Width(img);
      RowTapsConstant(img, k[i], yy, x, ax, c);
    }
    assert p == q;
  }

  lemma TapsConstant(img: Band, k: Kernel, y: int, x: int, ay: int, ax: int, c: real)
    requires IsConstant(img, |img|, Width(img), c) && |img| >= 1 && Width(img) >= 1
    ensures Taps(img, k, y, x, ay, ax) == RowSum(Scale(c, RowSums(k)))
  {
    RowTapSumsConstant(img, k, y, x, ay, ax, c);
  }

  /** Scaling the row sums of a kernel that sums to 1 by c gives total c. */
  lemma ScaledUnitSum(k: Kernel, c: real)
    requires KernelSum(k) == 1.0
    ensures RowSum(Scale(c, RowSums(k))) == c
  {
    RowSumScale(c, RowSums(k));
  }

  /** With a kernel that sums to 1, every filtered sample of a constant band is that constant. */
  lemma CorrelateNormalised(img: Band, k: Kernel, y: nat, x: nat, c: real)
    requires IsConstant(img, |img|, Width(img), c) && IsKernel(k) && KernelSum(k) == 1.0
    requires y < |img| && x < Width(img)
    ensures Correlate(img, k, y, x) == c
  {
    TapsConstant(img, k, y, x, |k| / 2, Width(k) / 2, c);
    ScaledUnitSum(k, c);
  }

  /**
   * A constant image is a fixed point of filtering with a normalised kernel:
   * every tap reads a sample of the image, so each output is c times the
   * kernel's sum.
   */
  lemma Filter2DConstant(img: Band, k: Kernel, c: real)
    requires IsConstant(img, |img|, Width(img), c) && IsKernel(k) && KernelSum(k) == 1.0
    ensures Filter2D(img, k) == img
  {
    var r := Filter2D(img, k);
    forall y, x | 0 <= y < |img| && 0 <= x < Width(img)
      ensures r[y][x] == img[y][x]
    {
      CorrelateNormalised(img, k, y, x, c);
    }
    BandExtensionality(r, img);
  }

  // ---------------------------------------------------------------------
  // Elementwise arithmetic on bands of one shape (numpy's + and -)

  function Add(a: Band, b: Band): (r: Band)
    requires SameShape(a, b)
    ensures SameShape(r, a)
    ensures forall y, x :: 0 <= y < |a| && 0 <= x < Width(a) ==> r[y][x] == a[y][x] + b[y][x]
  {
    seq(|a|, y requires 0 <= y < |a| =>
      seq(Width(a), x requires 0 <= x < Width(a) => a[y][x] + b[y][x]))
  }

  function Sub(a: Band, b: Band): (r: Band)
    requires SameShape(a, b)
    ensures SameShape(r, a)
    ensures forall y, x :: 0 <= y < |a| && 0 <= x < Width(a) ==> r[y][x] == a[y][x] - b[y][x]
  {
    seq(|a|, y requires 0 <= y < |a| =>
      seq(Width(a), x requires 0 <= x < Width(a) => a[y][x] - b[y][x]))
  }

  // ---------------------------------------------------------------------
  // a_wavelet(pan_i, i), a_wavelet.py:25-36

  /** What the injection needs of a filter: it accepts the pan band with both kernels and keeps its shape. */
  ghost predicate FilterFits(filter: (Band, Kernel) --> Band, pan: Band) {
    filter.requires(pan, Filtro5x5) && filter.requires(pan, Filtro9x9) &&
    SameShape(filter(pan, Filtro5x5), pan) && SameShape(filter(pan, Filtro9x9), pan)
  }

  /**
   * The injection with the filter left as a parameter: w1 = pan - f1 and
   * w2 = f1 - f2 are the two wavelet planes of pan, and the result is
   * i + w1 + w2.  Whatever the filter does, the planes telescope: the result
   * is i + pan - filter(pan, filtro_9x9), and the 5x5 result cancels.
   */
  function AWaveletWith(filter: (Band, Kernel) --> Band, pan: Band, i: Band): (nInt: Band)
    requires SameShape(pan, i) && FilterFits(filter, pan)
    ensures SameShape(nInt, i) && SameShape(nInt, pan)
    ensures forall y, x :: 0 <= y < |pan| && 0 <= x < Width(pan) ==>
      nInt[y][x] == i[y][x] + pan[y][x] - filter(pan, Filtro9x9)[y][x]
  {
    var f1 := filter(pan, Filtro5x5);
    var w1 := Sub(pan, f1);
    var f2 := filter(pan, Filtro9x9);
    var w2 := Sub(f1, f2);
    Add(Add(i, w1), w2)
  }

  lemma FiltersFit(pan: Band)
    requires IsBand(pan)
    ensures FilterFits(Filter2D, pan)
  {
    Filtro9x9IsDilated();
    assert IsKernel(Filtro9x9);
  }

  /** `a_wavelet(pan_i, i)`, with `cv2.filter2D` as the filter. */
  function AWavelet(pan: Band, i: Band): (nInt: Band)
    requires SameShape(pan, i)
    ensures SameShape(nInt, i) && SameShape(nInt, pan)
    ensures forall y, x :: 0 <= y < |pan| && 0 <= x < Width(pan) ==>
      nInt[y][x] == i[y][x] + pan[y][x] - Filter2D(pan, Filtro9x9)[y][x]
  {
    FiltersFit(pan);
    AWaveletWith(Filter2D, pan, i)
  }

  /**
   * The 5x5 plane cancels: two filters that agree on the 9x9 kernel give
   * the same injection, whatever they do with the 5x5 one.
   */
  lemma FiveByFiveCancels(f: (Band, Kernel) --> Band, g: (Band, Kernel) --> Band, pan: Band, i: Band)
    requires SameShape(pan, i) && FilterFits(f, pan) && FilterFits(g, pan)
    requires f(pan, Filtro9x9) == g(pan, Filtro9x9)
    ensures AWaveletWith(f, pan, i) == AWaveletWith(g, pan, i)
  {
    BandExtensionality(AWaveletWith(f, pan, i), AWaveletWith(g, pan, i));
  }

  /**
   * A filter that leaves the pan band unchanged under both kernels yields
   * zero wavelet planes, so the intensity comes back unchanged.
   */
  lemma FixedPanLeavesIntensity(filter: (Band, Kernel) --> Band, pan: Band, i: Band)
    requires SameShape(pan, i) && FilterFits(filter, pan)
    requires filter(pan, Filtro5x5) == pan && filter(pan, Filtro9x9) == pan
    ensures AWaveletWith(filter, pan, i) == i
  {
    BandExtensionality(AWaveletWith(filter, pan, i), i);
  }

  /**
   * A flat pan band has no detail: with cv2.filter2D and the two normalised
   * kernels, both wavelet planes are zero and a_wavelet returns i.
   */
  lemma AWaveletConstantPan(pan: Band, i: Band, c: real)
    requires SameShape(pan, i) && IsConstant(pan, |pan|, Width(pan), c)
    ensures AWavelet(pan, i) == i
  {
    FiltersFit(pan);
    Filtro5x5Sum();
    Filtro9x9Sum();
    Filter2DConstant(pan, Filtro5x5, c);
    Filter2DConstant(pan, Filtro9x9, c);
    FixedPanLeavesIntensity(Filter2D, pan, i);
  }
}
