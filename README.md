# IHS and a trous wavelet pansharpening, modelled in Dafny

The repository fuses a low-resolution multispectral satellite image with a
high-resolution panchromatic band (pansharpening). The steps are:

- The spectral raster is split into bands. Bands 0-2 are stacked as RGB and the rest are kept aside (`func/functions.py`).
- RGB is mapped to the intensity/chroma space (I, V1, V2) with a constant 3x3 matrix (`data_fusion/ihs/ihs.py`).
- The intensity I is replaced by the histogram-matched pan band `pan_i`. Option "1" uses `pan_i` directly. Option "2" injects the two a trous wavelet planes of `pan_i` into I (`data_fusion/a_wavelet/a_wavelet.py`).
- The cube is mapped back to RGB with a second matrix, and the other bands are appended (`main.py`).

The model has four modules, one per source file:

- `Functions` (functions.dfy): bands, images and `process_imag_to_another_model`, plus its linearity; the band split/stack/merge laws; and the `get_pancromatica` arithmetic.
- `Wavelet` (a_wavelet.dfy):
  - the two kernels and their symmetry, dilation and normalisation;
  - `cv2.filter2D`: same-size correlation, anchor at the kernel centre, OpenCV's default `BORDER_REFLECT_101` border;
  - `a_wavelet`, with its telescoping law, for any filter and for `filter2D`.
- `Ihs` (ihs.dfy): `rgb_to_ihs` and the properties of its matrix.
- `Pipeline` (pipeline.dfy): main.py lines 63-79.
  - The substitution works in place on an `array3`: a copy, then an overwrite of channel 0. It is proved against a value-level specification.
  - Also modelled: the inverse matrix, the fused raster and the output name.

Samples are exact reals. sqrt(2) and sqrt(6) are parameters `s2` and `s6`. All the model knows about them is `Roots(s2, s6)`: both are positive, and their squares are 2 and 6.

## Model

| member | source | states |
|---|---|---|
| Functions.Channel | func/functions.py:27 | `img[:,:,k]` is a band of the image's height and width; its sample at (y, x) is channel k of pixel (y, x) |
| Functions.TransformPixel | func/functions.py:26-29 | one output value per mask row; value k is the `zip`-truncated dot product of row k with the pixel |
| Functions.ProcessImagToAnotherModel | func/functions.py:26-29 | output has the input's height and width and one channel per mask row; each output pixel depends only on the same input pixel |
| Functions.PrefixDotScale | func/functions.py:27-28 | a partial dot product with a pixel scaled by c is c times the partial dot product |
| Functions.PrefixDotAdd | func/functions.py:27-28 | a partial dot product with a sum of pixels is the sum of the two partial dot products |
| Functions.TransformPixelScale | func/functions.py:26-29 | transforming c*px gives c times the transform of px |
| Functions.TransformPixelAdd | func/functions.py:26-29 | transforming p+q gives the sum of the transforms |
| Functions.ProcessScale | func/functions.py:26-29 | the image transform is homogeneous: T(c*img) = c*T(img) |
| Functions.ProcessAdd | func/functions.py:26-29 | the image transform is additive: T(a+b) = T(a)+T(b) |
| Functions.SplitBands | func/functions.py:17 | exactly `shape[0]` bands; band ix is `src[ix]` |
| Functions.DStack | func/functions.py:20 | `np.dstack` of equal-shape bands is an (H, W, n) image whose channel k is band k |
| Functions.NdarrayRgb | func/functions.py:20 | channels 0, 1 and 2 of `ndarray_rgb(r, g, b)` are r, g and b |
| Functions.MergeBands | func/functions.py:155-166 | C + n channels; channel k < C comes from the image, channel C + j from list band j |
| Functions.MergeBandsWellFormed | func/functions.py:166 | the merged image is an (H, W, C + n) array with every one of its channels present |
| Functions.MergeBandsOldChannel | func/functions.py:166 | channel k < C of the merged image equals channel k of the image |
| Functions.MergeBandsNewChannel | func/functions.py:166 | channel C + j of the merged image equals list band j |
| Functions.MergeBandsChannels | func/functions.py:155-166 | the channels of the merged image are the image's channels in order, followed by the list bands in order |
| Functions.SplitStackMergeChannel | main.py:37-40 | split a raster, stack bands 0-2 as RGB and merge the rest back: channel k is band k |
| Functions.SplitStackMerge | main.py:37-40 | the same for every channel at once: the round trip restores the raster's bands |
| Functions.PanPixel | func/functions.py:109 | the pan sample is the floor of the mean of three 8-bit samples, so it lies between their minimum and maximum |
| Functions.GetPancromatica | func/functions.py:109 | the pan band has the bands' shape, row by row; each sample p is the truncated mean, 3p <= b1+b2+b3 < 3p+3 |
| Wavelet.Filtro5x5Separable | data_fusion/a_wavelet/a_wavelet.py:5-11 | `filtro_5x5` is the outer product of (1,4,6,4,1)/16 with itself |
| Wavelet.OuterTranspose | data_fusion/a_wavelet/a_wavelet.py:5-11 | the outer product of a vector with itself equals its transpose |
| Wavelet.Filtro5x5Transpose | data_fusion/a_wavelet/a_wavelet.py:5-11 | `filtro_5x5` equals its transpose |
| Wavelet.Filtro5x5Mirror | data_fusion/a_wavelet/a_wavelet.py:5-11 | `filtro_5x5` is unchanged by flipping its rows and by flipping its columns |
| Wavelet.KernelSumOuter | data_fusion/a_wavelet/a_wavelet.py:5-11 | the coefficients of u v^T sum to sum(u) * sum(v) |
| Wavelet.Filtro5x5Sum | data_fusion/a_wavelet/a_wavelet.py:5-11 | the 25 coefficients of `filtro_5x5` sum to exactly 1 |
| Wavelet.DilateRow | data_fusion/a_wavelet/a_wavelet.py:12-22 | a row of n taps becomes 2n-1 entries: tap j at 2j, zero at every odd index |
| Wavelet.Dilate | data_fusion/a_wavelet/a_wavelet.py:12-22 | the dilated kernel has g[2r][2c] = k[r][c] and is zero on every odd row and every odd column |
| Wavelet.DilateTaps | data_fusion/a_wavelet/a_wavelet.py:12-22 | rows built by the dilation form a kernel that keeps k's taps at even positions |
| Wavelet.DilateHoles | data_fusion/a_wavelet/a_wavelet.py:12-22 | rows built by the dilation are zero on odd rows and odd columns |
| Wavelet.Filtro9x9Entries | data_fusion/a_wavelet/a_wavelet.py:12-22 | `filtro_9x9` is zero off the even grid and equals `filtro_5x5` on it |
| Wavelet.Filtro9x9IsDilated | data_fusion/a_wavelet/a_wavelet.py:12-22 | `filtro_9x9` is exactly `filtro_5x5` dilated by one |
| Wavelet.SumToHoles | data_fusion/a_wavelet/a_wavelet.py:12-22 | the prefix sums of a dilated row match the prefix sums of the row |
| Wavelet.RowSumDilate | data_fusion/a_wavelet/a_wavelet.py:12-22 | inserting holes does not change a row's sum |
| Wavelet.KernelSumDilate | data_fusion/a_wavelet/a_wavelet.py:12-22 | dilation does not change a kernel's sum |
| Wavelet.Filtro9x9Sum | data_fusion/a_wavelet/a_wavelet.py:12-22 | the 81 coefficients of `filtro_9x9` sum to exactly 1 |
| Wavelet.Reflect101 | data_fusion/a_wavelet/a_wavelet.py:27 | the border index lies inside [0, n) and is the identity there |
| Wavelet.Filter2D | data_fusion/a_wavelet/a_wavelet.py:27 | `cv2.filter2D(img, -1, k)` has the shape of img; each sample is the centred correlation of k with img |
| Wavelet.CorrelateNormalised | data_fusion/a_wavelet/a_wavelet.py:27 | with a kernel summing to 1, every filtered sample of a constant band is that constant |
| Wavelet.Filter2DConstant | data_fusion/a_wavelet/a_wavelet.py:27 | a constant band is a fixed point of filtering with a normalised kernel |
| Wavelet.Sub | data_fusion/a_wavelet/a_wavelet.py:29 | numpy `a - b` on equal-shape bands, sample by sample |
| Wavelet.Add | data_fusion/a_wavelet/a_wavelet.py:35 | numpy `a + b` on equal-shape bands, sample by sample |
| Wavelet.AWaveletWith | data_fusion/a_wavelet/a_wavelet.py:25-36 | for any shape-preserving filter, N_INT = i + pan - filter(pan, filtro_9x9), with the shape of i |
| Wavelet.AWavelet | data_fusion/a_wavelet/a_wavelet.py:25-36 | `a_wavelet(pan_i, i)` = i + pan_i - filter2D(pan_i, filtro_9x9) at every sample, with the shape of i |
| Wavelet.FiveByFiveCancels | data_fusion/a_wavelet/a_wavelet.py:27-35 | two filters that agree on the 9x9 kernel give the same result: the 5x5 plane cancels |
| Wavelet.FixedPanLeavesIntensity | data_fusion/a_wavelet/a_wavelet.py:25-36 | if filtering leaves pan unchanged, both wavelet planes vanish and N_INT = i |
| Wavelet.AWaveletConstantPan | data_fusion/a_wavelet/a_wavelet.py:25-36 | a constant pan band has no detail: `a_wavelet` returns i |
| Ihs.MaskMatrix | data_fusion/ihs/ihs.py:14 | `mask_matrix` is 3x3 with non-empty rows |
| Ihs.IhsPixel | data_fusion/ihs/ihs.py:14 | I = (R+G+B)/3, V1 = (R+G-2B)/sqrt 6, V2 = (R-G)/sqrt 2 |
| Ihs.RgbToIhs | data_fusion/ihs/ihs.py:4-15 | three channels, the input's height and width; each output pixel is the mask applied to the same input pixel; on RGB pixels it is (I, V1, V2) |
| Ihs.IntensityIsMean | data_fusion/ihs/ihs.py:14 | 3 * I is R + G + B at every pixel |
| Ihs.GreyPixel | data_fusion/ihs/ihs.py:14 | R = G = B gives (R, 0, 0); conversely V1 = V2 = 0 only for grey pixels |
| Ihs.BrightenPixel | data_fusion/ihs/ihs.py:14 | adding d to R, G and B adds d to I and leaves V1 and V2 unchanged |
| Ihs.SwapRGPixel | data_fusion/ihs/ihs.py:14 | swapping R and G keeps I and V1 and negates V2 |
| Pipeline.ReplaceChannel0 | main.py:66 | `img[:,:,0] = b`: pixel sizes kept, channel 0 is b, channels 1.. are untouched |
| Pipeline.ReplaceChannel0Channels | main.py:65-69 | after the replacement, channel 0 is b and every other channel equals the image's |
| Pipeline.NewIntensity | main.py:65-69 | option "1" gives pan_i; option "2" gives I + pan_i - filter2D(pan_i, filtro_9x9) |
| Pipeline.Substituted | main.py:63-69 | shape and channels 1.. of iv1v2 kept; channel 0 is the new intensity for options "1"/"2", else unchanged |
| Pipeline.CopyCube | main.py:63 | `iv1v2.copy()` is a fresh array of the same dimensions and samples |
| Pipeline.SetChannel0 | main.py:66 | writing channel 0 in place turns the array's contents into the channel-0 replacement of its old contents |
| Pipeline.SubstituteIntensity | main.py:63-69 | returns a fresh array whose contents are `Substituted` of iv1v2; iv1v2 is unchanged |
| Pipeline.MaskMatrixToRgb | main.py:72 | `mask_matrix_to_rgb` as written: 3x3, first column all ones |
| Pipeline.RgbPixel | main.py:72-73 | R = I + V1/sqrt 6 + V2/sqrt 6, G = I + V1/sqrt 6 - V2/2, B = I - 2 V1/sqrt 6 |
| Pipeline.IhsToRgb | main.py:73 | three channels, same height and width; each pixel maps to `RgbPixel` of the same cube pixel |
| Pipeline.IntensityShift | main.py:72-73 | with an all-ones first column, raising I by d raises every output channel by d |
| Pipeline.RoundTripBlue | main.py:72 | `rgb_to_ihs` followed by `mask_matrix_to_rgb` returns B exactly |
| Pipeline.RoundTripRedGreen | main.py:72 | the round trip gives R' = (R+G)/2 + (R-G)/sqrt 12 and G' = (R+G)/2 - (R-G)/(2 sqrt 2) |
| Pipeline.RoundTripExactIff | main.py:72 | the round trip returns the pixel if and only if R = G |
| Pipeline.RoundTripRedCounterexample | main.py:72 | the pixel (1, 0, 0) does not survive the round trip |
| Pipeline.ExactMaskMatrixToRgb | main.py:72 | the corrected inverse: 3x3, first column all ones |
| Pipeline.ExactRgbPixel | main.py:72 | R = I + V1/sqrt 6 + V2/sqrt 2, G = I + V1/sqrt 6 - V2/sqrt 2, B = I - 2 V1/sqrt 6 |
| Pipeline.ExactRoundTrip | main.py:72 | RGB -> IHS -> RGB with the corrected inverse is the identity on every pixel |
| Pipeline.ExactRoundTripBack | main.py:72 | IHS -> RGB -> IHS with the corrected inverse is the identity on every pixel |
| Pipeline.ExactRoundTripImage | main.py:72-73 | with the corrected inverse, `rgb_to_ihs` and back is the identity on 3-channel images |
| Pipeline.FusedImage | main.py:73-77 | the fused raster has the cube's height and width and 3 + (number of other bands) channels |
| Pipeline.FusedImageSample | main.py:73-77 | fused pixel = inverse transform of the cube pixel, followed by the other bands' samples |
| Pipeline.FusedImageAsWritten | main.py:72-77 | with `mask_matrix_to_rgb`, the RGB part of each fused pixel is the output of line 73 at that pixel, `RgbPixel` of the cube pixel |
| Pipeline.FusedChroma | main.py:72-77 | any cube that keeps V1 and V2 fuses to the original inverse shifted by the change in I |
| Pipeline.FusedPixel | main.py:63-77 | after substitution, each fused R, G, B is the inverse of the original (I, V1, V2) plus the change in I; other bands unchanged |
| Pipeline.FusedBlue | main.py:63-77 | option "1" with `mask_matrix_to_rgb`: fused B = B + pan_i - (R+G+B)/3 |
| Pipeline.FusedExact | main.py:63-77 | with the corrected inverse, the fused (R, G, B) is the original pixel plus the change in I, for either option |
| Pipeline.ResultName | main.py:79 | the name starts with "wavelet_resultado_" exactly when the option is "2", and otherwise with "ihs_resultado_"; the spectral image's name follows the prefix directly and ends the name |
| Pipeline.ResultNameInjective | main.py:79 | for a fixed option, two result names are equal if and only if the image names are |

## Left out

- Raster and file I/O are not part of this model. This covers `read_tif_image`, `resampling_spectral` and the `rasterio` write loop at main.py:81-86. Dataset reads are modelled as a sequence of bands.
- Plotting (`show_images`, `show_hist`) is not modelled. It has no effect on the data.
- `rgb_img` (`cv2.merge`) is not modelled separately: it has the same stacking law as `ndarray_rgb`.
- `get_equalized_panchromatic` (CLAHE) is a foreign-library wrapper and is not modelled.
- `match_histograms` is not modelled: `pan_i` is a parameter. Its only property used here is that it has the shape of the intensity band.
- The interactive `input()` loop (main.py:56-61) and the `.env` configuration are left out: `option` is a parameter. The model also covers options other than "1" and "2", for which the cube stays unchanged.
- The `astype('uint8')` cast of the fused RGB (main.py:76) is left out. `FusedImage` is the raster before the cast, so out-of-range values and the cast's wrap-around are not modelled.
- Floating point is not modelled. Samples are exact reals, and sqrt(2) and sqrt(6) are exact roots. Rounding of `1/3`, `1/sqrt(6)` and the kernel fractions is not captured.
- `cv2.filter2D` is modelled as same-size correlation, anchored at the kernel centre, with `BORDER_REFLECT_101`. OpenCV's DFT path for large kernels and its saturation for integer depths are not modelled. The pan band is float64 here, so saturation does not arise.
- `process_imag_to_another_model` on an image with zero channels is excluded by a precondition when the image is non-empty. Python's built-in `sum` of an empty generator is the scalar 0, so `np.dstack` returns a 1x1xlen(mask) array of zeros, not an HxWxlen(mask) one.
- `pan_v1_v2[:,:,0] = band` requires the band to have exactly the cube's height and width. numpy broadcasting of smaller shapes is not modelled.
- `get_pancromatica` is modelled on 8-bit band samples. Its `astype('float')` sum of three samples is an exact integer of at most 765. The quotient by 3 is rounded, but for such sums the rounded quotient never reaches the next integer, so `astype('uint8')` gives the floor of sum/3. The model computes that floor directly.
- main_fusion.py, the quality indices, land classification and preprocessing are outside the fusion core.

## Findings

| source | as written | input that shows it | evidently intended | confidence | as-written member | corrected member |
|---|---|---|---|---|---|---|
| main.py:72 | `mask_matrix_to_rgb = [[1, 1/sqrt(6), 1/sqrt(6)], [1, 1/sqrt(6), -1/2], [1, -2/sqrt(6), 0]]`, which inverts `mask_matrix` (ihs.py:14) only on pixels with R = G | the pixel (R, G, B) = (1, 0, 0) comes back as R' = 1/2 + 1/sqrt(12), G' = 1/2 - 1/(2 sqrt 2), B' = 0 | the exact inverse `[[1, 1/sqrt(6), 1/sqrt(2)], [1, 1/sqrt(6), -1/sqrt(2)], [1, -2/sqrt(6), 0]]`, under which RGB -> IHS -> RGB is the identity | high for the algebra, not executed | Pipeline.RoundTripRedCounterexample | Pipeline.ExactRoundTrip |
