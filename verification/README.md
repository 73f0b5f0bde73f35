# Mask views of Vision Workbench, modelled in Dafny

This project models the mask views of Vision Workbench's image library
(`src/vw/Image/MaskViews.h`). The header has two parts.

* Four per-pixel functors define what "masked" means for a pixel:
  * `CreatePixelMask` turns the no-data value into an invalid pixel.
  * `ApplyPixelMask` turns an invalid pixel into a fill value.
  * `CopyPixelMask` transplants the validity of a reference pixel onto a value.
  * `MaskToAlpha` turns an invalid pixel into a fully transparent one.

  Each functor is a pure Dafny function over `PixelMask<T>` (a validity
  flag plus a child pixel). The lazy views built from the functors apply
  the functor to every pixel, so the functor is the whole of their logic.
* `EdgeMaskView` scans plane 0 of its source in its constructor, first by
  rows and then by columns.
  * For every row `j` it records `left[j]`, the end of the leading run of
    default-valued pixels, and `right[j]`, the start of the trailing run.
  * For every column `i` it records `top[i]` and `bottom[i]` in the same way.
  * A pixel `(i, j)` (column `i`, row `j`) is valid when it lies strictly
    inside all four bounds.

  The scan is modelled as Dafny methods with loop invariants, following the
  source's loops: `ScanFromStart`, `ScanFromEnd`, `ScanRows`, `ScanColumns`
  and `BuildEdgeIndex`. Their results are tied to a reference definition,
  `EdgeIndexOf`, stated in terms of the lengths of the leading and trailing
  no-data runs (`Runs.LeadRun`, `Runs.TrailRun`).

The default-constructed pixel `T()` has no counterpart for a generic Dafny
type, so it is an explicit parameter `dflt` (or `d`) wherever the source
uses it. The pixel type's `is_transparent` is also a parameter, a function
`transparent`. For mask pixels the lemmas use the instance
`PixelMasks.MaskTransparent`, under which a mask pixel is transparent
exactly when it is invalid.

Files:

* `pixel_mask.dfy` holds the pixel types.
* `mask_functors.dfy` holds the four functors and the laws relating them.
* `runs.dfy` holds the run lengths.
* `images.dfy` holds the source image.
* `edge_mask.dfy` holds the edge-mask scan, the query and their properties.

Quirks of the scan are reproduced as written, not corrected:

* The left and top bounds start at 0 (MaskViews.h:208, 217) and are
  compared with `>`. So row 0 and column 0 are always invalid, even in an
  image without any no-data pixel (`NoBorderLosesFirstRowAndColumn`).
* A leading run of one pixel gives the same bound as no run at all
  (`StartBoundZeroIffShortRun`).
* Only no-data that reaches in from an edge is seen. A default pixel
  enclosed by data is reported valid (`EnclosedHoleIsValid`).

For mask pixels, `copy_mask` also keeps the value's own invalidity
(MaskViews.h:115-116, `CopyMaskOnto`).

## Model

| member | source | states |
|---|---|---|
| MaskFunctors.CreateMask | src/vw/Image/MaskViews.h:32-39 | the result is invalid iff the pixel equals the no-data value; an invalid result is the default mask pixel; a valid one carries the input |
| MaskFunctors.ApplyMask | src/vw/Image/MaskViews.h:73-80 | a valid pixel yields its child, an invalid one the fill value |
| MaskFunctors.CopyMask | src/vw/Image/MaskViews.h:110-118 | for an unmasked value: the result always carries the value and is valid iff the reference pixel is not transparent |
| MaskFunctors.CopyMaskOnto | src/vw/Image/MaskViews.h:110-118 | for a value that is already a mask pixel: the child is kept and the result is valid iff the value was valid and the reference is not transparent |
| MaskFunctors.MaskToAlpha | src/vw/Image/MaskViews.h:141-148 | the result has zero alpha iff the input is transparent; a transparent input gives the default colour, any other gives the input's child |
| MaskFunctors.ApplyUndoesCreate | src/vw/Image/MaskViews.h:37-80 | apply_mask with the no-data value as fill, after create_mask, is the identity on every pixel |
| MaskFunctors.ApplyCreateIgnoresFill | src/vw/Image/MaskViews.h:37-80 | for a pixel other than the no-data value, apply_mask after create_mask gives back the pixel whatever the fill |
| MaskFunctors.CreateAfterApply | src/vw/Image/MaskViews.h:37-80 | create_mask after apply_mask restores a mask pixel iff it is valid off the no-data value or is the default invalid pixel |
| MaskFunctors.CopyMaskOfCreatedMask | src/vw/Image/MaskViews.h:37-117 | copying the mask of a create_mask pixel gives a pixel that is valid iff the reference was not the no-data value, and that carries the copied-onto value |
| MaskFunctors.CopyMaskOntoIdempotent | src/vw/Image/MaskViews.h:113-118 | a mask pixel copying its own mask is unchanged; copying the same mask twice equals copying it once |
| MaskFunctors.ApplyCopiedMask | src/vw/Image/MaskViews.h:78-117 | apply_mask after copy_mask gives the fill where the reference is transparent and the value elsewhere |
| MaskFunctors.InvalidBecomesTransparent | src/vw/Image/MaskViews.h:145-148 | under any transparency predicate that counts invalid pixels as transparent, an invalid pixel becomes the default pixel with zero alpha |
| MaskFunctors.MaskToAlphaMatchesApply | src/vw/Image/MaskViews.h:78-148 | with mask-pixel transparency, the alpha is opaque iff the pixel is valid, and the colour equals apply_mask with the default fill |
| MaskFunctors.AlphaOfCreatedMask | src/vw/Image/MaskViews.h:37-148 | mask_to_alpha after create_mask is transparent exactly on the no-data pixels, and is the opaque input pixel elsewhere |
| Runs.LeadRun | src/vw/Image/MaskViews.h:225-229 | the number of pixels the forward search walks over: every pixel before it is no-data, and the pixel at it, if any, is not |
| Runs.TrailRun | src/vw/Image/MaskViews.h:232-236 | the number of pixels the backward search walks over: every pixel after the stopping point is no-data, and the pixel at it, if any, is not |
| EdgeMask.ScanFromStart | src/vw/Image/MaskViews.h:224-229 | the search from the start leaves the initial value when the line has no leading no-data run, and otherwise the index of the run's last pixel |
| EdgeMask.ScanFromEnd | src/vw/Image/MaskViews.h:231-236 | the search from the end leaves the initial value when the line has no trailing no-data run, and otherwise the index of the run's first pixel |
| EdgeMask.ScanRows | src/vw/Image/MaskViews.h:221-237 | after the row pass, each row's left and right entries depend only on that row's pixels and its initial entries; top and bottom are untouched |
| EdgeMask.ScanColumns | src/vw/Image/MaskViews.h:239-254 | after the column pass, each column's top and bottom entries depend only on that column's pixels and its initial entries; left and right are untouched |
| EdgeMask.InitialIndex | src/vw/Image/MaskViews.h:204-219 | the vectors are sized one entry per row (left, right) and one per column (top, bottom), and filled with 0, cols, 0 and rows |
| EdgeMask.BuildEdgeIndex | src/vw/Image/MaskViews.h:200-256 | the constructor yields one left/right entry per row and one top/bottom entry per column; starting from 0, cols, 0 and rows, the entries equal the run-based bounds of each row and column |
| EdgeMask.IsValid | src/vw/Image/MaskViews.h:183-188 | a pixel (i, j) is valid iff i > left[j], i < right[j], j > top[i] and j < bottom[i] |
| EdgeMask.Query | src/vw/Image/MaskViews.h:264-269 | the result is valid iff the four strict bound comparisons hold; a valid result carries the source pixel of the queried plane; an invalid one is the default mask pixel |
| EdgeMask.ValidIffInsideRuns | src/vw/Image/MaskViews.h:183-188 | a pixel is valid iff it is off row 0 and column 0 and lies past the leading and before the trailing no-data run of both its row and its column |
| EdgeMask.StartBoundZeroIffShortRun | src/vw/Image/MaskViews.h:207-236 | the left/top bound keeps its initial 0 iff the leading run has length at most 1; the right/bottom bound keeps the line length iff there is no trailing run |
| EdgeMask.BoundsCoverEdgeRuns | src/vw/Image/MaskViews.h:222-236 | if a row starts with no-data, every pixel up to its left bound is no-data; every pixel from its right bound on is no-data |
| EdgeMask.BoundsCoverEdgeRunsOfColumn | src/vw/Image/MaskViews.h:239-254 | if a column starts with no-data, every pixel up to its top bound is no-data; every pixel from its bottom bound on is no-data |
| EdgeMask.EmptyViewBounds | src/vw/Image/MaskViews.h:204-254 | a view without rows (even one without planes) gets empty left/right vectors and top/bottom entries 0 and 0; a view without columns symmetrically |
| EdgeMask.EdgeRowAndColumnInvalid | src/vw/Image/MaskViews.h:183-219 | every pixel of row 0 or column 0 is invalid |
| EdgeMask.BlankImageAllInvalid | src/vw/Image/MaskViews.h:183-254 | in an image made entirely of the default pixel, every pixel is invalid |
| EdgeMask.NoBorderLosesFirstRowAndColumn | src/vw/Image/MaskViews.h:183-254 | in an image without any default pixel, exactly the pixels off row 0 and column 0 are valid |
| EdgeMask.FramedImageValidRegion | src/vw/Image/MaskViews.h:183-254 | for a default-valued frame of width w >= 1 around a non-empty data rectangle, the valid pixels are exactly that rectangle |
| EdgeMask.TenByTenFrame | src/vw/Image/MaskViews.h:183-254 | a 10 x 10 image with a 2-pixel border of 0 around 1s is valid exactly on its 6 x 6 interior |
| EdgeMask.EnclosedHoleIsValid | src/vw/Image/MaskViews.h:181-188 | a default pixel enclosed by data on all sides is reported valid, because the bounds only see edge-connected runs |
| EdgeMask.QueryValidityIgnoresPlane | src/vw/Image/MaskViews.h:264-269 | the validity of a query does not depend on the plane, and a valid query returns that plane's source pixel |

## Left out

* MaskFunctors.ApplyMask: the source functor returns `PixelT const&`
  (MaskViews.h:74, 78). The result is a reference, either to the
  argument's `child()` or to the functor's own fill member
  `m_nodata_value`. The model returns the value itself. How long that
  reference stays valid inside composed views, such as `apply_mask` over a
  `create_mask` view whose pixels are temporaries, depends on
  `UnaryPerPixelView` and `PixelMask::child()`. Neither is part of this
  model, so the reference's lifetime is not modelled.
* The lazy-view framework is not modelled. This covers `UnaryPerPixelView`
  and `BinaryPerPixelView`, the view factories `create_mask`, `apply_mask`,
  `copy_mask`, `mask_to_alpha` and `edge_mask`, `ImageViewBase::impl()`,
  the pixel accessor `origin()`, and `prerasterize` and `rasterize`. A view
  built from a functor applies the functor to each pixel independently.
  `edge_mask` only forwards to the constructor.
* The one-argument overloads of `create_mask` and `apply_mask` are not
  modelled separately. They pass `T()`, which is `CreateMask` or
  `ApplyMask` with `dflt` as the no-data or fill value.
* The `IsMultiplyAccessible` specialisations are left out. They are
  compile-time performance hints with no effect on pixel values.
* Progress reporting through `ProgressCallback` is left out. The scan
  reports a float fraction per row and per column, and then reports that it
  has finished. These calls do not affect the bounds.
* The headers that define `PixelMask`, `PixelWithAlpha`,
  `UnmaskedPixelType`, `MaskedPixelType` and `is_transparent` are not part
  of this model. A mask pixel is a validity flag plus a child. The
  default-constructed mask pixel is invalid (MaskViews.h:38, 268). It is
  assumed to carry the default underlying pixel `T()` as its child. The
  clauses `!r.valid ==> r == InvalidPixel(dflt)` of `CreateMask` and
  `Query`, and `CreateAfterApply`, rely on that assumption.
* The transparency of a mask pixel, used in the lemmas, is assumed to be
  its invalidity (`MaskTransparent`).
* Integer widths are not modelled. Image sizes, loop counters and bounds
  are unbounded integers, while the source uses `int`/`int32`. Images with
  more than 2^31 - 1 rows or columns are out of scope.
* Views that have pixels but no planes are not modelled. The row and
  column scans read plane 0 (MaskViews.h:226, 233, 243, 250), so such a
  view must have at least one plane. An empty view with zero planes is
  accepted: `Images.Image.WellFormed` admits `planes == 0` when `rows` or
  `cols` is 0, and the scans then read nothing.
* Queries outside the image are not modelled. The source indexes the
  bound vectors without a check, so `Query` requires in-range coordinates.
* The commented-out `BlockCacheView` member is dead code and is left out.
* The scalar assignment `m_bottom = view.rows()` is left out. It is assumed
  to fill the vector without resizing it, so that the loop that follows
  overwrites every entry. Whether it fills or resizes is decided by the
  `Vector` class, which is not part of this model.
* MaskFunctors.MaskToAlpha: the alpha channel is assumed to take only two
  values, zero for `result_type()` and full opacity for
  `result_type(pixel.child())`. The alpha given to the child is decided by
  `PixelWithAlpha`, which is not part of this model. A child type that
  already carries alpha could pass its own alpha through, and the model
  does not cover that.
* MaskFunctors.CreateMask: pixel equality is assumed to be an equivalence
  relation, because the model uses Dafny's equality for the pixel type's
  `operator==`. The same holds for the edge-mask scans. A no-data value
  that is not equal to itself, such as a floating-point NaN, is out of
  scope. For such a value the source never masks a pixel, while the model
  would mask it.
* The row pass and the column pass read the pixel grid directly in the
  source. The model gives each search the row or column as a sequence,
  which reads the same pixels in the same order.
