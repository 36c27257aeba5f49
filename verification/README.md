# Dense-region decomposition of bigfish, in Dafny

This project models `bigfish/detection/dense_decomposition.py`, the step of
bigfish's spot detection that revisits bright, crowded areas of a smFISH image.
Such an area can hide several RNA spots behind one detection. The step:

1. builds a median reference spot;
2. thresholds the (background-removed) image at `beta` times the reference
   peak;
3. keeps the connected components of at least two pixels (the dense regions);
4. fits each region greedily with Gaussians shaped like the reference spot,
   one at a time at the maximum of the residual, for as long as the sum of
   squared residuals (SSR) keeps dropping;
5. maps every fitted position back to image pixels;
6. returns the spots outside the regions followed by the fitted ones, plus
   one summary row per region.

Modules, in dependency order:

- `Common` (common.dfy): errors as a `Result`, the image element types, the
  int64 cast (truncation toward zero), and `Collect`, which runs a sequence of
  steps in order and stops at the first failure.
- `Seqs` (seqs.dfy): numpy reductions on flat arrays. These are sums, `max`,
  first-occurrence `argmax`, boolean selection (`Keep`) and concatenation.
- `Geometry` (geometry.dfy): row-major flattening (the order of `np.reshape`
  and `np.argmax`), half-open bounding boxes, patch extraction, and the
  physical grid of a patch.
- `Model` (model.dfy): the entities (image, spot array, optics, component,
  PSF, summary row) and the external collaborators, passed as
  function-valued parameters. It also holds the z-geometry and rank checks
  shared by the entry points.
- `DenseRegions` (dense_regions.dfy): `get_dense_region` and its helpers.
- `Mixture` (mixture.dfy): `_gaussian_mixture_2d` / `_3d`. These differ only
  in the rank of the grid, so one definition covers both.
- `Reconcile` (reconcile.dfy): `simulate_gaussian_mixture`.
- `Decompose` (decompose.dfy): `decompose_dense`.

The greedy loop has two descriptions:

- **Functional trace.** `Trace` advances the loop's variables one pass at a
  time, and `Simulation`, `PeakIndex`, `Ssr`, `DiffSsr` and the other
  per-pass functions read it off.
- **The loop itself.** `GreedyFit` is the while loop, proved to produce the
  same outcome as the trace.

Exceptions raised by the source are `Err` values carrying the matching
`Error`. Warnings are boolean fields of the result.

Where the code and its documentation disagree, the model follows the code:

- **The iteration cap.** The loop condition is
  `diff_ssr < 0 or nb_gaussian == limit_gaussian`. So when the count reaches
  the limit, the loop places one more Gaussian instead of stopping. The loop
  can only end on a non-improving placement at a count other than the limit.
  As a result, the "stopped early" warning is unreachable. `StopRule` and
  `NoStopAtLimit` state this. The model keeps the loop as written, with a
  fuel bound in place of the missing cap.
- **A single placement.** When only one Gaussian was placed and it did not
  lower the SSR, the position is still returned. However, the best simulation
  stays all zeros (`BestMatchesKeptPositions`).
- **The summary row.** Its mean intensity is cast to int64 (truncated), not
  copied.
- **Negative background.** A negative fitted background is rejected by
  `simulate_gaussian_mixture` itself, after the reference spot was fitted.

## Model

| member | source | states |
|---|---|---|
| Common.TruncToInt | bigfish/detection/dense_decomposition.py:576-577 | the int64 cast of a float coordinate: the integer part toward zero, never larger in magnitude and less than one away |
| Common.Collect | bigfish/detection/dense_decomposition.py:560-585 | the region loop with exceptions: all values when every step succeeds, otherwise exactly the error of the first failing step, with all earlier steps successful |
| Seqs.FirstArgmax | bigfish/detection/dense_decomposition.py:747 | `np.argmax`: an index of a maximum, and no earlier index holds that maximum |
| Seqs.Keep | bigfish/detection/dense_decomposition.py:364 | boolean-mask selection: an element is kept iff it satisfies the mask, with its full multiplicity, and never more elements than the input |
| Seqs.KeepAppend | bigfish/detection/dense_decomposition.py:441-442 | selection preserves order: selecting from a concatenation concatenates the selections |
| Seqs.KeepComplement | bigfish/detection/dense_decomposition.py:400-442 | selecting with a mask and with its negation splits a sequence: the two selections together are as many as its elements |
| Seqs.KeepAll | bigfish/detection/dense_decomposition.py:369-370 | a mask that holds for every element selects the whole sequence, unchanged |
| Seqs.ConcatMembership | bigfish/detection/dense_decomposition.py:587 | `np.concatenate`: an element is in the result iff it is in one of the parts |
| Geometry.RavelUnravel | bigfish/detection/dense_decomposition.py:731-732 | flattening the multi-index of a flat index gives the flat index back |
| Geometry.UnravelRavel | bigfish/detection/dense_decomposition.py:731-732 | the multi-index of the flattening of an in-bounds multi-index is that multi-index |
| Geometry.ContainsIffLocalInBounds | bigfish/detection/dense_decomposition.py:731 | a coordinate is in the bounding box iff its offset from the box's lower corner is a valid index of the sliced patch |
| Geometry.ExtractAt | bigfish/detection/dense_decomposition.py:730-732 | entry k of the sliced, flattened patch is the image pixel at the box's lower corner plus the multi-index of k, which lies inside the image |
| Geometry.ExtractReadsImage | bigfish/detection/dense_decomposition.py:731-733 | the sliced, flattened patch holds at the local index of every box coordinate the image pixel at that coordinate |
| Model.GeometryError | bigfish/detection/dense_decomposition.py:111-121 | no error iff a 3-d image has both z voxel size and z PSF size and the spots have one column per image axis; otherwise the first failing check's error, in source order: missing z voxel size, then missing z PSF size, then a spot/image rank mismatch |
| Model.Normalize | bigfish/detection/dense_decomposition.py:122-123 | a 2-d image drops any z geometry, and the in-plane geometry is kept |
| Model.EmptyIffNoRows | bigfish/detection/dense_decomposition.py:126 | with at least one column, `spots.size == 0` holds exactly when there are no spot rows |
| DenseRegions.HigherThresholdShrinksMask | bigfish/detection/dense_decomposition.py:314 | the mask `image > threshold` (`Mask`): a pixel is in it iff it is strictly above the threshold, and a higher threshold keeps a subset of the pixels and never more of them |
| DenseRegions.Threshold | bigfish/detection/dense_decomposition.py:285 | `int(max * beta)`: the product truncated toward zero, so the threshold lies within one of the product, on the side of zero |
| DenseRegions.RaisingBetaShrinksMask | bigfish/detection/dense_decomposition.py:285 | for a non-negative reference peak, a larger beta gives a threshold at least as high, hence a mask that is a subset with no more pixels |
| DenseRegions.LargestSide | bigfish/detection/dense_decomposition.py:405-413 | `max_region_size` bounds every side of every kept box and is one of those sides, or 0 when there is no box |
| DenseRegions.MaxGrid | bigfish/detection/dense_decomposition.py:177 | the erf table size is at least 200 and exceeds the largest region size, and is one of those two values |
| DenseRegions.LookupTableCoversRegions | bigfish/detection/dense_decomposition.py:177 | every side of every kept box is shorter than the erf table |
| DenseRegions.FilterSpotOutCandidateRegions | bigfish/detection/dense_decomposition.py:378-444 | a spot is kept iff it lies in no kept box (min <= coordinate < max on every axis), with its multiplicity and in input order; the returned size is the largest box side |
| DenseRegions.SpotsOutside | bigfish/detection/dense_decomposition.py:400-442 | `spots[mask_spots_out]`: a spot is selected iff it lies in no box, with its multiplicity |
| DenseRegions.SpotsInside | bigfish/detection/dense_decomposition.py:415-438 | a spot is selected iff some box holds it |
| DenseRegions.SpotsSplit | bigfish/detection/dense_decomposition.py:400-442 | every spot is in no box or in some box, so the two selections together count all spots |
| DenseRegions.SpotsOutKeepOrder | bigfish/detection/dense_decomposition.py:400-444 | the spots outside the regions keep their input order |
| DenseRegions.FilterConnectedRegion | bigfish/detection/dense_decomposition.py:350-375 | the kept components are those of area at least 2, in labelling order and with their multiplicity; the spots outside are the input spots in no kept box, in input order; the size is the largest kept side; no component at all returns the spots unchanged and size 0 |
| DenseRegions.RegionsKeepOrder | bigfish/detection/dense_decomposition.py:363-364 | the kept regions stay in labelling order: filtering a concatenation of components concatenates the filtered parts |
| DenseRegions.ConnectedRegions | bigfish/detection/dense_decomposition.py:279-288 | the components of the mask `image > int(max(median spot) * beta)` have boxes inside the image |
| DenseRegions.GetDenseRegion | bigfish/detection/dense_decomposition.py:258-294 | fails iff the rank, beta or z-geometry/spot-rank checks fail, with the first failing check's error in source order; otherwise the regions are the components of area >= 2 of the thresholded image in labelling order, with boxes inside the image; the size is the largest kept side; a spot is returned as outside iff no kept box holds it, in input order |
| DenseRegions.DenseRegionSplitsSpots | bigfish/detection/dense_decomposition.py:291-294 | the spots left outside and the spots inside the kept boxes add up to all input spots, and a spot not left outside lies in a kept box |
| Mixture.PlaceGaussians | bigfish/detection/dense_decomposition.py:739-765 | the while loop ends at the first pass where the trace says stop (or when the fuel runs out), with the positions, best simulation and SSR difference of the trace at that pass |
| Mixture.GreedyFit | bigfish/detection/dense_decomposition.py:739-776 | the loop followed by the pop / warning step yields the outcome of the functional trace |
| Mixture.StopRule | bigfish/detection/dense_decomposition.py:746 | the loop ends after at least one placement, on a placement that did not lower the SSR, at a count other than the limit; every earlier placement except one made at the limit strictly lowered the SSR; the "stopped early" warning is never raised |
| Mixture.NoStopAtLimit | bigfish/detection/dense_decomposition.py:769-776 | when the first placements up to the limit all improve, the loop goes past the limit instead of stopping there |
| Mixture.CentresAreFirstMaxima | bigfish/detection/dense_decomposition.py:747-748 | every placement sits at a grid point where the residual left by the earlier placements is maximal, and no earlier point in flat order reaches that maximum |
| Mixture.PositionsGrow | bigfish/detection/dense_decomposition.py:746-748 | each pass keeps the earlier positions and appends the grid point at the first maximum of the residual it saw |
| Mixture.Pass | bigfish/detection/dense_decomposition.py:747-765 | one pass of the loop body: the earlier positions are kept and the grid point of the residual's first maximum is appended; every pixel of the simulation gains the Gaussian rendered there; the SSR is that of the new residual and the difference is taken against the old SSR; the best simulation becomes the new one iff the difference is negative |
| Mixture.Finish | bigfish/detection/dense_decomposition.py:767-776 | the outcome after nb placements: the last position is dropped exactly when 1 < nb < limit, and the kept ones are the first placements in order; the warning is raised iff nb is the limit; the best simulation is the trace's |
| Mixture.OutcomeAtFirstStop | bigfish/detection/dense_decomposition.py:746-776 | a fit ends at the first count where the loop condition fails, within the fuel, every earlier count continuing, and then returns the outcome `Finish` gives at that count; it has no outcome exactly when the condition holds at every count up to the fuel |
| Mixture.KeptPositions | bigfish/detection/dense_decomposition.py:767-768 | the returned positions drop the last placement exactly when 1 < count < limit, so there is always at least one; each is the grid point of the residual's peak at its turn |
| Mixture.BestHeld | bigfish/detection/dense_decomposition.py:757-765 | a pass that does not lower the SSR leaves the best simulation as it was |
| Mixture.BestTaken | bigfish/detection/dense_decomposition.py:757-765 | a pass that lowers the SSR makes its simulation the best simulation |
| Mixture.BestIsLastImprovement | bigfish/detection/dense_decomposition.py:742-765 | right after a placement that lowered the SSR, and before any placement, the best simulation is the current simulation |
| Mixture.BestOverTwoPasses | bigfish/detection/dense_decomposition.py:757-765 | over two placements after an improving one, the second not improving: the best simulation is the one after the first if it improved, and the one before it otherwise |
| Mixture.BestMatchesKeptPositions | bigfish/detection/dense_decomposition.py:761-768 | after a pop (1 < count < limit), the best simulation is the simulation of exactly the kept positions; after a single placement it is all zeros while that position is kept; at exactly limit + 1 it is the simulation after the forced placement at the limit if that placement lowered the SSR, and the one before it otherwise; past limit + 1 all positions are kept but the best simulation is that of all but the last |
| Mixture.BackgroundAddedOnce | bigfish/detection/dense_decomposition.py:749-760 | with an additive background, the simulation after j >= 1 placements is the sum of the background-free Gaussians plus the background once |
| Mixture.ClipCast | bigfish/detection/dense_decomposition.py:780-781 | the clip and cast lands in [0, max], saturates at both ends, and truncates in-range values |
| Mixture.ClipCastProperties | bigfish/detection/dense_decomposition.py:780-781 | clipping preserves order and keeps representable integers unchanged |
| Mixture.ClipToDtype | bigfish/detection/dense_decomposition.py:779-781 | float pixel types fail (`np.iinfo`); for integer types every pixel is the simulated value clipped to [0, type maximum] and truncated |
| Mixture.GaussianMixture | bigfish/detection/dense_decomposition.py:693-783 | fails iff the loop needs more than the fuel or the pixel type is not an integer type; otherwise at least one position, all of them grid points, and the best simulation of the greedy loop clipped to the pixel type, pixel by pixel |
| Reconcile.GridPointRoundTrip | bigfish/detection/dense_decomposition.py:573-577 | the physical position of a patch pixel, divided by the voxel size, offset by the box corner and cast, is that pixel's image coordinate and lies in the box |
| Reconcile.GlobalRoundTrip | bigfish/detection/dense_decomposition.py:573-577 | the mapping of fitted positions back to the image (`ToGlobal`: divide by the voxel size, shift by the box corner, cast) reaches every coordinate of a box: global to local to physical and back to global gives the coordinate itself |
| Reconcile.ScaledBack | bigfish/detection/dense_decomposition.py:573-577 | `ToGlobal` on positions that are integer offsets times the voxel size gives exactly the offsets shifted by the box corner |
| Reconcile.RegionFit | bigfish/detection/dense_decomposition.py:730-736 | the fit of a region works on the box's slice of the image, flattened in row-major order, so entry k is the image pixel at the box's corner plus the multi-index of k; its grid is the physical grid of the box's sides, its limit is `limit_gaussian` and its first background the fitted one |
| Reconcile.PositionsAtPeaks | bigfish/detection/dense_decomposition.py:573-577 | every position a region's fit keeps comes back as the image pixel where the residual peaked on that placement, inside the region's box |
| Reconcile.TagRegion | bigfish/detection/dense_decomposition.py:571-585 | given positions that map back to residual peaks inside the box, every spot row is that peak's pixel followed by the region index, and the summary row is the first spot, the count, the area, the truncated mean intensity and the index |
| Reconcile.DecomposeRegion | bigfish/detection/dense_decomposition.py:560-585 | fails iff the fit fails, and only for lack of fuel or a float type; otherwise exactly one spot row per position the fit keeps (`coord.shape[0]`), in placement order, each the pixel where the residual peaked on that placement, inside the box, with the region index in its last column; the summary row is the first spot, that count, the area, the truncated mean intensity and the index |
| Reconcile.SpotCountMatchesRecords | bigfish/detection/dense_decomposition.py:581-587 | the concatenated spots are as many as the summary rows count |
| Reconcile.LoopDecomposes | bigfish/detection/dense_decomposition.py:560-585 | every region the loop decomposed has its index, area and spot count in its row, and exactly as many spots as its fit keeps positions, in placement order, each the pixel where its fit's residual peaked, inside its box and tagged with its index |
| Reconcile.LoopSucceeds | bigfish/detection/dense_decomposition.py:560-585 | for a non-empty region list, the loop succeeds iff the pixel type is an integer type and every region's fit stops within the fuel |
| Reconcile.Assembled | bigfish/detection/dense_decomposition.py:587-588 | the concatenation has one summary row per region in order, each counting at least one spot, and every spot names in its last column a region whose box holds it |
| Reconcile.Collected | bigfish/detection/dense_decomposition.py:560-588 | what the loop collected, concatenated, describes the regions and is the in-order concatenation of their blocks, block i holding exactly one residual-peak row per position region i's fit keeps |
| Reconcile.DecomposeAll | bigfish/detection/dense_decomposition.py:560-588 | fails at the concatenation iff there is no region; otherwise succeeds iff the pixel type is an integer type and every fit stops within the fuel, and then yields the in-order concatenation of the regions' blocks, each with one residual-peak row per position its fit keeps |
| Reconcile.SimulateGaussianMixture | bigfish/detection/dense_decomposition.py:495-590 | the rank, negative-background, missing z voxel size and missing sigma_z checks in that order; an empty region list fails at the concatenation, and only then; once the checks pass and regions exist, it succeeds iff the pixel type is an integer type and every region's fit stops within the fuel; a result is the concatenation in region order of per-region blocks, each with one row per position the region's fit keeps, at the residual-peak pixel and tagged with the region index, and one summary row per region holding its first spot as centroid and that spot count |
| Decompose.ArgumentCheck | bigfish/detection/dense_decomposition.py:88-121 | no error iff rank is 2 or 3, 0 <= alpha <= 1, beta >= 0, gamma >= 0 and the z-geometry and spot-rank checks pass; otherwise the first failing check's invalid-argument error, in source order: rank, alpha, beta, gamma, then the geometry checks |
| Decompose.Denoise | bigfish/detection/dense_decomposition.py:135-141 | the denoised image keeps shape and type, and is the image itself when gamma is 0 |
| Decompose.FittedPsf | bigfish/detection/dense_decomposition.py:156-162 | the fitted PSF has a z sigma exactly for a 3-d image |
| Decompose.ReferenceSpot | bigfish/detection/dense_decomposition.py:143-149 | `build_reference_spot` on the denoised image with the geometry of the image's rank returns at least one value |
| Decompose.DenseSelection | bigfish/detection/dense_decomposition.py:164-169 | the regions found on the denoised image lie inside it, and the spots returned as outside are the input spots in no kept box, in input order |
| Decompose.RegionMixture | bigfish/detection/dense_decomposition.py:176-191 | with dense regions, succeeds iff the fitted background is not negative, the pixel type is an integer type and every region's fit stops within the fuel; a result is the in-order concatenation of the regions' blocks, each with one residual-peak row per position that region's fit keeps |
| Decompose.MergedSpots | bigfish/detection/dense_decomposition.py:201-202 | every merged spot is an input spot or a pixel of the image, with one coordinate per axis |
| Decompose.FittedInBoxes | bigfish/detection/dense_decomposition.py:201-202 | every decomposed spot, without its region column, lies in the box of a kept region |
| Decompose.MergedInOrder | bigfish/detection/dense_decomposition.py:201-202 | the merged list is the input spots in no kept box, in input order, then as many spots as the summary rows count, each in a kept box |
| Decompose.Merge | bigfish/detection/dense_decomposition.py:193-202 | the output spots are the spots outside every kept box, in input order, followed by the decomposed spots cut to their first ndim columns (`Strip`, `spots_in_regions[:, :ndim]`); the rows are the mixture's, one per region; the "fewer spots" warning is raised iff the merged list is shorter than the input; every merged spot is an input spot or an image pixel |
| Decompose.MergeIsMergedResult | bigfish/detection/dense_decomposition.py:193-202 | the merge keeps the reference, returns the mixture's rows, and concatenates the spots outside with the stripped decomposed spots |
| Decompose.Detect | bigfish/detection/dense_decomposition.py:164-202 | after a non-zero reference spot only the background check, the fuel or the pixel type can fail; no dense region leaves the spots unchanged without a warning; the warning is raised iff fewer spots come out; output spots are input spots or image pixels |
| Decompose.DetectFollowsMixture | bigfish/detection/dense_decomposition.py:164-202 | no dense region returns the spots unchanged with the reference (the exit at line 171); with regions, the mixture's error is returned, or its rows and the spots outside every kept box followed by its stripped spots |
| Decompose.DecomposeChecked | bigfish/detection/dense_decomposition.py:125-204 | once the arguments are valid, only the background check, the fuel or the pixel type can fail; the warning is raised iff fewer spots come out; no dense region leaves the spots unchanged; output spots are input spots or image pixels with one coordinate per axis |
| Decompose.DecomposeDense | bigfish/detection/dense_decomposition.py:88-204 | fails with an invalid-argument error iff the argument checks fail, and then with the first failing check's error; never fails on missing sigma_z or an empty concatenation; the warning is raised iff fewer spots come out; no dense region leaves the spots unchanged; output spots are input spots or image pixels, with one coordinate per axis |
| Decompose.DenseDecomposes | bigfish/detection/dense_decomposition.py:125-204 | once the arguments pass: no spot gives the spots unchanged with a zero 5^rank reference; a reference spot summing to zero gives the spots unchanged with that reference; otherwise the result of detection with that reference, as above |
| Decompose.MergeCounts | bigfish/detection/dense_decomposition.py:193-202 | in a merged list, fewer spots come out than went in iff fewer spots were fitted than there were input spots inside the kept boxes, and no input spot outside every box is lost |
| Decompose.WarningCountsLostSpots | bigfish/detection/dense_decomposition.py:193-198 | the "fewer spots" warning is raised iff the regions yield fewer spots than the input spots inside them, and every input spot outside the kept boxes is in the output |
| Decompose.TwoDimensionalIgnoresZ | bigfish/detection/dense_decomposition.py:122-123 | for a 2-d image the result does not depend on the z voxel size or z PSF size given, whatever they are |

## Left out

- The external collaborators are parameters of the model, constrained only
  as far as the core relies on them (`Model.Valid`). They are:
  - `stack.get_sigma` and `stack.remove_background_gaussian`;
  - `build_reference_spot`, `modelize_spot` and `precompute_erf`, with
    `_gaussian_2d` / `_gaussian_3d`;
  - skimage's `label` and `regionprops`.

  Their numerics, the 8-connectivity of the labelling and the erf table
  contents are not modelled.
- `_initialize_grid_2d` / `_initialize_grid_3d` are not part of this model.
  The grid follows the documented rule, pixel index times voxel size on
  every axis.
- Floating point is modelled as exact real arithmetic. The SSR comparisons,
  the divisions by voxel size and the casts are therefore exact. The cast
  of a non-integral float that happens to round differently in float64 is
  not modelled.
- Mixture.GreedyFit: the source loop has no bound. The model takes a fuel
  bound and reports `OutOfFuel` when it is spent, so runs longer than the
  fuel are not described.
- Reconcile.SimulateGaussianMixture: the voxel sizes the image's rank uses
  are required to be non-zero. A 2-d image's z voxel size is dropped first,
  so it may be anything. Division by a zero voxel size gives numpy
  infinities, whose int64 cast is undefined.
- Decompose.DecomposeDense: the same non-zero voxel requirement applies. The
  background-removed image is assumed to keep the input's pixel type. Which
  spots come out is stated by `Decompose.DenseDecomposes`, not by its own
  postcondition.
- Decompose.ReferenceSpot: the reference spot's shape and values are
  whatever `build_reference_spot` returns. The model assumes only that it
  has at least one value (`Model.Valid`). Only the all-zero reference of
  the no-spot exit has the fixed shape (5,) * rank.
- The int64 range of coordinates and summary rows is not modelled: they are
  unbounded integers.
- The type checks of `check_parameter` and `check_array` (Python types,
  int64 spots, a 2-d spot array) are not modelled. The inputs are typed
  instead. The image types are exactly the four accepted ones.
- The warning messages themselves are not modelled, only whether they are
  raised.
- The reshaping of the best simulation to the patch shape is not modelled;
  it stays flat. The best simulation is returned by the fit but dropped by
  `simulate_gaussian_mixture`.
