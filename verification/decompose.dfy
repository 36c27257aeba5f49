/** `decompose_dense`: argument checks, the three early exits (no spot, an
    all-zero reference spot, no dense region), background removal, the PSF
    fit on the reference spot, dense-region detection, the Gaussian-mixture
    simulation and the merge of the spots outside and inside the regions. */
module Decompose {
  import opened Common
  import opened Seqs
  import opened Geometry
  import opened Model
  import opened DenseRegions
  import opened Mixture
  import opened Reconcile

  /** The argument checks of `decompose_dense`, in source order; None when
      they all pass. */
  function ArgumentCheck(rank: nat, spotColumns: nat, optics: Optics, alpha: real, beta: real, gamma: real): (e: Option<Error>)
    ensures e.None? <==>
      && rank in {2, 3} && 0.0 <= alpha <= 1.0 && beta >= 0.0 && gamma >= 0.0
      && GeometryError(rank, optics, spotColumns).None?
    ensures e.Some? ==> e.value.IsArgumentError()
    ensures e.Some? ==>
      (e.value ==
         if !(rank in {2, 3}) then UnsupportedRank
         else if alpha < 0.0 || alpha > 1.0 then AlphaOutOfRange
         else if beta < 0.0 then NegativeBeta
         else if gamma < 0.0 then NegativeGamma
         else GeometryError(rank, optics, spotColumns).value)
  {
    if !(rank in {2, 3}) then Some(UnsupportedRank)
    else if alpha < 0.0 || alpha > 1.0 then Some(AlphaOutOfRange)
    else if beta < 0.0 then Some(NegativeBeta)
    else if gamma < 0.0 then Some(NegativeGamma)
    else GeometryError(rank, optics, spotColumns)
  }

  /** The three results of `decompose_dense`, plus whether the "fewer spots
      after decomposition" warning is raised. */
  datatype Decomposition = Decomposition(spots: seq<seq<int>>, denseRegions: seq<RegionRecord>, reference: Patch, fewerSpots: bool)

  /** The first `rank` columns of every row: `spots_in_regions[:, :ndim]`. */
  function Strip(rows: seq<seq<int>>, rank: nat): (r: seq<seq<int>>)
    requires forall i :: 0 <= i < |rows| ==> |rows[i]| >= rank
    ensures |r| == |rows| && forall i :: 0 <= i < |rows| ==> r[i] == rows[i][..rank]
  {
    seq(|rows|, i requires 0 <= i < |rows| => rows[i][..rank])
  }

  /** Every Gaussian's spread scaled by gamma, for the background filter. */
  function Scale(sigma: seq<real>, gamma: real): (r: seq<real>)
    ensures |r| == |sigma| && forall i :: 0 <= i < |sigma| ==> r[i] == sigma[i] * gamma
  {
    seq(|sigma|, i requires 0 <= i < |sigma| => sigma[i] * gamma)
  }

  /** The image the regions are detected on: background removed with a
      Gaussian gamma times wider than a spot, or the image itself when gamma
      is 0. The spot size of a 2-d image ignores any z geometry. */
  function Denoise(image: Image, optics: Optics, gamma: real, col: Collaborators): (d: Image)
    requires image.WellFormed() && Valid(col, image.shape)
    ensures d.WellFormed() && d.shape == image.shape && d.dtype == image.dtype
    ensures gamma <= 0.0 ==> d == image
  {
    if gamma > 0.0 then
      image.(pixels := col.removeBackground(image.pixels, Scale(col.getSigma(Normalize(optics, image.Rank())), gamma)))
    else image
  }

  /** `build_reference_spot` on the denoised image. */
  function ReferenceSpot(image: Image, spots: SpotArray, optics: Optics, alpha: real, gamma: real, col: Collaborators): (p: Patch)
    requires image.WellFormed() && Valid(col, image.shape)
    ensures |p.values| > 0
  {
    col.buildReferenceSpot(Denoise(image, optics, gamma, col).pixels, spots.rows, Normalize(optics, image.Rank()), alpha)
  }

  /** The fitted PSF: sigma_z only for a 3-d image. */
  function FittedPsf(reference: seq<real>, optics: Optics, rank: nat, col: Collaborators): (psf: Psf)
    ensures psf.sigmaZ.Some? <==> rank == 3
  {
    var fitted := col.modelizeSpot(reference, optics);
    Psf(if rank == 3 then Some(fitted.0) else None, fitted.1, fitted.2, fitted.3)
  }

  /** The checks `get_dense_region` repeats, which hold once the arguments
      of `decompose_dense` passed theirs. */
  ghost predicate Detectable(image: Image, spots: SpotArray, optics: Optics, beta: real, col: Collaborators)
  {
    && image.WellFormed() && spots.WellFormed() && Valid(col, image.shape)
    && Normalize(optics, image.Rank()).NonZeroVoxels()
    && image.Rank() in {2, 3} && beta >= 0.0 && GeometryError(image.Rank(), optics, spots.columns).None?
  }

  /** The dense regions `get_dense_region` finds on the denoised image. */
  function DenseSelection(image: Image, spots: SpotArray, optics: Optics, beta: real, gamma: real, col: Collaborators): (sel: Selection)
    requires Detectable(image, spots, optics, beta, col)
    ensures SameRank(Boxes(sel.regions)) && ComponentsFit(sel.regions, image.shape)
    ensures sel.spotsOut == SpotsOutside(Boxes(sel.regions), spots.rows)
  {
    var sel := GetDenseRegion(Denoise(image, optics, gamma, col), spots, Normalize(optics, image.Rank()), beta, col).value;
    assert ComponentsFit(sel.regions, image.shape) by {
      forall i | 0 <= i < |sel.regions| ensures sel.regions[i].bbox.FitsIn(image.shape) {
        assert sel.regions[i] in sel.regions;
      }
    }
    sel
  }

  /** `simulate_gaussian_mixture` on the dense regions of the denoised image,
      with the PSF fitted on `reference` and the erf table sized for the
      largest region. When there are regions it succeeds exactly when the
      fitted background is not negative, the pixel type is an integer type
      and the fit of every region stops within the fuel. */
  function RegionMixture(image: Image, spots: SpotArray, optics: Optics, beta: real, gamma: real, reference: Patch,
                         col: Collaborators, fuel: nat): (r: Result<Simulated>)
    requires Detectable(image, spots, optics, beta, col)
    ensures var sel := DenseSelection(image, spots, optics, beta, gamma, col);
      r.Ok? ==> |sel.regions| > 0 && r.value.Describes(sel.regions, image.Rank())
    ensures var sel := DenseSelection(image, spots, optics, beta, gamma, col);
      var o := Normalize(optics, image.Rank());
      var scene := SceneOf(Denoise(image, optics, gamma, col), o, FittedPsf(reference.values, o, image.Rank(), col), MaxGrid(sel.maxSize), col);
      r.Ok? ==> Concatenates(r.value, scene, sel.regions, fuel)
    ensures r.Err? && |DenseSelection(image, spots, optics, beta, gamma, col).regions| > 0 ==>
      r.error in {NegativeBackground, OutOfFuel, NonIntegerDtype}
    ensures var sel := DenseSelection(image, spots, optics, beta, gamma, col);
      var o := Normalize(optics, image.Rank());
      var psf := FittedPsf(reference.values, o, image.Rank(), col);
      var scene := SceneOf(Denoise(image, optics, gamma, col), o, psf, MaxGrid(sel.maxSize), col);
      |sel.regions| > 0 ==> (r.Ok? <==> (psf.background >= 0.0 && image.dtype.IsInteger() &&
        forall i :: 0 <= i < |sel.regions| ==> GreedyOutcome(RegionFit(scene, sel.regions[i]), fuel).Some?))
  {
    var sel := DenseSelection(image, spots, optics, beta, gamma, col);
    var o := Normalize(optics, image.Rank());
    SimulateGaussianMixture(Denoise(image, optics, gamma, col), sel.regions, o, FittedPsf(reference.values, o, image.Rank(), col),
                            MaxGrid(sel.maxSize), col, fuel)
  }

  /** No decomposition: the spots unchanged, no dense region. */
  function Unchanged(spots: SpotArray, reference: Patch): Result<Decomposition>
  {
    Ok(Decomposition(spots.rows, [], reference, false))
  }

  /** A merged spot list: the input spots in no kept box, in input order,
      followed by `fitted` spots that each lie in a kept box. */
  predicate MergedFrom(out: seq<seq<int>>, input: seq<seq<int>>, boxes: seq<Box>, fitted: nat)
  {
    var outside := SpotsOutside(boxes, input);
    && |out| == |outside| + fitted
    && out[..|outside|] == outside
    && forall k :: |outside| <= k < |out| ==> exists b :: 0 <= b < |boxes| && boxes[b].Contains(out[k])
  }

  /** The spots outside the regions, then the decomposed spots without
      their region column: every one is an input spot or a pixel of the
      image, with one coordinate per axis. */
  lemma MergedSpots(spotsOut: seq<seq<int>>, sim: Simulated, regions: seq<Component>, shape: seq<nat>, input: seq<seq<int>>)
    requires sim.Describes(regions, |shape|) && ComponentsFit(regions, shape)
    requires forall s :: s in spotsOut ==> s in input
    requires forall s :: s in input ==> |s| == |shape|
    ensures forall s :: s in sim.spots ==> |s| >= |shape|
    ensures forall s :: s in spotsOut + Strip(sim.spots, |shape|) ==> (s in input || InBounds(s, shape)) && |s| == |shape|
  {
    var inside := Strip(sim.spots, |shape|);
    forall s | s in spotsOut + inside
      ensures (s in input || InBounds(s, shape)) && |s| == |shape|
    {
      if s !in spotsOut {
        var i :| 0 <= i < |inside| && inside[i] == s;
        assert sim.spots[i] in sim.spots;
        var c := sim.spots[i][|shape|];
        assert regions[c].bbox.FitsIn(shape);
      }
    }
  }

  /** Every decomposed spot, stripped of its region column, lies in the box
      of the region it names. */
  lemma FittedInBoxes(sim: Simulated, regions: seq<Component>, shape: seq<nat>)
    requires sim.Describes(regions, |shape|)
    ensures forall s :: s in sim.spots ==> |s| >= |shape|
    ensures var inside := Strip(sim.spots, |shape|);
      forall k :: 0 <= k < |inside| ==> exists b :: 0 <= b < |regions| && Boxes(regions)[b].Contains(inside[k])
  {
    var inside := Strip(sim.spots, |shape|);
    forall k | 0 <= k < |inside|
      ensures exists b :: 0 <= b < |regions| && Boxes(regions)[b].Contains(inside[k])
    {
      var s := sim.spots[k];
      assert s in sim.spots;
      assert Boxes(regions)[s[|shape|]].Contains(inside[k]);
    }
  }

  /** The same concatenation, in order: the input spots outside every kept
      box in input order, then as many spots as the summary rows count, each
      in a kept box. */
  lemma MergedInOrder(spotsOut: seq<seq<int>>, sim: Simulated, regions: seq<Component>, shape: seq<nat>, input: seq<seq<int>>)
    requires sim.Describes(regions, |shape|)
    requires spotsOut == SpotsOutside(Boxes(regions), input)
    ensures forall s :: s in sim.spots ==> |s| >= |shape|
    ensures MergedFrom(spotsOut + Strip(sim.spots, |shape|), input, Boxes(regions), TotalCount(sim.regions))
  {
    FittedInBoxes(sim, regions, shape);
    var inside := Strip(sim.spots, |shape|);
    var out := spotsOut + inside;
    forall k | |spotsOut| <= k < |out|
      ensures exists b :: 0 <= b < |regions| && Boxes(regions)[b].Contains(out[k])
    {
      assert out[k] == inside[k - |spotsOut|];
    }
    assert out[..|spotsOut|] == spotsOut;
    assert |out| == |spotsOut| + TotalCount(sim.regions);
  }

  /** `np.concatenate((spots_out_regions, spots_in_regions[:, :ndim]))`,
      the dense-region rows, and the warning raised when fewer spots come
      out than went in. */
  function Merge(spots: SpotArray, sel: Selection, sim: Simulated, shape: seq<nat>, reference: Patch): (d: Decomposition)
    requires spots.WellFormed() && spots.columns == |shape|
    requires sim.Describes(sel.regions, |shape|) && ComponentsFit(sel.regions, shape) && |sel.regions| > 0
    requires sel.spotsOut == SpotsOutside(Boxes(sel.regions), spots.rows)
    ensures d.spots == sel.spotsOut + Strip(sim.spots, |shape|) && d.denseRegions == sim.regions
    ensures d.reference == reference && |d.denseRegions| == |sel.regions|
    ensures d.fewerSpots <==> |d.spots| < |spots.rows|
    ensures MergedFrom(d.spots, spots.rows, Boxes(sel.regions), TotalCount(d.denseRegions))
    ensures forall s :: s in d.spots ==> (s in spots.rows || InBounds(s, shape)) && |s| == |shape|
  {
    MergedSpots(sel.spotsOut, sim, sel.regions, shape, spots.rows);
    MergedInOrder(sel.spotsOut, sim, sel.regions, shape, spots.rows);
    Decomposition(sel.spotsOut + Strip(sim.spots, |shape|), sim.regions, reference, |sel.spotsOut| + |sim.spots| < |spots.rows|)
  }

  /** A result built from the mixture `sim` of the regions `sel`: the
      reference kept, the mixture's summary rows, one per region, and the
      spots outside every kept box followed by the decomposed spots without
      their region column. */
  predicate MergedResult(r: Result<Decomposition>, spots: SpotArray, sel: Selection, sim: Simulated, reference: Patch, rank: nat)
  {
    && r.Ok? && r.value.reference == reference
    && r.value.denseRegions == sim.regions && |r.value.denseRegions| == |sel.regions|
    && (forall i :: 0 <= i < |sim.spots| ==> |sim.spots[i]| >= rank)
    && r.value.spots == sel.spotsOut + Strip(sim.spots, rank)
    && MergedFrom(r.value.spots, spots.rows, Boxes(sel.regions), TotalCount(r.value.denseRegions))
  }

  /** What `decompose_dense` returns after a reference spot that is not all
      zero: the spots unchanged when no dense region is found; otherwise the
      mixture's error, or the merge of its result. */
  predicate Detected(r: Result<Decomposition>, image: Image, spots: SpotArray, optics: Optics, beta: real, gamma: real,
                     reference: Patch, col: Collaborators, fuel: nat)
    requires Detectable(image, spots, optics, beta, col)
  {
    var sel := DenseSelection(image, spots, optics, beta, gamma, col);
    && (|sel.regions| == 0 ==> r == Unchanged(spots, reference))
    && (|sel.regions| > 0 ==>
          match RegionMixture(image, spots, optics, beta, gamma, reference, col, fuel)
          case Err(e) => r == Err(e)
          case Ok(sim) => MergedResult(r, spots, sel, sim, reference, image.Rank()))
  }

  /** Everything after a non-zero reference spot: the PSF fit, the dense
      regions, their decomposition and the merge. Only the mixture can still
      fail. */
  function Detect(image: Image, spots: SpotArray, optics: Optics, beta: real, gamma: real, reference: Patch,
                  col: Collaborators, fuel: nat): (r: Result<Decomposition>)
    requires Detectable(image, spots, optics, beta, col)
    ensures r.Err? ==> r.error in {NegativeBackground, OutOfFuel, NonIntegerDtype}
    ensures r.Ok? ==> r.value.reference == reference
    ensures r.Ok? ==> (r.value.fewerSpots <==> |r.value.spots| < |spots.rows|)
    ensures r.Ok? && |r.value.denseRegions| == 0 ==> r.value.spots == spots.rows && !r.value.fewerSpots
    ensures r.Ok? ==> forall s :: s in r.value.spots ==> (s in spots.rows || InBounds(s, image.shape)) && |s| == image.Rank()
  {
    var sel := DenseSelection(image, spots, optics, beta, gamma, col);
    assert spots.columns == |image.shape|;
    if |sel.regions| == 0 then Unchanged(spots, reference)
    else
      match RegionMixture(image, spots, optics, beta, gamma, reference, col, fuel)
      case Err(e) => Err(e)
      case Ok(sim) => Ok(Merge(spots, sel, sim, image.shape, reference))
  }

  /** Detection returns the spots unchanged without dense regions, and
      otherwise the mixture's error or the merge of its result. */
  lemma DetectFollowsMixture(image: Image, spots: SpotArray, optics: Optics, beta: real, gamma: real, reference: Patch,
                             col: Collaborators, fuel: nat)
    requires Detectable(image, spots, optics, beta, col)
    ensures Detected(Detect(image, spots, optics, beta, gamma, reference, col, fuel), image, spots, optics, beta, gamma,
                     reference, col, fuel)
  {
    var sel := DenseSelection(image, spots, optics, beta, gamma, col);
    if |sel.regions| > 0 {
      match RegionMixture(image, spots, optics, beta, gamma, reference, col, fuel)
      case Err(e) =>
      case Ok(sim) =>
        MergeIsMergedResult(spots, sel, sim, image.shape, reference);
        assert Detect(image, spots, optics, beta, gamma, reference, col, fuel) == Ok(Merge(spots, sel, sim, image.shape, reference));
    }
  }

  /** `Merge` builds a merged result. */
  lemma MergeIsMergedResult(spots: SpotArray, sel: Selection, sim: Simulated, shape: seq<nat>, reference: Patch)
    requires spots.WellFormed() && spots.columns == |shape|
    requires sim.Describes(sel.regions, |shape|) && ComponentsFit(sel.regions, shape) && |sel.regions| > 0
    requires sel.spotsOut == SpotsOutside(Boxes(sel.regions), spots.rows)
    ensures MergedResult(Ok(Merge(spots, sel, sim, shape, reference)), spots, sel, sim, reference, |shape|)
  {
    forall i | 0 <= i < |sim.spots|
      ensures |sim.spots[i]| >= |shape|
    {
      assert sim.spots[i] in sim.spots;
    }
  }

  /** What holds of every result: the "fewer spots" warning is raised
      exactly when fewer spots come out than went in; without a dense region
      the spots come out unchanged and without a warning; and every output
      spot is an input spot or a pixel of the image, with one coordinate per
      axis. */
  predicate Consistent(d: Decomposition, spots: SpotArray, shape: seq<nat>)
  {
    && (d.fewerSpots <==> |d.spots| < |spots.rows|)
    && (|d.denseRegions| == 0 ==> d.spots == spots.rows && !d.fewerSpots)
    && forall s :: s in d.spots ==> (s in spots.rows || InBounds(s, shape)) && |s| == |shape|
  }

  /** What `decompose_dense` returns once its arguments passed the checks:
      with no spot, the spots unchanged and an all-zero reference of shape
      (5,) * rank; with a reference spot summing to zero, the spots unchanged
      and that reference; otherwise what detection gives with that
      reference. */
  predicate Decomposes(r: Result<Decomposition>, image: Image, spots: SpotArray, optics: Optics, alpha: real, beta: real,
                       gamma: real, col: Collaborators, fuel: nat)
    requires image.WellFormed() && spots.WellFormed() && Valid(col, image.shape) && Normalize(optics, image.Rank()).NonZeroVoxels()
    requires ArgumentCheck(image.Rank(), spots.columns, optics, alpha, beta, gamma).None?
  {
    var reference := ReferenceSpot(image, spots, optics, alpha, gamma, col);
    && (|spots.rows| == 0 ==> r == Unchanged(spots, Patch(ReferenceShape(image.Rank()), Zeros(ReferenceSize(image.Rank())))))
    && (|spots.rows| > 0 && Sum(reference.values) == 0.0 ==> r == Unchanged(spots, reference))
    && (|spots.rows| > 0 && Sum(reference.values) != 0.0 ==> Detected(r, image, spots, optics, beta, gamma, reference, col, fuel))
    && (r.Ok? && |spots.rows| > 0 ==> r.value.reference == reference)
  }

  /** Everything after the argument checks: the empty-spots exit, background
      removal, the reference spot and its all-zero exit, then detection. */
  function DecomposeChecked(image: Image, spots: SpotArray, optics: Optics, alpha: real, beta: real, gamma: real,
                            col: Collaborators, fuel: nat): (r: Result<Decomposition>)
    requires image.WellFormed() && spots.WellFormed() && Valid(col, image.shape) && Normalize(optics, image.Rank()).NonZeroVoxels()
    requires ArgumentCheck(image.Rank(), spots.columns, optics, alpha, beta, gamma).None?
    ensures r.Err? ==> r.error in {NegativeBackground, OutOfFuel, NonIntegerDtype}
    ensures r.Ok? ==> Consistent(r.value, spots, image.shape)
  {
    var rank := image.Rank();
    EmptyIffNoRows(spots);
    if spots.Size() == 0 then
      Unchanged(spots, Patch(ReferenceShape(rank), Zeros(ReferenceSize(rank))))
    else
      var reference := ReferenceSpot(image, spots, optics, alpha, gamma, col);
      if Sum(reference.values) == 0.0 then Unchanged(spots, reference)
      else Detect(image, spots, optics, beta, gamma, reference, col, fuel)
  }

  /** `decompose_dense`. */
  function DecomposeDense(image: Image, spots: SpotArray, optics: Optics, alpha: real, beta: real, gamma: real,
                          col: Collaborators, fuel: nat): (r: Result<Decomposition>)
    requires image.WellFormed() && spots.WellFormed() && Valid(col, image.shape) && Normalize(optics, image.Rank()).NonZeroVoxels()
    ensures (r.Err? && r.error.IsArgumentError()) <==>
      ArgumentCheck(image.Rank(), spots.columns, optics, alpha, beta, gamma).Some?
    ensures ArgumentCheck(image.Rank(), spots.columns, optics, alpha, beta, gamma).Some? ==>
      r == Err(ArgumentCheck(image.Rank(), spots.columns, optics, alpha, beta, gamma).value)
    ensures r.Err? ==> r.error !in {MissingSigmaZ, NothingToConcatenate}
    ensures r.Ok? ==> Consistent(r.value, spots, image.shape)
  {
    match ArgumentCheck(image.Rank(), spots.columns, optics, alpha, beta, gamma)
    case Some(e) => Err(e)
    case None => DecomposeChecked(image, spots, optics, alpha, beta, gamma, col, fuel)
  }

  /** Once the arguments pass their checks, `decompose_dense` takes the
      empty-spots exit, the all-zero reference exit, the no-region exit or
      the full decomposition, as `Decomposes` says. */
  lemma DenseDecomposes(image: Image, spots: SpotArray, optics: Optics, alpha: real, beta: real, gamma: real,
                        col: Collaborators, fuel: nat)
    requires image.WellFormed() && spots.WellFormed() && Valid(col, image.shape) && Normalize(optics, image.Rank()).NonZeroVoxels()
    requires ArgumentCheck(image.Rank(), spots.columns, optics, alpha, beta, gamma).None?
    ensures Decomposes(DecomposeDense(image, spots, optics, alpha, beta, gamma, col, fuel), image, spots, optics, alpha, beta, gamma, col, fuel)
  {
    var rank := image.Rank();
    EmptyIffNoRows(spots);
    if |spots.rows| > 0 {
      var reference := ReferenceSpot(image, spots, optics, alpha, gamma, col);
      if Sum(reference.values) != 0.0 {
        assert DecomposeDense(image, spots, optics, alpha, beta, gamma, col, fuel)
            == Detect(image, spots, optics, beta, gamma, reference, col, fuel);
        DetectFollowsMixture(image, spots, optics, beta, gamma, reference, col, fuel);
      }
    }
  }

  /** In a merged spot list, the output is shorter than the input exactly
      when fewer spots were fitted than there were input spots inside the
      boxes, and every input spot outside all boxes is kept. */
  lemma MergeCounts(out: seq<seq<int>>, input: seq<seq<int>>, boxes: seq<Box>, fitted: nat)
    requires MergedFrom(out, input, boxes, fitted)
    ensures |out| < |input| <==> fitted < |SpotsInside(boxes, input)|
    ensures forall s :: s in input && OutsideAll(s, boxes) ==> s in out
  {
    var outside := SpotsOutside(boxes, input);
    SpotsSplit(boxes, input);
    forall s | s in input && OutsideAll(s, boxes)
      ensures s in out
    {
      assert s in out[..|outside|];
    }
  }

  /** The "fewer spots" warning is raised exactly when the dense regions
      yield fewer fitted spots than there were input spots inside them, and
      no input spot outside every kept box is lost. */
  lemma WarningCountsLostSpots(image: Image, spots: SpotArray, optics: Optics, alpha: real, beta: real, gamma: real,
                               col: Collaborators, fuel: nat)
    requires image.WellFormed() && spots.WellFormed() && Valid(col, image.shape) && Normalize(optics, image.Rank()).NonZeroVoxels()
    requires ArgumentCheck(image.Rank(), spots.columns, optics, alpha, beta, gamma).None?
    ensures var r := DecomposeDense(image, spots, optics, alpha, beta, gamma, col, fuel);
      var boxes := Boxes(DenseSelection(image, spots, optics, beta, gamma, col).regions);
      r.Ok? && |r.value.denseRegions| > 0 ==>
        && (r.value.fewerSpots <==> TotalCount(r.value.denseRegions) < |SpotsInside(boxes, spots.rows)|)
        && forall s :: s in spots.rows && OutsideAll(s, boxes) ==> s in r.value.spots
  {
    var r := DecomposeDense(image, spots, optics, alpha, beta, gamma, col, fuel);
    if r.Ok? && |r.value.denseRegions| > 0 {
      var sel := DenseSelection(image, spots, optics, beta, gamma, col);
      DenseOutcomeIsDetect(image, spots, optics, alpha, beta, gamma, col, fuel);
      DetectIsMerge(image, spots, optics, beta, gamma, ReferenceSpot(image, spots, optics, alpha, gamma, col), col, fuel);
      MergeCounts(r.value.spots, spots.rows, Boxes(sel.regions), TotalCount(r.value.denseRegions));
    }
  }

  /** When regions were decomposed, the checked arguments went past both
      early exits into detection on the reference spot. */
  lemma DenseOutcomeIsDetect(image: Image, spots: SpotArray, optics: Optics, alpha: real, beta: real, gamma: real,
                             col: Collaborators, fuel: nat)
    requires image.WellFormed() && spots.WellFormed() && Valid(col, image.shape) && Normalize(optics, image.Rank()).NonZeroVoxels()
    requires ArgumentCheck(image.Rank(), spots.columns, optics, alpha, beta, gamma).None?
    ensures var r := DecomposeDense(image, spots, optics, alpha, beta, gamma, col, fuel);
      r.Ok? && |r.value.denseRegions| > 0 ==>
        && Detectable(image, spots, optics, beta, col)
        && r == Detect(image, spots, optics, beta, gamma, ReferenceSpot(image, spots, optics, alpha, gamma, col), col, fuel)
  {
    var r := DecomposeDense(image, spots, optics, alpha, beta, gamma, col, fuel);
    if r.Ok? && |r.value.denseRegions| > 0 {
      EmptyIffNoRows(spots);
      assert r == DecomposeChecked(image, spots, optics, alpha, beta, gamma, col, fuel);
      assert |spots.rows| > 0 && Sum(ReferenceSpot(image, spots, optics, alpha, gamma, col).values) != 0.0;
    }
  }

  /** Detection that yields dense regions is the merge of the selection and
      the mixture's result. */
  lemma DetectIsMerge(image: Image, spots: SpotArray, optics: Optics, beta: real, gamma: real, reference: Patch,
                      col: Collaborators, fuel: nat)
    requires Detectable(image, spots, optics, beta, col)
    ensures var r := Detect(image, spots, optics, beta, gamma, reference, col, fuel);
      var mixture := RegionMixture(image, spots, optics, beta, gamma, reference, col, fuel);
      r.Ok? && |r.value.denseRegions| > 0 ==>
        && mixture.Ok?
        && r == Ok(Merge(spots, DenseSelection(image, spots, optics, beta, gamma, col), mixture.value, image.shape, reference))
  {
    var r := Detect(image, spots, optics, beta, gamma, reference, col, fuel);
    if r.Ok? && |r.value.denseRegions| > 0 {
      assert |DenseSelection(image, spots, optics, beta, gamma, col).regions| > 0;
    }
  }

  /** A 2-d image ignores whatever z geometry it is given. */
  lemma TwoDimensionalIgnoresZ(image: Image, spots: SpotArray, o1: Optics, o2: Optics, alpha: real, beta: real, gamma: real,
                               col: Collaborators, fuel: nat)
    requires image.WellFormed() && spots.WellFormed() && Valid(col, image.shape) && image.Rank() == 2
    requires Normalize(o1, image.Rank()).NonZeroVoxels() && Normalize(o2, image.Rank()).NonZeroVoxels()
    requires o1.voxelYx == o2.voxelYx && o1.psfYx == o2.psfYx
    ensures DecomposeDense(image, spots, o1, alpha, beta, gamma, col, fuel)
         == DecomposeDense(image, spots, o2, alpha, beta, gamma, col, fuel)
  {
    assert Normalize(o1, 2) == Normalize(o2, 2);
    assert ArgumentCheck(2, spots.columns, o1, alpha, beta, gamma) == ArgumentCheck(2, spots.columns, o2, alpha, beta, gamma);
    if ArgumentCheck(2, spots.columns, o1, alpha, beta, gamma).None? {
      var reference := ReferenceSpot(image, spots, o1, alpha, gamma, col);
      assert reference == ReferenceSpot(image, spots, o2, alpha, gamma, col);
      if |spots.rows| > 0 && Sum(reference.values) != 0.0 {
        assert Detect(image, spots, o1, beta, gamma, reference, col, fuel) == Detect(image, spots, o2, beta, gamma, reference, col, fuel) by {
          assert Denoise(image, o1, gamma, col) == Denoise(image, o2, gamma, col);
          assert DenseSelection(image, spots, o1, beta, gamma, col) == DenseSelection(image, spots, o2, beta, gamma, col);
          assert RegionMixture(image, spots, o1, beta, gamma, reference, col, fuel)
              == RegionMixture(image, spots, o2, beta, gamma, reference, col, fuel);
        }
      }
    }
  }
}
