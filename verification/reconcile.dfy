/** `simulate_gaussian_mixture`: every candidate region is fitted on its own
    patch, the fitted positions are brought back from physical units to
    image pixels, tagged with the region's index, and a one-row summary is
    recorded per region. */
module Reconcile {
  import opened Common
  import opened Seqs
  import opened Geometry
  import opened Model
  import opened Mixture

  /** What every region of one call shares: the image, the voxel geometry,
      the fitted PSF, the size of the erf table and the collaborators. */
  datatype Scene = Scene(image: Image, optics: Optics, psf: Psf, maxGrid: nat, col: Collaborators)
  {
    /** A 2-d image, or a 3-d image with a z voxel size; no zero voxel size. */
    predicate Ready()
    {
      && image.WellFormed()
      && (image.Rank() == 2 || (image.Rank() == 3 && optics.voxelZ.Some?))
      && optics.NonZeroVoxels()
    }

    function Voxel(): (v: seq<real>)
      requires Ready()
      ensures |v| == image.Rank() && forall a :: 0 <= a < |v| ==> v[a] != 0.0
    {
      VoxelAxes(optics, image.Rank())
    }
  }

  /** A fitted position back in the image: `position / voxel + lo` on every
      axis, cast to int64 (truncation toward zero). */
  function ToGlobal(position: seq<real>, voxel: seq<real>, lo: seq<int>): (c: seq<int>)
    requires |position| == |lo| && |voxel| == |lo|
    requires forall a :: 0 <= a < |voxel| ==> voxel[a] != 0.0
    ensures |c| == |lo|
    ensures forall a :: 0 <= a < |lo| ==> c[a] == TruncToInt(position[a] / voxel[a] + lo[a] as real)
  {
    seq(|lo|, a requires 0 <= a < |lo| => TruncToInt(position[a] / voxel[a] + lo[a] as real))
  }

  /** Dividing a pixel index scaled by the voxel size by that voxel size, and
      adding an integer offset, lands on an integer: the cast is exact. */
  lemma ScaleBack(p: real, u: int, v: real, lo: int)
    requires v != 0.0 && p == u as real * v
    ensures TruncToInt(p / v + lo as real) == u + lo
  {
    assert p / v == u as real;
    TruncOfInteger(u + lo);
  }

  /** A valid index of a box's patch, offset by the box's lower corner, is a
      coordinate of the box. */
  lemma OffsetInBox(box: Box, u: seq<int>)
    requires box.Proper() && InBounds(u, box.Sides())
    ensures box.Contains(Offset(box.lo, u))
  {
  }

  /** Positions that are integer offsets scaled by the voxel size convert
      back to exactly those offsets, shifted by the lower corner. */
  lemma ScaledBack(p: seq<real>, u: seq<int>, voxel: seq<real>, lo: seq<int>)
    requires |p| == |lo| && |u| == |lo| && |voxel| == |lo|
    requires forall a :: 0 <= a < |voxel| ==> voxel[a] != 0.0
    requires forall a :: 0 <= a < |p| ==> p[a] == u[a] as real * voxel[a]
    ensures ToGlobal(p, voxel, lo) == Offset(lo, u)
  {
    var c, o := ToGlobal(p, voxel, lo), Offset(lo, u);
    forall a | 0 <= a < |lo|
      ensures c[a] == o[a]
    {
      ScaleBack(p[a], u[a], voxel[a], lo[a]);
    }
  }

  /** The physical position of a patch pixel comes back as that pixel's
      coordinate in the image, which lies in the box. */
  lemma GridPointRoundTrip(box: Box, voxel: seq<real>, k: nat)
    requires box.Proper() && |voxel| == |box.lo| && k < Product(box.Sides())
    requires forall a :: 0 <= a < |voxel| ==> voxel[a] != 0.0
    ensures var c := ToGlobal(GridPoint(box.Sides(), voxel, k), voxel, box.lo);
      c == Offset(box.lo, Unravel(k, box.Sides())) && box.Contains(c)
  {
    var sides := box.Sides();
    var u := Unravel(k, sides);
    ScaledBack(GridPoint(sides, voxel, k), u, voxel, box.lo);
    OffsetInBox(box, u);
  }

  /** Every coordinate of a box is reached: the grid point of its local
      index comes back as the coordinate itself. */
  lemma GlobalRoundTrip(box: Box, voxel: seq<real>, c: seq<int>)
    requires box.Proper() && |voxel| == |box.lo| && box.Contains(c)
    requires forall a :: 0 <= a < |voxel| ==> voxel[a] != 0.0
    ensures var k := Ravel(Difference(c, box.lo), box.Sides());
      0 <= k < Product(box.Sides()) && ToGlobal(GridPoint(box.Sides(), voxel, k), voxel, box.lo) == c
  {
    var sides, local := box.Sides(), Difference(c, box.lo);
    ContainsIffLocalInBounds(box, c);
    UnravelRavel(local, sides);
    var k := Ravel(local, sides);
    assert Unravel(k, sides) == local;
    GridPointRoundTrip(box, voxel, k);
    assert Offset(box.lo, local) == c by {
      assert forall a :: 0 <= a < |c| ==> Offset(box.lo, local)[a] == c[a];
    }
  }

  /** The fit of one region: its patch, the physical grid of the patch, the
      PSF evaluated through the erf table, the PSF background and the
      default limit. */
  function RegionFit(scene: Scene, region: Component): (f: Fit)
    requires scene.Ready() && region.bbox.FitsIn(scene.image.shape)
    ensures f.Valid() && |f.patch| == Product(region.bbox.Sides())
    ensures f.background == scene.psf.background && f.limit == LimitGaussian
    ensures f.grid == Grid(region.bbox.Sides(), scene.Voxel())
    ensures forall k :: 0 <= k < |f.patch| ==>
      && InBounds(Offset(region.bbox.lo, Unravel(k, region.bbox.Sides())), scene.image.shape)
      && f.patch[k] == PixelAt(scene.image.pixels, scene.image.shape, Offset(region.bbox.lo, Unravel(k, region.bbox.Sides())))
  {
    var sides := region.bbox.Sides();
    ProductPositive(sides);
    Fit(Extract(scene.image.pixels, scene.image.shape, region.bbox),
        Grid(sides, scene.Voxel()),
        (p, mu, b) => scene.col.gaussian(scene.optics, scene.psf, scene.maxGrid, p, mu, b),
        scene.psf.background,
        LimitGaussian)
  }

  /** Every position the fit keeps comes back as the image pixel at which
      the residual peaked on that placement, inside the region's box. */
  lemma PositionsAtPeaks(scene: Scene, region: Component, fuel: nat)
    requires scene.Ready() && region.bbox.FitsIn(scene.image.shape)
    requires GreedyOutcome(RegionFit(scene, region), fuel).Some?
    ensures var f := RegionFit(scene, region); var ps := GreedyOutcome(f, fuel).value.positions;
      forall j :: 0 <= j < |ps| ==>
        && |ps[j]| == |region.bbox.lo|
        && ToGlobal(ps[j], scene.Voxel(), region.bbox.lo) == Offset(region.bbox.lo, Unravel(PeakIndex(f, j), region.bbox.Sides()))
        && region.bbox.Contains(ToGlobal(ps[j], scene.Voxel(), region.bbox.lo))
  {
    var f := RegionFit(scene, region);
    var ps := GreedyOutcome(f, fuel).value.positions;
    KeptPositions(f, fuel);
    forall j | 0 <= j < |ps|
      ensures |ps[j]| == |region.bbox.lo|
      ensures ToGlobal(ps[j], scene.Voxel(), region.bbox.lo) == Offset(region.bbox.lo, Unravel(PeakIndex(f, j), region.bbox.Sides()))
      ensures region.bbox.Contains(ToGlobal(ps[j], scene.Voxel(), region.bbox.lo))
    {
      assert ps[j] == GridPoint(region.bbox.Sides(), scene.Voxel(), PeakIndex(f, j));
      GridPointRoundTrip(region.bbox, scene.Voxel(), PeakIndex(f, j));
    }
  }

  /** Pixel coordinates of the kept positions, each followed by the region
      index: the rows of `spots_in_region`. */
  function TagSpots(positions: seq<seq<real>>, voxel: seq<real>, lo: seq<int>, index: nat): (spots: seq<seq<int>>)
    requires |voxel| == |lo| && forall a :: 0 <= a < |voxel| ==> voxel[a] != 0.0
    requires forall j :: 0 <= j < |positions| ==> |positions[j]| == |lo|
    ensures |spots| == |positions|
    ensures forall j :: 0 <= j < |spots| ==>
      |spots[j]| == |lo| + 1 && spots[j][..|lo|] == ToGlobal(positions[j], voxel, lo) && spots[j][|lo|] == index
  {
    seq(|positions|, j requires 0 <= j < |positions| => ToGlobal(positions[j], voxel, lo) + [index as int])
  }

  /** The spots of one region, each ending with the region's index, and its
      summary row. */
  datatype Decomposed = Decomposed(spots: seq<seq<int>>, record: RegionRecord)

  /** The outcome of one region fitted by `f` that kept `kept` positions:
      one spot row per kept position, so at least one; row j holds the pixel
      at which the residual peaked on placement j, which is in the region's
      box, followed by the region index; the summary row is the first spot,
      the count, the area, the truncated mean intensity and the index. */
  predicate SpotsAtPeaks(d: Decomposed, region: Component, index: nat, rank: nat, f: Fit, kept: nat)
    requires region.bbox.Proper() && |region.bbox.lo| == rank && f.Valid()
  {
    && |d.spots| == kept && kept >= 1
    && (forall j :: 0 <= j < |d.spots| ==>
         && |d.spots[j]| == rank + 1
         && d.spots[j][rank] == index
         && d.spots[j][..rank] == Offset(region.bbox.lo, Unravel(PeakIndex(f, j), region.bbox.Sides()))
         && region.bbox.Contains(d.spots[j][..rank]))
    && d.record == RegionRecord(d.spots[0][..rank], |d.spots|, region.area, TruncToInt(region.meanIntensity), index)
  }

  /** The spots and the summary row of a region whose fit `f` kept
      `positions`, the j-th of which is the physical position of the pixel
      where the residual peaked on placement j. */
  function TagRegion(scene: Scene, region: Component, index: nat, positions: seq<seq<real>>, f: Fit): (d: Decomposed)
    requires scene.Ready() && region.bbox.FitsIn(scene.image.shape) && f.Valid() && |positions| >= 1
    requires forall j :: 0 <= j < |positions| ==>
      && |positions[j]| == |region.bbox.lo|
      && ToGlobal(positions[j], scene.Voxel(), region.bbox.lo) == Offset(region.bbox.lo, Unravel(PeakIndex(f, j), region.bbox.Sides()))
      && region.bbox.Contains(ToGlobal(positions[j], scene.Voxel(), region.bbox.lo))
    ensures SpotsAtPeaks(d, region, index, scene.image.Rank(), f, |positions|)
  {
    var rank := scene.image.Rank();
    var spots := TagSpots(positions, scene.Voxel(), region.bbox.lo, index);
    Decomposed(spots, RegionRecord(spots[0][..rank], |spots|, region.area, TruncToInt(region.meanIntensity), index))
  }

  /** `d` is what the fit of `region` in `scene` yields under `index`: the
      fit stops within the fuel, and `d` has one spot row per position the
      fit keeps, each at the residual's peak on its placement. */
  predicate DecomposedByFit(d: Decomposed, scene: Scene, region: Component, index: nat, fuel: nat)
    requires scene.Ready() && region.bbox.FitsIn(scene.image.shape)
  {
    var f := RegionFit(scene, region);
    && GreedyOutcome(f, fuel).Some?
    && SpotsAtPeaks(d, region, index, scene.image.Rank(), f, |GreedyOutcome(f, fuel).value.positions|)
  }

  /** One iteration of the per-region loop. */
  function DecomposeRegion(scene: Scene, region: Component, index: nat, fuel: nat): (r: Result<Decomposed>)
    requires scene.Ready() && region.bbox.FitsIn(scene.image.shape)
    ensures r.Err? <==> GreedyOutcome(RegionFit(scene, region), fuel).None? || !scene.image.dtype.IsInteger()
    ensures r.Err? ==> r.error in {OutOfFuel, NonIntegerDtype}
    ensures r.Ok? ==> DecomposedByFit(r.value, scene, region, index, fuel)
  {
    var f := RegionFit(scene, region);
    match GaussianMixture(f, scene.image.dtype, fuel)
    case Err(e) => Err(e)
    case Ok(m) =>
      PositionsAtPeaks(scene, region, fuel);
      Ok(TagRegion(scene, region, index, m.positions, f))
  }

  /** The fit of every region, each with its index. */
  function Attempts(scene: Scene, regions: seq<Component>, fuel: nat): (rs: seq<Result<Decomposed>>)
    requires scene.Ready() && ComponentsFit(regions, scene.image.shape)
    ensures |rs| == |regions|
    ensures forall i :: 0 <= i < |regions| ==> rs[i] == DecomposeRegion(scene, regions[i], i, fuel)
  {
    seq(|regions|, i requires 0 <= i < |regions| => DecomposeRegion(scene, regions[i], i, fuel))
  }

  /** The spot rows of every region, region by region. */
  function SpotsOf(ds: seq<Decomposed>): (ss: seq<seq<seq<int>>>)
    ensures |ss| == |ds| && forall i :: 0 <= i < |ds| ==> ss[i] == ds[i].spots
  {
    seq(|ds|, i requires 0 <= i < |ds| => ds[i].spots)
  }

  function RecordsOf(ds: seq<Decomposed>): (rs: seq<RegionRecord>)
    ensures |rs| == |ds| && forall i :: 0 <= i < |ds| ==> rs[i] == ds[i].record
  {
    seq(|ds|, i requires 0 <= i < |ds| => ds[i].record)
  }

  /** The spot counts of the summary rows, added up. */
  function TotalCount(records: seq<RegionRecord>): nat
  {
    if |records| == 0 then 0 else TotalCount(records[..|records|-1]) + records[|records|-1].count
  }

  /** The concatenated spots are as many as the summary rows count. */
  lemma {:induction false} SpotCountMatchesRecords(ds: seq<Decomposed>)
    requires forall i :: 0 <= i < |ds| ==> ds[i].record.count == |ds[i].spots|
    ensures |Concat(SpotsOf(ds))| == TotalCount(RecordsOf(ds))
    decreases |ds|
  {
    if |ds| > 0 {
      var init := ds[..|ds|-1];
      SpotCountMatchesRecords(init);
      assert SpotsOf(ds)[..|ds|-1] == SpotsOf(init);
      assert RecordsOf(ds)[..|ds|-1] == RecordsOf(init);
    }
  }

  /** What the fit of one region guarantees: a summary row for region
      `index` counting its spots, and spot rows inside its box that end with
      `index`. */
  predicate RegionDecomposed(d: Decomposed, region: Component, index: nat, rank: nat)
  {
    && d.record.index == index
    && d.record.count == |d.spots| >= 1
    && d.record.area == region.area
    && forall j :: 0 <= j < |d.spots| ==>
         && |d.spots[j]| == rank + 1
         && d.spots[j][rank] == index
         && region.bbox.Contains(d.spots[j][..rank])
  }

  lemma RegionFacts(scene: Scene, region: Component, index: nat, fuel: nat)
    requires scene.Ready() && region.bbox.FitsIn(scene.image.shape)
    requires DecomposeRegion(scene, region, index, fuel).Ok?
    ensures RegionDecomposed(DecomposeRegion(scene, region, index, fuel).value, region, index, scene.image.Rank())
  {
  }

  predicate RegionsDecomposed(ds: seq<Decomposed>, regions: seq<Component>, rank: nat)
  {
    |ds| == |regions| && forall i :: 0 <= i < |ds| ==> RegionDecomposed(ds[i], regions[i], i, rank)
  }

  /** Every region the loop collected is the decomposition of that region
      under its own index. */
  lemma LoopDecomposes(scene: Scene, regions: seq<Component>, fuel: nat, ds: seq<Decomposed>)
    requires scene.Ready() && ComponentsFit(regions, scene.image.shape)
    requires Collect(Attempts(scene, regions, fuel)) == Ok(ds)
    ensures RegionsDecomposed(ds, regions, scene.image.Rank())
    ensures forall i :: 0 <= i < |ds| ==> DecomposedByFit(ds[i], scene, regions[i], i, fuel)
  {
    var rs := Attempts(scene, regions, fuel);
    forall i | 0 <= i < |ds|
      ensures RegionDecomposed(ds[i], regions[i], i, scene.image.Rank())
      ensures DecomposedByFit(ds[i], scene, regions[i], i, fuel)
    {
      assert rs[i] == Ok(ds[i]);
      RegionFacts(scene, regions[i], i, fuel);
    }
  }

  /** The region loop succeeds exactly when the image has an integer pixel
      type and the fit of every region stops within the fuel. */
  lemma LoopSucceeds(scene: Scene, regions: seq<Component>, fuel: nat)
    requires scene.Ready() && ComponentsFit(regions, scene.image.shape)
    ensures |regions| > 0 ==> (Collect(Attempts(scene, regions, fuel)).Ok? <==>
      scene.image.dtype.IsInteger() &&
      forall i :: 0 <= i < |regions| ==> GreedyOutcome(RegionFit(scene, regions[i]), fuel).Some?)
  {
    if |regions| > 0 {
      var rs := Attempts(scene, regions, fuel);
      if Collect(rs).Ok? {
        assert rs[0].Ok?;
        forall i | 0 <= i < |regions|
          ensures GreedyOutcome(RegionFit(scene, regions[i]), fuel).Some?
        {
          assert rs[i].Ok?;
        }
      } else {
        var i :| 0 <= i < |rs| && rs[i].Err?;
        assert rs[i] == DecomposeRegion(scene, regions[i], i, fuel);
      }
    }
  }

  /** The two int64 arrays `simulate_gaussian_mixture` returns. */
  datatype Simulated = Simulated(spots: seq<seq<int>>, regions: seq<RegionRecord>)
  {
    /** One summary row per region, in order, each counting at least one
        spot; as many spots as the rows count, each naming in its last column
        a region whose box holds its coordinates. */
    predicate Describes(regions': seq<Component>, rank: nat)
    {
      && |regions| == |regions'|
      && |spots| == TotalCount(regions)
      && (forall i :: 0 <= i < |regions| ==>
            regions[i].index == i && regions[i].count >= 1 && regions[i].area == regions'[i].area)
      && forall s :: s in spots ==>
           |s| == rank + 1 && 0 <= s[rank] < |regions'| && regions'[s[rank]].bbox.Contains(s[..rank])
    }
  }

  /** The scene `simulate_gaussian_mixture` fits its regions in: a 2-d
      image drops the z geometry and sigma_z. */
  function SceneOf(image: Image, optics: Optics, psf: Psf, maxGrid: nat, col: Collaborators): (scene: Scene)
    ensures scene.image == image && scene.optics == Normalize(optics, image.Rank())
  {
    Scene(image, Normalize(optics, image.Rank()), if image.Rank() == 2 then psf.(sigmaZ := None) else psf, maxGrid, col)
  }

  /** The checks `simulate_gaussian_mixture` makes before its loop pass. */
  predicate Checked(image: Image, optics: Optics, psf: Psf)
  {
    && image.Rank() in {2, 3} && psf.background >= 0.0
    && (image.Rank() == 3 ==> optics.voxelZ.Some? && psf.sigmaZ.Some?)
  }

  /** The two arrays are the concatenation, in region order, of per-region
      decompositions `ds`: region i's spot rows form the i-th block, in
      placement order, each the pixel at which the residual of region i's
      fit peaked on that placement followed by i; its summary row is the
      i-th row, holding its first spot as centroid and its spot count, which
      is the number of positions region i's fit keeps. */
  ghost predicate Concatenates(sim: Simulated, scene: Scene, regions: seq<Component>, fuel: nat)
    requires scene.Ready() && ComponentsFit(regions, scene.image.shape)
  {
    exists ds: seq<Decomposed> ::
      && |ds| == |regions|
      && sim.spots == Concat(SpotsOf(ds)) && sim.regions == RecordsOf(ds)
      && forall i :: 0 <= i < |ds| ==> DecomposedByFit(ds[i], scene, regions[i], i, fuel)
  }

  /** Concatenating the decomposed regions describes them. */
  lemma Assembled(ds: seq<Decomposed>, regions: seq<Component>, rank: nat)
    requires RegionsDecomposed(ds, regions, rank)
    ensures Simulated(Concat(SpotsOf(ds)), RecordsOf(ds)).Describes(regions, rank)
  {
    SpotCountMatchesRecords(ds);
    forall s | s in Concat(SpotsOf(ds))
      ensures |s| == rank + 1 && 0 <= s[rank] < |regions| && regions[s[rank]].bbox.Contains(s[..rank])
    {
      ConcatMembership(SpotsOf(ds), s);
      var i :| 0 <= i < |ds| && s in ds[i].spots;
      var j :| 0 <= j < |ds[i].spots| && ds[i].spots[j] == s;
      assert RegionDecomposed(ds[i], regions[i], i, rank);
    }
    forall i | 0 <= i < |ds|
      ensures RecordsOf(ds)[i].index == i && RecordsOf(ds)[i].count >= 1 && RecordsOf(ds)[i].area == regions[i].area
    {
      assert RegionDecomposed(ds[i], regions[i], i, rank);
    }
  }

  /** What the loop collected, concatenated, describes the regions and is
      their concatenation. */
  lemma Collected(scene: Scene, regions: seq<Component>, fuel: nat, ds: seq<Decomposed>)
    requires scene.Ready() && ComponentsFit(regions, scene.image.shape)
    requires Collect(Attempts(scene, regions, fuel)) == Ok(ds)
    ensures Simulated(Concat(SpotsOf(ds)), RecordsOf(ds)).Describes(regions, scene.image.Rank())
    ensures Concatenates(Simulated(Concat(SpotsOf(ds)), RecordsOf(ds)), scene, regions, fuel)
  {
    LoopDecomposes(scene, regions, fuel, ds);
    Assembled(ds, regions, scene.image.Rank());
  }

  /** The region loop and the concatenation of its spots, in a scene that
      passed the checks. */
  function DecomposeAll(scene: Scene, regions: seq<Component>, fuel: nat): (r: Result<Simulated>)
    requires scene.Ready() && ComponentsFit(regions, scene.image.shape)
    ensures r.Err? && r.error == NothingToConcatenate <==> |regions| == 0
    ensures r.Err? ==> r.error in {OutOfFuel, NonIntegerDtype, NothingToConcatenate}
    ensures |regions| > 0 ==> (r.Ok? <==> (scene.image.dtype.IsInteger() &&
      forall i :: 0 <= i < |regions| ==> GreedyOutcome(RegionFit(scene, regions[i]), fuel).Some?))
    ensures r.Ok? ==> r.value.Describes(regions, scene.image.Rank())
    ensures r.Ok? ==> Concatenates(r.value, scene, regions, fuel)
  {
    LoopSucceeds(scene, regions, fuel);
    match Collect(Attempts(scene, regions, fuel))
    case Err(e) => Err(e)
    case Ok(ds) =>
      if |ds| == 0 then Err(NothingToConcatenate)
      else
        Collected(scene, regions, fuel, ds);
        Ok(Simulated(Concat(SpotsOf(ds)), RecordsOf(ds)))
  }

  /** `simulate_gaussian_mixture`: its own argument checks, then the region
      loop and the concatenation of the per-region spots, which fails on an
      empty region list. */
  function SimulateGaussianMixture(image: Image, regions: seq<Component>, optics: Optics, psf: Psf, maxGrid: nat,
                                   col: Collaborators, fuel: nat): (r: Result<Simulated>)
    requires image.WellFormed() && Normalize(optics, image.Rank()).NonZeroVoxels() && ComponentsFit(regions, image.shape)
    ensures !(image.Rank() in {2, 3}) ==> r == Err(UnsupportedRank)
    ensures image.Rank() in {2, 3} && psf.background < 0.0 ==> r == Err(NegativeBackground)
    ensures image.Rank() == 3 && psf.background >= 0.0 && optics.voxelZ.None? ==> r == Err(MissingVoxelSizeZ)
    ensures image.Rank() == 3 && psf.background >= 0.0 && optics.voxelZ.Some? && psf.sigmaZ.None? ==> r == Err(MissingSigmaZ)
    ensures r.Err? && r.error == NothingToConcatenate <==> Checked(image, optics, psf) && |regions| == 0
    ensures r.Ok? ==> Checked(image, optics, psf) && |regions| > 0
    ensures Checked(image, optics, psf) && |regions| > 0 ==>
      (r.Ok? <==> (image.dtype.IsInteger() &&
        forall i :: 0 <= i < |regions| ==> GreedyOutcome(RegionFit(SceneOf(image, optics, psf, maxGrid, col), regions[i]), fuel).Some?))
    ensures r.Ok? ==> r.value.Describes(regions, image.Rank())
    ensures r.Ok? ==> Concatenates(r.value, SceneOf(image, optics, psf, maxGrid, col), regions, fuel)
    ensures r.Err? && Checked(image, optics, psf) && |regions| > 0 ==> r.error in {OutOfFuel, NonIntegerDtype}
  {
    var rank := image.Rank();
    if !(rank in {2, 3}) then Err(UnsupportedRank)
    else if psf.background < 0.0 then Err(NegativeBackground)
    else if rank == 3 && optics.voxelZ.None? then Err(MissingVoxelSizeZ)
    else if rank == 3 && psf.sigmaZ.None? then Err(MissingSigmaZ)
    else DecomposeAll(SceneOf(image, optics, psf, maxGrid, col), regions, fuel)
  }
}
