/** The entities the decomposition passes around, the external collaborators
    it calls (as function-valued parameters), and the argument checks shared by
    `decompose_dense` and `get_dense_region`. */
module Model {
  import opened Common
  import opened Geometry

  /** An image of rank 2 (y, x) or 3 (z, y, x), its pixels flattened row-major. */
  datatype Image = Image(dtype: DType, shape: seq<nat>, pixels: seq<real>)
  {
    predicate WellFormed() { |pixels| == Product(shape) }
    function Rank(): nat { |shape| }
  }

  /** An int64 array of shape (rows, columns): one spot coordinate per row. */
  datatype SpotArray = SpotArray(columns: nat, rows: seq<seq<int>>)
  {
    predicate WellFormed() { forall i :: 0 <= i < |rows| ==> |rows[i]| == columns }
    /** numpy's `size`: the number of entries. */
    function Size(): nat { |rows| * columns }
  }

  /** With at least one column, an array is empty exactly when it has no rows. */
  lemma EmptyIffNoRows(spots: SpotArray)
    requires spots.columns > 0
    ensures spots.Size() == 0 <==> |spots.rows| == 0
  {
    if |spots.rows| > 0 {
      assert spots.Size() >= spots.columns;
    }
  }

  /** Voxel and PSF geometry in nanometers; the z values are absent for 2-d images. */
  datatype Optics = Optics(voxelZ: Option<real>, voxelYx: real, psfZ: Option<real>, psfYx: real)
  {
    predicate NonZeroVoxels() { voxelYx != 0.0 && (voxelZ.Some? ==> voxelZ.value != 0.0) }
  }

  /** A connected component as regionprops describes it. */
  datatype Component = Component(bbox: Box, area: nat, meanIntensity: real)

  /** Gaussian parameters fitted on the reference spot. */
  datatype Psf = Psf(sigmaZ: Option<real>, sigmaYx: real, amplitude: real, background: real)

  /** One row of the dense-region table: centroid, spot count, area, mean
      intensity and region index, all cast to int64. */
  datatype RegionRecord = RegionRecord(centroid: seq<int>, count: nat, area: nat, meanIntensity: int, index: nat)

  /** A reference spot: its shape and its values, flattened row-major. */
  datatype Patch = Patch(shape: seq<nat>, values: seq<real>)

  /** The calls the core makes into code outside this model.
      - getSigma: stack.get_sigma, PSF size over voxel size per axis
      - removeBackground: stack.remove_background_gaussian(pixels, sigma)
      - buildReferenceSpot: build_reference_spot(pixels, spots, optics, alpha),
        the median spot as a patch whose shape the PSF and voxel sizes decide
      - modelizeSpot: modelize_spot(reference, optics), returning
        (sigma_z, sigma_yx, amplitude, background); sigma_z is unused in 2-d
      - labelRegions: regionprops(label(mask), intensity_image=pixels)
      - gaussian: _gaussian_2d / _gaussian_3d evaluated with the precompute_erf
        table of the given size, at one grid point, for one centre and one
        additive background */
  datatype Collaborators = Collaborators(
    getSigma: Optics -> seq<real>,
    removeBackground: (seq<real>, seq<real>) -> seq<real>,
    buildReferenceSpot: (seq<real>, seq<seq<int>>, Optics, real) -> Patch,
    modelizeSpot: (seq<real>, Optics) -> (real, real, real, real),
    labelRegions: (seq<real>, seq<bool>) -> seq<Component>,
    gaussian: (Optics, Psf, nat, seq<real>, seq<real>, real) -> real)

  /** 5 ** rank, the number of values of the all-zero reference spot
      returned when there is no spot. */
  function ReferenceSize(rank: nat): (n: nat)
    ensures n > 0
  {
    if rank == 0 then 1 else 5 * ReferenceSize(rank - 1)
  }

  /** The shape (5,) * rank of that all-zero reference spot. */
  function ReferenceShape(rank: nat): (s: seq<nat>)
    ensures |s| == rank && forall a :: 0 <= a < rank ==> s[a] == 5
  {
    seq(rank, _ => 5)
  }

  /** Every regionprops box is a proper box inside the image. */
  predicate ComponentsFit(comps: seq<Component>, shape: seq<nat>)
  {
    forall i :: 0 <= i < |comps| ==> comps[i].bbox.FitsIn(shape)
  }

  /** The collaborators keep the contracts the core relies on for an image of
      the given shape: background removal keeps the pixel count, a reference
      spot has at least one pixel, and labelled boxes lie inside the image. */
  ghost predicate Valid(col: Collaborators, shape: seq<nat>)
  {
    && (forall px, s :: |col.removeBackground(px, s)| == |px|)
    && (forall px, sp, o, alpha :: |col.buildReferenceSpot(px, sp, o, alpha).values| > 0)
    && (forall px, m :: ComponentsFit(col.labelRegions(px, m), shape))
  }

  /** The rank and z-geometry checks, in source order; None when they pass. */
  function GeometryError(rank: nat, optics: Optics, spotColumns: nat): (e: Option<Error>)
    ensures e.None? <==>
      (rank == 3 ==> optics.voxelZ.Some? && optics.psfZ.Some?) && rank == spotColumns
    ensures rank == 3 && optics.voxelZ.None? ==> e == Some(MissingVoxelSizeZ)
    ensures rank == 3 && optics.voxelZ.Some? && optics.psfZ.None? ==> e == Some(MissingPsfZ)
    ensures (rank == 3 ==> optics.voxelZ.Some? && optics.psfZ.Some?) && rank != spotColumns ==> e == Some(SpotRankMismatch)
  {
    if rank == 3 && optics.voxelZ.None? then Some(MissingVoxelSizeZ)
    else if rank == 3 && optics.psfZ.None? then Some(MissingPsfZ)
    else if rank != spotColumns then Some(SpotRankMismatch)
    else None
  }

  /** A 2-d image drops any z geometry it was given. */
  function Normalize(optics: Optics, rank: nat): (o: Optics)
    ensures rank == 2 ==> o.voxelZ.None? && o.psfZ.None?
    ensures rank != 2 ==> o == optics
    ensures o.voxelYx == optics.voxelYx && o.psfYx == optics.psfYx
  {
    if rank == 2 then optics.(voxelZ := None, psfZ := None) else optics
  }

  /** Voxel size along each axis of an image: (z, y, x) or (y, x). */
  function VoxelAxes(optics: Optics, rank: nat): (v: seq<real>)
    requires rank == 2 || (rank == 3 && optics.voxelZ.Some?)
    ensures |v| == rank
    ensures rank == 3 ==> v[0] == optics.voxelZ.value
    ensures forall a :: rank - 2 <= a < rank ==> v[a] == optics.voxelYx
  {
    if rank == 3 then [optics.voxelZ.value, optics.voxelYx, optics.voxelYx]
    else [optics.voxelYx, optics.voxelYx]
  }
}
