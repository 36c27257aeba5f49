/** Detection of dense and bright regions: the intensity threshold, the
    candidate mask, the size filter on connected components and the split of
    the spots into those inside and outside the kept bounding boxes
    (`get_dense_region`, `_get_connected_region`, `_filter_connected_region`,
    `_filter_spot_out_candidate_regions`). */
module DenseRegions {
  import opened Common
  import opened Seqs
  import opened Geometry
  import opened Model

  /** `int(max(median_spot) * beta)`: the product truncated toward zero. */
  function Threshold(peak: real, beta: real): (t: int)
    ensures peak * beta >= 0.0 ==> 0 <= t && t as real <= peak * beta < t as real + 1.0
    ensures peak * beta < 0.0 ==> t <= 0 && t as real - 1.0 < peak * beta <= t as real
  {
    TruncToInt(peak * beta)
  }

  /** `image > threshold`, flattened. */
  function Mask(pixels: seq<real>, threshold: int): (m: seq<bool>)
    ensures |m| == |pixels|
    ensures forall k :: 0 <= k < |pixels| ==> (m[k] <==> pixels[k] > threshold as real)
  {
    seq(|pixels|, k requires 0 <= k < |pixels| => pixels[k] > threshold as real)
  }

  /** A pixel is in the mask exactly when it is strictly brighter than the
      threshold; a higher threshold keeps a subset of the pixels, and so
      never more of them. */
  lemma {:induction false} HigherThresholdShrinksMask(pixels: seq<real>, t1: int, t2: int)
    requires t1 <= t2
    ensures forall k :: 0 <= k < |pixels| ==> (Mask(pixels, t1)[k] <==> pixels[k] > t1 as real)
    ensures forall k :: 0 <= k < |pixels| && Mask(pixels, t2)[k] ==> Mask(pixels, t1)[k]
    ensures CountTrue(Mask(pixels, t2)) <= CountTrue(Mask(pixels, t1))
    decreases |pixels|
  {
    if |pixels| > 0 {
      var init := pixels[..|pixels|-1];
      HigherThresholdShrinksMask(init, t1, t2);
      assert Mask(pixels, t1)[..|pixels|-1] == Mask(init, t1);
      assert Mask(pixels, t2)[..|pixels|-1] == Mask(init, t2);
    }
  }

  /** For a non-negative reference peak, raising beta never lowers the
      threshold, so the mask can only lose pixels. */
  lemma RaisingBetaShrinksMask(pixels: seq<real>, peak: real, beta1: real, beta2: real)
    requires 0.0 <= peak && beta1 <= beta2
    ensures Threshold(peak, beta1) <= Threshold(peak, beta2)
    ensures forall k :: 0 <= k < |pixels| && Mask(pixels, Threshold(peak, beta2))[k] ==> Mask(pixels, Threshold(peak, beta1))[k]
    ensures CountTrue(Mask(pixels, Threshold(peak, beta2))) <= CountTrue(Mask(pixels, Threshold(peak, beta1)))
  {
    var d := beta2 - beta1;
    assert peak * d >= 0.0;
    assert peak * beta2 == peak * beta1 + peak * d;
    TruncMonotone(peak * beta1, peak * beta2);
    HigherThresholdShrinksMask(pixels, Threshold(peak, beta1), Threshold(peak, beta2));
  }

  /** Components of at least two pixels are candidates. */
  predicate IsCandidate(c: Component)
  {
    c.area >= 2
  }

  predicate SameRank(boxes: seq<Box>)
  {
    forall b :: 0 <= b < |boxes| ==> |boxes[b].lo| == |boxes[b].hi|
  }

  function Boxes(comps: seq<Component>): (boxes: seq<Box>)
    ensures |boxes| == |comps| && forall i :: 0 <= i < |comps| ==> boxes[i] == comps[i].bbox
  {
    seq(|comps|, i requires 0 <= i < |comps| => comps[i].bbox)
  }

  /** A spot lies in none of the boxes. */
  predicate OutsideAll(spot: seq<int>, boxes: seq<Box>)
  {
    forall b :: 0 <= b < |boxes| ==> !boxes[b].Contains(spot)
  }

  /** The largest extent of one box over its first `axes` axes, or 0. */
  function LargestSideOf(box: Box, axes: nat): (m: int)
    requires axes <= |box.lo| && axes <= |box.hi|
    ensures m >= 0
    ensures forall a :: 0 <= a < axes ==> box.Side(a) <= m
    ensures m == 0 || exists a :: 0 <= a < axes && box.Side(a) == m
  {
    if axes == 0 then 0
    else
      var m' := LargestSideOf(box, axes - 1);
      if box.Side(axes - 1) > m' then box.Side(axes - 1) else m'
  }

  /** `max_region_size`: the largest extent of any box on any axis, or 0. */
  function LargestSide(boxes: seq<Box>): (m: int)
    requires SameRank(boxes)
    ensures m >= 0
    ensures forall b, a :: 0 <= b < |boxes| && 0 <= a < |boxes[b].lo| ==> boxes[b].Side(a) <= m
    ensures m == 0 || exists b, a :: 0 <= b < |boxes| && 0 <= a < |boxes[b].lo| && boxes[b].Side(a) == m
  {
    if |boxes| == 0 then 0
    else
      var init, last := boxes[..|boxes|-1], boxes[|boxes|-1];
      var m' := LargestSide(init);
      var s := LargestSideOf(last, |last.lo|);
      assert forall b :: 0 <= b < |init| ==> init[b] == boxes[b];
      if s > m' then s else m'
  }

  /** `max(200, region_size + 1)`, the size of the erf lookup table. */
  function MaxGrid(size: int): (g: int)
    ensures g >= 200 && g > size
    ensures g == 200 || g == size + 1
  {
    if 200 > size + 1 then 200 else size + 1
  }

  /** The lookup table is longer than every side of every candidate box. */
  lemma LookupTableCoversRegions(boxes: seq<Box>)
    requires SameRank(boxes)
    ensures forall b, a :: 0 <= b < |boxes| && 0 <= a < |boxes[b].lo| ==> boxes[b].Side(a) < MaxGrid(LargestSide(boxes))
  {
  }

  /** `spots[mask]` with the mask "in no box": the spots outside every box,
      in input order. */
  function SpotsOutside(boxes: seq<Box>, spots: seq<seq<int>>): (r: seq<seq<int>>)
    ensures forall s :: s in r <==> s in spots && OutsideAll(s, boxes)
    ensures forall i :: 0 <= i < |spots| ==>
      multiset(r)[spots[i]] == if OutsideAll(spots[i], boxes) then multiset(spots)[spots[i]] else 0
  {
    Keep(spots, s => OutsideAll(s, boxes))
  }

  /** The spots that lie in at least one box, in input order. */
  function SpotsInside(boxes: seq<Box>, spots: seq<seq<int>>): (r: seq<seq<int>>)
    ensures forall s :: s in r <==> s in spots && !OutsideAll(s, boxes)
  {
    Keep(spots, s => !OutsideAll(s, boxes))
  }

  /** Every spot is either outside all boxes or inside one of them, so the
      two selections together are exactly as many as the spots. */
  lemma SpotsSplit(boxes: seq<Box>, spots: seq<seq<int>>)
    ensures |SpotsOutside(boxes, spots)| + |SpotsInside(boxes, spots)| == |spots|
  {
    KeepComplement(spots, s => OutsideAll(s, boxes), s => !OutsideAll(s, boxes));
  }

  /** The spots in no box, in input order, and the largest box side. */
  function FilterSpotOutCandidateRegions(boxes: seq<Box>, spots: seq<seq<int>>): (r: (seq<seq<int>>, int))
    requires SameRank(boxes)
    ensures forall s :: s in r.0 <==> s in spots && OutsideAll(s, boxes)
    ensures forall i :: 0 <= i < |spots| ==>
      multiset(r.0)[spots[i]] == if OutsideAll(spots[i], boxes) then multiset(spots)[spots[i]] else 0
    ensures r.0 == SpotsOutside(boxes, spots)
    ensures r.1 == LargestSide(boxes)
  {
    (SpotsOutside(boxes, spots), LargestSide(boxes))
  }

  /** The split keeps input order: splitting a concatenation concatenates
      the splits. */
  lemma SpotsOutKeepOrder(boxes: seq<Box>, a: seq<seq<int>>, b: seq<seq<int>>)
    requires SameRank(boxes)
    ensures FilterSpotOutCandidateRegions(boxes, a + b).0
         == FilterSpotOutCandidateRegions(boxes, a).0 + FilterSpotOutCandidateRegions(boxes, b).0
  {
    KeepAppend(a, b, s => OutsideAll(s, boxes));
  }

  /** The kept regions, the spots outside all of them and the largest side. */
  datatype Selection = Selection(regions: seq<Component>, spotsOut: seq<seq<int>>, maxSize: int)

  /** `_filter_connected_region`: the components of at least two pixels, in
      labelling order, the spots outside all of their boxes and the largest
      box side; with no component at all, the spots as given. */
  function FilterConnectedRegion(comps: seq<Component>, spots: seq<seq<int>>): (r: Selection)
    requires SameRank(Boxes(comps))
    ensures SameRank(Boxes(r.regions))
    ensures forall c :: c in r.regions <==> c in comps && c.area >= 2
    ensures forall i :: 0 <= i < |comps| ==>
      multiset(r.regions)[comps[i]] == if comps[i].area >= 2 then multiset(comps)[comps[i]] else 0
    ensures r.regions == Keep(comps, IsCandidate)
    ensures forall s :: s in r.spotsOut <==> s in spots && OutsideAll(s, Boxes(r.regions))
    ensures r.spotsOut == SpotsOutside(Boxes(r.regions), spots)
    ensures r.maxSize == LargestSide(Boxes(r.regions))
    ensures |comps| == 0 ==> r.regions == [] && r.spotsOut == spots && r.maxSize == 0
  {
    if |comps| == 0 then
      KeepAll(spots, s => OutsideAll(s, Boxes([])));
      Selection([], spots, 0)
    else
      var kept := Keep(comps, IsCandidate);
      assert SameRank(Boxes(kept)) by {
        forall b | 0 <= b < |kept| ensures |kept[b].bbox.lo| == |kept[b].bbox.hi| {
          assert kept[b] in comps;
        }
      }
      var split := FilterSpotOutCandidateRegions(Boxes(kept), spots);
      Selection(kept, split.0, split.1)
  }

  /** The kept regions stay in labelling order, which is what numbers them:
      filtering a concatenation of components concatenates the filtered
      parts. */
  lemma RegionsKeepOrder(a: seq<Component>, b: seq<Component>, spots: seq<seq<int>>)
    requires SameRank(Boxes(a + b))
    ensures FilterConnectedRegion(a + b, spots).regions
         == FilterConnectedRegion(a, spots).regions + FilterConnectedRegion(b, spots).regions
  {
    KeepAppend(a, b, IsCandidate);
  }

  /** Boxes that all fit in one image have one rank, and so does any
      component drawn from them. */
  lemma MembersFit(comps: seq<Component>, shape: seq<nat>)
    requires ComponentsFit(comps, shape)
    ensures SameRank(Boxes(comps))
    ensures forall c :: c in comps ==> c.bbox.FitsIn(shape)
  {
    forall c | c in comps
      ensures c.bbox.FitsIn(shape)
    {
      var i :| 0 <= i < |comps| && comps[i] == c;
    }
  }

  /** `_get_connected_region` and `regionprops` on the image: the components
      of the pixels strictly brighter than beta times the peak of the median
      spot. */
  function ConnectedRegions(image: Image, spots: SpotArray, optics: Optics, beta: real, col: Collaborators): (comps: seq<Component>)
    requires image.WellFormed() && Valid(col, image.shape)
    ensures ComponentsFit(comps, image.shape)
  {
    var median := col.buildReferenceSpot(image.pixels, spots.rows, Normalize(optics, image.Rank()), 0.5);
    col.labelRegions(image.pixels, Mask(image.pixels, Threshold(Max(median.values), beta)))
  }

  /** `get_dense_region`: argument checks, then threshold, mask, labelling and
      filtering. */
  function GetDenseRegion(image: Image, spots: SpotArray, optics: Optics, beta: real, col: Collaborators): (r: Result<Selection>)
    requires image.WellFormed() && Valid(col, image.shape)
    ensures r.Err? <==>
      !(image.Rank() in {2, 3}) || beta < 0.0 || GeometryError(image.Rank(), optics, spots.columns).Some?
    ensures r.Err? ==> r.error == (if !(image.Rank() in {2, 3}) then UnsupportedRank else if beta < 0.0 then NegativeBeta
      else GeometryError(image.Rank(), optics, spots.columns).value)
    ensures r.Ok? ==> r.value.regions == Keep(ConnectedRegions(image, spots, optics, beta, col), IsCandidate)
    ensures r.Ok? ==> forall c :: c in r.value.regions ==> c.area >= 2 && c.bbox.FitsIn(image.shape)
    ensures r.Ok? ==> SameRank(Boxes(r.value.regions)) && r.value.maxSize == LargestSide(Boxes(r.value.regions))
    ensures r.Ok? ==> forall s :: s in r.value.spotsOut <==> s in spots.rows && OutsideAll(s, Boxes(r.value.regions))
    ensures r.Ok? ==> r.value.spotsOut == SpotsOutside(Boxes(r.value.regions), spots.rows)
  {
    var rank := image.Rank();
    if !(rank in {2, 3}) then Err(UnsupportedRank)
    else if beta < 0.0 then Err(NegativeBeta)
    else match GeometryError(rank, optics, spots.columns)
      case Some(e) => Err(e)
      case None =>
        var comps := ConnectedRegions(image, spots, optics, beta, col);
        MembersFit(comps, image.shape);
        Ok(FilterConnectedRegion(comps, spots.rows))
  }

  /** The spots `get_dense_region` leaves out and the spots inside its
      regions partition the input: a spot is left out exactly when no kept
      box holds it, and the two parts add up to all the spots. */
  lemma DenseRegionSplitsSpots(image: Image, spots: SpotArray, optics: Optics, beta: real, col: Collaborators)
    requires image.WellFormed() && Valid(col, image.shape)
    requires image.Rank() in {2, 3} && beta >= 0.0 && GeometryError(image.Rank(), optics, spots.columns).None?
    ensures var sel := GetDenseRegion(image, spots, optics, beta, col).value;
      && |sel.spotsOut| + |SpotsInside(Boxes(sel.regions), spots.rows)| == |spots.rows|
      && forall s :: s in spots.rows && s !in sel.spotsOut ==>
           exists b :: 0 <= b < |sel.regions| && sel.regions[b].bbox.Contains(s)
  {
    var sel := GetDenseRegion(image, spots, optics, beta, col).value;
    SpotsSplit(Boxes(sel.regions), spots.rows);
  }
}
