/** Array geometry: shapes, row-major flattening (the order of np.reshape and
    np.argmax), half-open bounding boxes as regionprops reports them, the
    extraction of a box's patch from an image and the physical grid of a
    patch. */
module Geometry {

  /** Number of samples of an array of the given shape. */
  function Product(shape: seq<nat>): nat
  {
    if |shape| == 0 then 1 else Product(shape[..|shape|-1]) * shape[|shape|-1]
  }

  predicate AllPositive(shape: seq<nat>)
  {
    forall a :: 0 <= a < |shape| ==> shape[a] > 0
  }

  /** A multi-index lies inside an array of the given shape. */
  predicate InBounds(c: seq<int>, shape: seq<nat>)
  {
    |c| == |shape| && forall a :: 0 <= a < |shape| ==> 0 <= c[a] < shape[a]
  }

  lemma ProductPositive(shape: seq<nat>)
    requires AllPositive(shape)
    ensures Product(shape) > 0
  {
    if |shape| > 0 {
      ProductPositive(shape[..|shape|-1]);
    }
  }

  lemma MulLeftMono(x: int, y: int, d: nat)
    requires x <= y
    ensures x * d <= y * d
  {
    var e := y - x;
    assert y * d == x * d + e * d;
  }

  /** k < p * d  implies  k / d < p. */
  lemma DivBelow(k: nat, p: nat, d: nat)
    requires d > 0 && k < p * d
    ensures k / d < p
  {
    if k / d >= p {
      MulLeftMono(p, k / d, d);
    }
  }

  /** (q * d + r) / d == q  and  (q * d + r) % d == r  when 0 <= r < d. */
  lemma DivModOfCombined(q: int, r: int, d: nat)
    requires 0 <= r < d
    ensures (q * d + r) / d == q && (q * d + r) % d == r
  {
    var n := q * d + r;
    var q', r' := n / d, n % d;
    assert n == q' * d + r';
    if q' < q {
      MulLeftMono(q' + 1, q, d);
    } else if q' > q {
      MulLeftMono(q + 1, q', d);
    }
  }

  /** Row-major multi-index of flat index k. */
  function Unravel(k: nat, shape: seq<nat>): (c: seq<nat>)
    requires AllPositive(shape)
    ensures |c| == |shape|
    ensures k < Product(shape) ==> InBounds(c, shape)
    decreases |shape|
  {
    if |shape| == 0 then []
    else
      var init, d := shape[..|shape|-1], shape[|shape|-1];
      if k < Product(shape) then
        DivBelow(k, Product(init), d);
        Unravel(k / d, init) + [k % d]
      else
        Unravel(k / d, init) + [k % d]
  }

  /** Row-major flat index of a multi-index. */
  function Ravel(c: seq<int>, shape: seq<nat>): (k: int)
    requires |c| == |shape|
    ensures InBounds(c, shape) ==> 0 <= k < Product(shape)
    decreases |shape|
  {
    if |shape| == 0 then 0
    else
      var init, d := shape[..|shape|-1], shape[|shape|-1];
      var front := c[..|c|-1];
      var k' := Ravel(front, init);
      if InBounds(c, shape) then
        assert InBounds(front, init);
        MulLeftMono(k', Product(init) - 1, d);
        k' * d + c[|c|-1]
      else
        k' * d + c[|c|-1]
  }

  /** Flattening a multi-index recovers the flat index it came from. */
  lemma {:induction false} RavelUnravel(k: nat, shape: seq<nat>)
    requires AllPositive(shape) && k < Product(shape)
    ensures Ravel(Unravel(k, shape), shape) == k
    decreases |shape|
  {
    if |shape| > 0 {
      var init, d := shape[..|shape|-1], shape[|shape|-1];
      DivBelow(k, Product(init), d);
      RavelUnravel(k / d, init);
      var c := Unravel(k, shape);
      assert c[..|c|-1] == Unravel(k / d, init);
    }
  }

  /** Unflattening a flat index recovers the multi-index it came from. */
  lemma {:induction false} UnravelRavel(c: seq<int>, shape: seq<nat>)
    requires InBounds(c, shape)
    ensures AllPositive(shape) && Ravel(c, shape) >= 0
    ensures Unravel(Ravel(c, shape), shape) == c
    decreases |shape|
  {
    if |shape| > 0 {
      var init, d := shape[..|shape|-1], shape[|shape|-1];
      var front := c[..|c|-1];
      assert InBounds(front, init);
      UnravelRavel(front, init);
      var k' := Ravel(front, init);
      DivModOfCombined(k', c[|c|-1], d);
      assert c == front + [c[|c|-1]];
    }
  }

  /** Pointwise a + b. */
  function Offset(a: seq<int>, b: seq<int>): (r: seq<int>)
    requires |a| == |b|
    ensures |r| == |a| && forall i :: 0 <= i < |a| ==> r[i] == a[i] + b[i]
  {
    seq(|a|, i requires 0 <= i < |a| => a[i] + b[i])
  }

  /** Pointwise a - b. */
  function Difference(a: seq<int>, b: seq<int>): (r: seq<int>)
    requires |a| == |b|
    ensures |r| == |a| && forall i :: 0 <= i < |a| ==> r[i] == a[i] - b[i]
  {
    seq(|a|, i requires 0 <= i < |a| => a[i] - b[i])
  }

  /** A half-open axis-aligned box: lo[a] <= c[a] < hi[a] on every axis a. */
  datatype Box = Box(lo: seq<int>, hi: seq<int>)
  {
    predicate Contains(c: seq<int>)
    {
      |c| == |lo| && |hi| == |lo| && forall a :: 0 <= a < |lo| ==> lo[a] <= c[a] < hi[a]
    }

    /** Non-empty on every axis. */
    predicate Proper()
    {
      |lo| == |hi| && forall a :: 0 <= a < |lo| ==> lo[a] < hi[a]
    }

    /** A proper box inside an array of the given shape. */
    predicate FitsIn(shape: seq<nat>)
    {
      |lo| == |shape| && |hi| == |shape| && forall a :: 0 <= a < |shape| ==> 0 <= lo[a] < hi[a] <= shape[a]
    }

    /** Extent along axis a. */
    function Side(a: nat): int
      requires a < |lo| && a < |hi|
    {
      hi[a] - lo[a]
    }

    /** Shape of the patch the box cuts out. */
    function Sides(): (s: seq<nat>)
      requires Proper()
      ensures |s| == |lo| && AllPositive(s)
      ensures forall a :: 0 <= a < |s| ==> s[a] == Side(a)
    {
      seq(|lo|, a requires 0 <= a < |lo| => hi[a] - lo[a])
    }
  }

  /** A coordinate is in a box exactly when its box-local offset is a valid
      index of the box's patch. */
  lemma ContainsIffLocalInBounds(box: Box, c: seq<int>)
    requires box.Proper() && |c| == |box.lo|
    ensures box.Contains(c) <==> InBounds(Difference(c, box.lo), box.Sides())
  {
    var local, sides := Difference(c, box.lo), box.Sides();
    assert forall a :: 0 <= a < |c| ==> local[a] == c[a] - box.lo[a] && sides[a] == box.hi[a] - box.lo[a];
  }

  /** Pixels of an image (flattened row-major) read at a multi-index. */
  function PixelAt(pixels: seq<real>, shape: seq<nat>, c: seq<int>): real
    requires |pixels| == Product(shape) && InBounds(c, shape)
  {
    pixels[Ravel(c, shape)]
  }

  /** `image[lo0:hi0, lo1:hi1, ...]` flattened row-major. */
  function Extract(pixels: seq<real>, shape: seq<nat>, box: Box): (patch: seq<real>)
    requires |pixels| == Product(shape) && box.FitsIn(shape)
    ensures |patch| == Product(box.Sides())
  {
    var sides := box.Sides();
    seq(Product(sides), k requires 0 <= k < Product(sides) =>
      var c := Offset(box.lo, Unravel(k, sides));
      assert InBounds(c, shape);
      PixelAt(pixels, shape, c))
  }

  /** Entry k of a patch is the image pixel at the box's lower corner offset
      by the multi-index of k. */
  lemma ExtractAt(pixels: seq<real>, shape: seq<nat>, box: Box, k: nat)
    requires |pixels| == Product(shape) && box.FitsIn(shape) && k < Product(box.Sides())
    ensures InBounds(Offset(box.lo, Unravel(k, box.Sides())), shape)
    ensures Extract(pixels, shape, box)[k] == PixelAt(pixels, shape, Offset(box.lo, Unravel(k, box.Sides())))
  {
    var sides := box.Sides();
    var c := Offset(box.lo, Unravel(k, sides));
    assert InBounds(c, shape);
  }

  /** The patch holds, at the local index of every coordinate of the box, the
      image pixel at that coordinate. */
  lemma ExtractReadsImage(pixels: seq<real>, shape: seq<nat>, box: Box, c: seq<int>)
    requires |pixels| == Product(shape) && box.FitsIn(shape) && box.Contains(c)
    ensures InBounds(c, shape) && InBounds(Difference(c, box.lo), box.Sides())
    ensures Extract(pixels, shape, box)[Ravel(Difference(c, box.lo), box.Sides())] == PixelAt(pixels, shape, c)
  {
    var local, sides := Difference(c, box.lo), box.Sides();
    ContainsIffLocalInBounds(box, c);
    UnravelRavel(local, sides);
    var k := Ravel(local, sides);
    assert Unravel(k, sides) == local;
    assert Offset(box.lo, local) == c by {
      assert forall a :: 0 <= a < |c| ==> Offset(box.lo, local)[a] == c[a];
    }
    ExtractAt(pixels, shape, box, k);
  }

  /** Pointwise pixel index times voxel size. */
  function ScaleByVoxel(c: seq<int>, voxel: seq<real>): (p: seq<real>)
    requires |voxel| == |c|
    ensures |p| == |c| && forall a :: 0 <= a < |c| ==> p[a] == c[a] as real * voxel[a]
  {
    seq(|c|, a requires 0 <= a < |c| => c[a] as real * voxel[a])
  }

  /** Physical position of flat index k of a patch: pixel index times voxel
      size on every axis. */
  function GridPoint(shape: seq<nat>, voxel: seq<real>, k: nat): (p: seq<real>)
    requires AllPositive(shape) && |voxel| == |shape|
    ensures |p| == |shape|
    ensures forall a :: 0 <= a < |shape| ==> p[a] == Unravel(k, shape)[a] as real * voxel[a]
  {
    ScaleByVoxel(Unravel(k, shape), voxel)
  }

  /** The grid of a patch: one physical position per pixel, in flat order. */
  function Grid(shape: seq<nat>, voxel: seq<real>): (g: seq<seq<real>>)
    requires AllPositive(shape) && |voxel| == |shape|
    ensures |g| == Product(shape)
    ensures forall k :: 0 <= k < |g| ==> g[k] == GridPoint(shape, voxel, k)
  {
    seq(Product(shape), k requires 0 <= k < Product(shape) => GridPoint(shape, voxel, k))
  }
}
