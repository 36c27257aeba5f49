/** Failure-carrying results, the pixel types an image may have, and the
    float-to-integer truncation Python's `int()` and numpy's `astype(np.int64)`
    perform. */
module Common {

  datatype Option<+T> = None | Some(value: T)

  /** Every way a call into the decomposition can fail. Each constructor names
      one `raise` (or one library call that raises) in the source. */
  datatype Error =
    | UnsupportedRank        // the image is neither 2-d nor 3-d
    | AlphaOutOfRange        // alpha outside [0, 1]
    | NegativeBeta
    | NegativeGamma
    | MissingVoxelSizeZ      // 3-d image without voxel_size_z
    | MissingPsfZ            // 3-d image without psf_z
    | MissingSigmaZ          // 3-d image without sigma_z
    | SpotRankMismatch       // spot columns differ from the image rank
    | NegativeBackground     // fitted background below zero
    | NonIntegerDtype        // np.iinfo rejects a float image when clipping
    | NothingToConcatenate   // np.concatenate over no region at all
    | OutOfFuel              // the greedy fit had not stopped within the fuel bound
  {
    /** The invalid-argument failures raised before any computation starts. */
    predicate IsArgumentError() {
      || this == UnsupportedRank || this == AlphaOutOfRange || this == NegativeBeta
      || this == NegativeGamma || this == MissingVoxelSizeZ || this == MissingPsfZ
      || this == SpotRankMismatch
    }
  }

  datatype Result<+T> = Ok(value: T) | Err(error: Error)

  /** Runs a sequence of steps in order: all their values when every step
      succeeds, otherwise the error of the first step that failed. */
  function Collect<T>(rs: seq<Result<T>>): (r: Result<seq<T>>)
    ensures r.Ok? <==> forall i :: 0 <= i < |rs| ==> rs[i].Ok?
    ensures r.Ok? ==> |r.value| == |rs| && forall i :: 0 <= i < |rs| ==> rs[i] == Ok(r.value[i])
    ensures r.Err? ==> exists i :: 0 <= i < |rs| && rs[i] == Err(r.error) && forall j :: 0 <= j < i ==> rs[j].Ok?
  {
    if |rs| == 0 then Ok([])
    else
      var init := rs[..|rs|-1];
      assert forall i :: 0 <= i < |init| ==> init[i] == rs[i];
      match Collect(init)
      case Err(e) => Err(e)
      case Ok(vs) =>
        match rs[|rs|-1]
        case Err(e) => Err(e)
        case Ok(v) =>
          var all := vs + [v];
          assert forall i :: 0 <= i < |init| ==> all[i] == vs[i];
          Ok(all)
  }

  /** The element types an input image may have. */
  datatype DType = UInt8 | UInt16 | Float32 | Float64
  {
    predicate IsInteger() { this == UInt8 || this == UInt16 }

    /** np.iinfo(dtype).max, defined for the integer types only. */
    function MaxValue(): (m: nat)
      requires IsInteger()
      ensures m == 255 || m == 65535
    {
      if this == UInt8 then 255 else 65535
    }
  }

  /** Conversion of a float to an integer, rounding toward zero. */
  function TruncToInt(x: real): (n: int)
    ensures 0.0 <= x ==> 0 <= n && n as real <= x < n as real + 1.0
    ensures x < 0.0 ==> n <= 0 && n as real - 1.0 < x <= n as real
  {
    if x >= 0.0 then x.Floor else -((-x).Floor)
  }

  /** Truncation leaves integral values unchanged. */
  lemma TruncOfInteger(n: int)
    ensures TruncToInt(n as real) == n
  {
  }

  /** Truncation never reverses the order of two values. */
  lemma TruncMonotone(x: real, y: real)
    requires x <= y
    ensures TruncToInt(x) <= TruncToInt(y)
  {
  }
}
