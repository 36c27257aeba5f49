/** The greedy Gaussian-mixture fit of one candidate region
    (`_gaussian_mixture_2d` / `_gaussian_mixture_3d`, which differ only in the
    rank of the grid). Gaussians are placed one at a time at the first maximum
    of the residual; the background floor goes into the first placement only;
    the simulation is snapshotted whenever the sum of squared residuals (SSR)
    strictly drops.

    The loop is modelled as written: it continues while the SSR drops OR the
    placement count equals the limit, so it never stops at the limit and only
    ends on a non-improving placement at a count other than the limit. As the
    source gives no bound on the number of placements, the model takes a fuel
    bound and reports when it is exhausted.

    The functions below define the trace of the loop placement by placement;
    `GreedyFit` is the loop itself, proved to produce the same outcome. */
module Mixture {
  import opened Common
  import opened Seqs

  /** A Gaussian evaluated at a grid point, for a centre and an additive
      background. */
  type Kernel = (seq<real>, seq<real>, real) -> real

  /** `_gaussian_mixture_*`'s default `limit_gaussian`. */
  const LimitGaussian: nat := 1000

  /** The fixed inputs of one fit: the flattened patch, its grid of physical
      positions, the Gaussian, the initial background and the limit. */
  datatype Fit = Fit(patch: seq<real>, grid: seq<seq<real>>, kernel: Kernel, background: real, limit: nat)
  {
    predicate Valid() { |patch| > 0 && |grid| == |patch| }
  }

  /** `image_region_raw - simulation`. */
  function Residual(patch: seq<real>, sim: seq<real>): (r: seq<real>)
    requires |sim| == |patch|
    ensures |r| == |patch|
  {
    seq(|patch|, k requires 0 <= k < |patch| => patch[k] - sim[k])
  }

  /** The Gaussian centred at `mu` evaluated over the whole grid. */
  function Render(f: Fit, mu: seq<real>, background: real): (g: seq<real>)
    ensures |g| == |f.grid|
  {
    seq(|f.grid|, k requires 0 <= k < |f.grid| => f.kernel(f.grid[k], mu, background))
  }

  /** The background passed with placement j (counting from 0). */
  function PlacementBackground(f: Fit, j: nat): real
  {
    if j == 0 then f.background else 0.0
  }

  /** The variables the loop carries from one pass to the next. */
  datatype LoopState = LoopState(simulation: seq<real>, ssr: real, diffSsr: real, best: seq<real>, positions: seq<seq<real>>)

  /** The state before the first pass: nothing simulated, `diff_ssr` = -1. */
  function Initial(f: Fit): (s: LoopState)
    ensures |s.simulation| == |f.patch| && |s.best| == |f.patch| && |s.positions| == 0
  {
    var zero := Zeros(|f.patch|);
    LoopState(zero, SumSquares(Residual(f.patch, zero)), -1.0, zero, [])
  }

  /** One pass of the loop body, the j-th (counting from 0): place a Gaussian
      at the first maximum of the residual, with the background only when
      j = 0, and snapshot the simulation if the SSR dropped. */
  function Advance(f: Fit, s: LoopState, j: nat): (s': LoopState)
    requires f.Valid() && |s.simulation| == |f.patch| && |s.best| == |f.patch|
    ensures |s'.simulation| == |f.patch| && |s'.best| == |f.patch| && |s'.positions| == |s.positions| + 1
  {
    var peak := FirstArgmax(Residual(f.patch, s.simulation));
    var sim := Plus(s.simulation, Render(f, f.grid[peak], PlacementBackground(f, j)));
    var newSsr := SumSquares(Residual(f.patch, sim));
    var diff := newSsr - s.ssr;
    LoopState(sim, newSsr, diff, if diff < 0.0 then sim else s.best, s.positions + [f.grid[peak]])
  }

  /** The state after j passes. */
  function Trace(f: Fit, j: nat): (s: LoopState)
    requires f.Valid()
    ensures |s.simulation| == |f.patch| && |s.best| == |f.patch| && |s.positions| == j
  {
    if j == 0 then Initial(f) else Advance(f, Trace(f, j - 1), j - 1)
  }

  /** The simulation after j placements. */
  function Simulation(f: Fit, j: nat): (sim: seq<real>)
    requires f.Valid()
    ensures |sim| == |f.patch|
  {
    Trace(f, j).simulation
  }

  /** Where placement j goes: `np.argmax` of the residual after j placements. */
  function PeakIndex(f: Fit, j: nat): (k: nat)
    requires f.Valid()
    ensures k < |f.patch|
  {
    FirstArgmax(Residual(f.patch, Simulation(f, j)))
  }

  /** The positions of the first j placements. */
  function Centres(f: Fit, j: nat): (cs: seq<seq<real>>)
    requires f.Valid()
    ensures |cs| == j
  {
    Trace(f, j).positions
  }

  /** SSR after j placements. */
  function Ssr(f: Fit, j: nat): real
    requires f.Valid()
  {
    Trace(f, j).ssr
  }

  /** `diff_ssr` after j placements; it starts at -1. */
  function DiffSsr(f: Fit, j: nat): real
    requires f.Valid()
  {
    Trace(f, j).diffSsr
  }

  /** The loop condition after j placements. */
  predicate Continues(f: Fit, j: nat)
    requires f.Valid()
  {
    DiffSsr(f, j) < 0.0 || j == f.limit
  }

  /** `best_simulation` after j placements. */
  function BestSimulation(f: Fit, j: nat): (best: seq<real>)
    requires f.Valid()
    ensures |best| == |f.patch|
  {
    Trace(f, j).best
  }

  /** The loop condition after j placements, as a total function of j. */
  function ContinueRule(f: Fit): nat -> bool
  {
    (j: nat) => f.Valid() && Continues(f, j)
  }

  /** The first count in [j, fuel] at which `cont` fails, if any. */
  function FirstStop(cont: nat -> bool, j: nat, fuel: nat): (r: Option<nat>)
    requires j <= fuel
    ensures r.Some? ==> j <= r.value <= fuel && !cont(r.value)
    ensures r.Some? ==> forall i :: j <= i < r.value ==> cont(i)
    ensures r.None? ==> forall i :: j <= i <= fuel ==> cont(i)
    decreases fuel - j
  {
    if !cont(j) then Some(j)
    else if j == fuel then None
    else FirstStop(cont, j + 1, fuel)
  }

  /** What one fit returns: the kept positions, the best simulation (before
      clipping), the number of placements and whether the "stopped early"
      warning was raised. */
  datatype Outcome = Outcome(positions: seq<seq<real>>, best: seq<real>, nbGaussian: nat, stoppedEarly: bool)

  /** The code after the loop: drop the last placement when 1 < nb < limit,
      warn when nb == limit. */
  function Finish(f: Fit, nb: nat): (o: Outcome)
    requires f.Valid()
    ensures o.nbGaussian == nb && o.best == BestSimulation(f, nb)
    ensures o.stoppedEarly <==> nb == f.limit
    ensures |o.positions| == if 1 < nb < f.limit then nb - 1 else nb
    ensures o.positions == Centres(f, nb)[..|o.positions|]
  {
    var cs := Centres(f, nb);
    if 1 < nb < f.limit then Outcome(cs[..nb - 1], BestSimulation(f, nb), nb, false)
    else if nb == f.limit then Outcome(cs, BestSimulation(f, nb), nb, true)
    else Outcome(cs, BestSimulation(f, nb), nb, false)
  }

  /** The outcome of a fit, or None if the loop had not stopped after `fuel`
      placements. */
  function GreedyOutcome(f: Fit, fuel: nat): Option<Outcome>
    requires f.Valid()
  {
    match FirstStop(ContinueRule(f), 0, fuel)
    case None => None
    case Some(nb) => Some(Finish(f, nb))
  }

  /** A fit ends at the first placement count at which the loop condition
      fails, then drops or keeps the last placement as `Finish` says; it has
      no outcome when the condition holds all the way to the fuel. */
  lemma OutcomeAtFirstStop(f: Fit, fuel: nat)
    requires f.Valid()
    ensures var r := GreedyOutcome(f, fuel);
      && (r.Some? ==>
            && r.value.nbGaussian <= fuel && !Continues(f, r.value.nbGaussian)
            && (forall j :: 0 <= j < r.value.nbGaussian ==> Continues(f, j))
            && r.value == Finish(f, r.value.nbGaussian))
      && (r.None? ==> forall j :: 0 <= j <= fuel ==> Continues(f, j))
  {
    var r := GreedyOutcome(f, fuel);
    if r.Some? {
      forall j | 0 <= j < r.value.nbGaussian
        ensures Continues(f, j)
      {
        assert ContinueRule(f)(j);
      }
      assert !ContinueRule(f)(r.value.nbGaussian);
    } else {
      forall j | 0 <= j <= fuel
        ensures Continues(f, j)
      {
        assert ContinueRule(f)(j);
      }
    }
  }

  /** The state after j + 1 passes is one pass applied to the state after j. */
  lemma TraceStep(f: Fit, j: nat)
    requires f.Valid()
    ensures Trace(f, j + 1) == Advance(f, Trace(f, j), j)
  {
  }

  /** Passing a continuing step leaves the first stop where it was. */
  lemma FirstStopSkips(f: Fit, j: nat, fuel: nat)
    requires f.Valid() && j < fuel && Continues(f, j)
    ensures FirstStop(ContinueRule(f), j + 1, fuel) == FirstStop(ContinueRule(f), j, fuel)
  {
    assert ContinueRule(f)(j);
  }

  /** One pass of the loop body on the loop's variables. */
  method Pass(f: Fit, s: LoopState, residual: seq<real>, background: real, j: nat) returns (s': LoopState, residual': seq<real>)
    requires f.Valid() && |s.simulation| == |f.patch| && |s.best| == |f.patch|
    requires residual == Residual(f.patch, s.simulation) && background == PlacementBackground(f, j)
    ensures s' == Advance(f, s, j) && residual' == Residual(f.patch, s'.simulation)
    ensures |s'.positions| == |s.positions| + 1 && s'.positions[..|s.positions|] == s.positions
    ensures var k := FirstArgmax(residual);
      && s'.positions[|s.positions|] == f.grid[k]
      && (forall m :: 0 <= m < |residual| ==> residual[m] <= residual[k])
      && (forall m :: 0 <= m < k ==> residual[m] < residual[k])
    ensures |s'.simulation| == |f.patch| && forall k :: 0 <= k < |f.patch| ==>
      s'.simulation[k] == s.simulation[k] + f.kernel(f.grid[k], s'.positions[|s.positions|], background)
    ensures s'.ssr == SumSquares(residual') && s'.diffSsr == s'.ssr - s.ssr
    ensures s'.best == if s'.diffSsr < 0.0 then s'.simulation else s.best
  {
    var peak := FirstArgmax(residual);
    var positions := s.positions + [f.grid[peak]];
    var simulation := Plus(s.simulation, Render(f, f.grid[peak], background));
    residual' := Residual(f.patch, simulation);
    var newSsr := SumSquares(residual');
    var diffSsr := newSsr - s.ssr;
    var best := s.best;
    if diffSsr < 0.0 {
      best := simulation;
    }
    s' := LoopState(simulation, newSsr, diffSsr, best, positions);
  }

  /** The while loop of `_gaussian_mixture_2d` / `_3d`, statement by
      statement: it returns the placements made, the best simulation, the
      count and the last `diff_ssr`. */
  method PlaceGaussians(f: Fit, fuel: nat) returns (positions: seq<seq<real>>, best: seq<real>, nbGaussian: nat, diffSsr: real)
    requires f.Valid()
    ensures nbGaussian <= fuel
    ensures positions == Centres(f, nbGaussian) && best == BestSimulation(f, nbGaussian)
    ensures diffSsr == DiffSsr(f, nbGaussian)
    ensures FirstStop(ContinueRule(f), nbGaussian, fuel) == FirstStop(ContinueRule(f), 0, fuel)
    ensures Continues(f, nbGaussian) ==> nbGaussian == fuel
  {
    var state := Initial(f);
    var residual := Residual(f.patch, state.simulation);
    nbGaussian := 0;
    var background := f.background;
    while (state.diffSsr < 0.0 || nbGaussian == f.limit) && nbGaussian < fuel
      invariant nbGaussian <= fuel
      invariant state == Trace(f, nbGaussian)
      invariant residual == Residual(f.patch, state.simulation)
      invariant background == PlacementBackground(f, nbGaussian)
      invariant FirstStop(ContinueRule(f), nbGaussian, fuel) == FirstStop(ContinueRule(f), 0, fuel)
      decreases fuel - nbGaussian
    {
      FirstStopSkips(f, nbGaussian, fuel);
      TraceStep(f, nbGaussian);
      state, residual := Pass(f, state, residual, background, nbGaussian);
      assert state == Trace(f, nbGaussian + 1);
      nbGaussian := nbGaussian + 1;
      background := 0.0;
    }
    positions, best, diffSsr := state.positions, state.best, state.diffSsr;
  }

  /** `_gaussian_mixture_2d` / `_3d` up to the clip: the loop, then the
      pop-or-warn rule. */
  method GreedyFit(f: Fit, fuel: nat) returns (out: Option<Outcome>)
    requires f.Valid()
    ensures out == GreedyOutcome(f, fuel)
  {
    var positions, best, nbGaussian, diffSsr := PlaceGaussians(f, fuel);
    if diffSsr < 0.0 || nbGaussian == f.limit {
      // the loop would go on: the fuel is spent
      return None;
    }
    var stoppedEarly := false;
    if 1 < nbGaussian < f.limit {
      positions := positions[..|positions| - 1];
    } else if nbGaussian == f.limit {
      stoppedEarly := true;
    }
    out := Some(Outcome(positions, best, nbGaussian, stoppedEarly));
  }

  /** The loop ends only on a non-improving placement at a count other than
      the limit, after at least one placement; every earlier placement except
      one made at the limit strictly lowered the SSR; and the "stopped early"
      warning is never raised. */
  lemma StopRule(f: Fit, fuel: nat)
    requires f.Valid() && GreedyOutcome(f, fuel).Some?
    ensures var o := GreedyOutcome(f, fuel).value;
      && 1 <= o.nbGaussian <= fuel
      && DiffSsr(f, o.nbGaussian) >= 0.0
      && o.nbGaussian != f.limit
      && !o.stoppedEarly
      && forall j :: 1 <= j < o.nbGaussian && j != f.limit ==> Ssr(f, j) < Ssr(f, j - 1)
  {
    var o := GreedyOutcome(f, fuel).value;
    assert ContinueRule(f)(0);
    forall j | 1 <= j < o.nbGaussian && j != f.limit
      ensures Ssr(f, j) < Ssr(f, j - 1)
    {
      assert ContinueRule(f)(j);
    }
  }

  /** The placement the loop makes when it reaches the limit cannot end it:
      with enough fuel, a run whose first `limit + 1` placements continue goes
      past the limit. */
  lemma NoStopAtLimit(f: Fit, fuel: nat)
    requires f.Valid() && GreedyOutcome(f, fuel).Some?
    requires forall j :: 1 <= j < f.limit ==> DiffSsr(f, j) < 0.0
    ensures GreedyOutcome(f, fuel).value.nbGaussian > f.limit
  {
    var nb := GreedyOutcome(f, fuel).value.nbGaussian;
    StopRule(f, fuel);
  }

  /** Placement i sits at the first maximum of the residual left by the
      placements before it. */
  lemma CentresAreFirstMaxima(f: Fit, j: nat, i: nat)
    requires f.Valid() && i < j
    ensures var r := Residual(f.patch, Simulation(f, i));
      exists k :: 0 <= k < |f.patch| && Centres(f, j)[i] == f.grid[k]
        && (forall m :: 0 <= m < |r| ==> r[m] <= r[k])
        && (forall m :: 0 <= m < k ==> r[m] < r[k])
  {
    var k := PeakIndex(f, i);
    CentreIsPeak(f, j, i);
  }

  /** Pass j keeps the earlier positions and appends the grid point at the
      peak of the residual it saw. */
  lemma PositionsGrow(f: Fit, j: nat)
    requires f.Valid()
    ensures Centres(f, j + 1)[j] == f.grid[PeakIndex(f, j)]
    ensures forall i :: 0 <= i < j ==> Centres(f, j + 1)[i] == Centres(f, j)[i]
  {
    assert Trace(f, j + 1) == Advance(f, Trace(f, j), j);
  }

  lemma {:induction false} CentreIsPeak(f: Fit, j: nat, i: nat)
    requires f.Valid() && i < j
    ensures Centres(f, j)[i] == f.grid[PeakIndex(f, i)]
  {
    PositionsGrow(f, j - 1);
    if i < j - 1 {
      CentreIsPeak(f, j - 1, i);
    }
  }

  /** The returned positions: nb - 1 of them when 1 < nb < limit, nb
      otherwise, hence at least one; each is a grid point, the peak of the
      residual at its turn. Past the limit the last, non-improving placement
      is kept. */
  lemma KeptPositions(f: Fit, fuel: nat)
    requires f.Valid() && GreedyOutcome(f, fuel).Some?
    ensures var o := GreedyOutcome(f, fuel).value;
      && |o.positions| == (if 1 < o.nbGaussian < f.limit then o.nbGaussian - 1 else o.nbGaussian)
      && |o.positions| >= 1
      && (o.nbGaussian > f.limit ==> |o.positions| == o.nbGaussian)
      && forall i :: 0 <= i < |o.positions| ==> o.positions[i] == f.grid[PeakIndex(f, i)] && o.positions[i] in f.grid
  {
    var o := GreedyOutcome(f, fuel).value;
    StopRule(f, fuel);
    forall i | 0 <= i < |o.positions|
      ensures o.positions[i] == f.grid[PeakIndex(f, i)]
    {
      CentreIsPeak(f, o.nbGaussian, i);
    }
  }

  /** The best simulation is the simulation of exactly the kept positions
      when a placement was dropped; when a single Gaussian was placed and did
      not lower the SSR, the best simulation stays all zeros although that
      Gaussian is returned; past the limit plus one, the best simulation
      leaves out the last placement although all of them are returned; at
      exactly the limit plus one it is the simulation after the forced
      placement at the limit if that one lowered the SSR, and otherwise the
      simulation before it. */
  lemma BestMatchesKeptPositions(f: Fit, fuel: nat)
    requires f.Valid() && GreedyOutcome(f, fuel).Some?
    ensures var o := GreedyOutcome(f, fuel).value;
      && (1 < o.nbGaussian < f.limit ==> o.best == Simulation(f, o.nbGaussian - 1))
      && (o.nbGaussian == 1 ==> o.best == Zeros(|f.patch|) && |o.positions| == 1)
      && (o.nbGaussian > f.limit + 1 ==> o.best == Simulation(f, o.nbGaussian - 1) && |o.positions| == o.nbGaussian)
      && (f.limit >= 1 && o.nbGaussian == f.limit + 1 ==>
            (o.best == if DiffSsr(f, f.limit) < 0.0 then Simulation(f, f.limit) else Simulation(f, f.limit - 1)))
  {
    var o := GreedyOutcome(f, fuel).value;
    var nb := o.nbGaussian;
    StopRule(f, fuel);
    assert o.best == BestSimulation(f, nb);
    BestHeld(f, nb - 1);
    if 1 < nb < f.limit || nb > f.limit + 1 {
      assert ContinueRule(f)(nb - 1);
      BestTaken(f, nb - 2);
    } else if f.limit >= 1 && nb == f.limit + 1 {
      assert ContinueRule(f)(f.limit - 1);
      BestOverTwoPasses(f, f.limit - 1);
    }
  }

  /** Two passes after a pass that lowered the SSR (or after the start), the
      second of them not lowering it: the best simulation is the one after
      the first of the two if that pass lowered the SSR, and the one before
      it otherwise. */
  lemma BestOverTwoPasses(f: Fit, j: nat)
    requires f.Valid() && DiffSsr(f, j) < 0.0 && DiffSsr(f, j + 2) >= 0.0
    ensures DiffSsr(f, j + 1) < 0.0 ==> BestSimulation(f, j + 2) == Simulation(f, j + 1)
    ensures DiffSsr(f, j + 1) >= 0.0 ==> BestSimulation(f, j + 2) == Simulation(f, j)
  {
    BestHeld(f, j + 1);
    if DiffSsr(f, j + 1) < 0.0 {
      BestTaken(f, j);
    } else {
      BestHeld(f, j);
      BestIsLastImprovement(f, j);
    }
  }

  /** Right after a pass that lowered the SSR, and at the start, the best
      simulation is the current one. */
  lemma BestIsLastImprovement(f: Fit, j: nat)
    requires f.Valid() && DiffSsr(f, j) < 0.0
    ensures BestSimulation(f, j) == Simulation(f, j)
  {
    if j == 0 {
      assert Trace(f, 0) == Initial(f);
    } else {
      BestTaken(f, j - 1);
    }
  }

  /** A pass that does not lower the SSR leaves the best simulation alone. */
  lemma BestHeld(f: Fit, j: nat)
    requires f.Valid() && DiffSsr(f, j + 1) >= 0.0
    ensures BestSimulation(f, j + 1) == BestSimulation(f, j)
  {
    assert Trace(f, j + 1) == Advance(f, Trace(f, j), j);
  }

  /** A pass that lowers the SSR makes its simulation the best one. */
  lemma BestTaken(f: Fit, j: nat)
    requires f.Valid() && DiffSsr(f, j + 1) < 0.0
    ensures BestSimulation(f, j + 1) == Simulation(f, j + 1)
  {
    assert Trace(f, j + 1) == Advance(f, Trace(f, j), j);
  }

  /** A kernel whose background is purely additive, as the PSF model is. */
  ghost predicate AddsBackground(kernel: Kernel)
  {
    forall p, mu, b :: kernel(p, mu, b) == kernel(p, mu, 0.0) + b
  }

  /** The background-free Gaussians of the first j placements, summed at
      grid point k. */
  function PeakSum(f: Fit, j: nat, k: nat): real
    requires f.Valid() && k < |f.grid|
  {
    if j == 0 then 0.0 else PeakSum(f, j - 1, k) + f.kernel(f.grid[k], f.grid[PeakIndex(f, j - 1)], 0.0)
  }

  /** The background floor enters the simulation once, however many
      Gaussians are placed. */
  lemma {:induction false} BackgroundAddedOnce(f: Fit, j: nat, k: nat)
    requires f.Valid() && AddsBackground(f.kernel) && 1 <= j && k < |f.patch|
    ensures Simulation(f, j)[k] == PeakSum(f, j, k) + f.background
  {
    if j > 1 {
      BackgroundAddedOnce(f, j - 1, k);
    }
  }

  /** `np.clip(v, 0, max)` followed by the cast to the integer pixel type. */
  function ClipCast(v: real, max: nat): (n: int)
    ensures 0 <= n <= max
    ensures v <= 0.0 ==> n == 0
    ensures v >= max as real ==> n == max
    ensures 0.0 <= v <= max as real ==> n as real <= v < n as real + 1.0
  {
    if v < 0.0 then 0 else if v > max as real then max else v.Floor
  }

  /** Clipping keeps in-range integral values and preserves order. */
  lemma ClipCastProperties(v: real, w: real, max: nat, n: int)
    requires v <= w
    ensures ClipCast(v, max) <= ClipCast(w, max)
    ensures 0 <= n <= max ==> ClipCast(n as real, max) == n
  {
  }

  /** The clip of the best simulation into the pixel type's range; np.iinfo
      rejects the float types. */
  function ClipToDtype(sim: seq<real>, dtype: DType): (r: Result<seq<int>>)
    ensures r.Ok? <==> dtype.IsInteger()
    ensures r.Err? ==> r.error == NonIntegerDtype
    ensures r.Ok? ==> (|r.value| == |sim| &&
      forall k :: 0 <= k < |sim| ==> 0 <= r.value[k] <= dtype.MaxValue() && r.value[k] == ClipCast(sim[k], dtype.MaxValue()))
  {
    if !dtype.IsInteger() then Err(NonIntegerDtype)
    else Ok(seq(|sim|, k requires 0 <= k < |sim| => ClipCast(sim[k], dtype.MaxValue())))
  }

  /** What `_gaussian_mixture_*` hands back: the kept positions and the
      clipped best simulation. */
  datatype MixtureFit = MixtureFit(positions: seq<seq<real>>, bestSimulation: seq<int>)

  function GaussianMixture(f: Fit, dtype: DType, fuel: nat): (r: Result<MixtureFit>)
    requires f.Valid()
    ensures r.Ok? <==> GreedyOutcome(f, fuel).Some? && dtype.IsInteger()
    ensures r.Err? ==> r.error == (if GreedyOutcome(f, fuel).None? then OutOfFuel else NonIntegerDtype)
    ensures r.Ok? ==> r.value.positions == GreedyOutcome(f, fuel).value.positions
    ensures r.Ok? ==> 1 <= |r.value.positions| && forall i :: 0 <= i < |r.value.positions| ==> r.value.positions[i] in f.grid
    ensures r.Ok? ==> (|r.value.bestSimulation| == |f.patch| &&
      forall k :: 0 <= k < |f.patch| ==> 0 <= r.value.bestSimulation[k] <= dtype.MaxValue())
    ensures r.Ok? ==> forall k :: 0 <= k < |f.patch| ==>
      r.value.bestSimulation[k] == ClipCast(GreedyOutcome(f, fuel).value.best[k], dtype.MaxValue())
  {
    match GreedyOutcome(f, fuel)
    case None => Err(OutOfFuel)
    case Some(o) =>
      KeptPositions(f, fuel);
      match ClipToDtype(o.best, dtype)
      case Err(e) => Err(e)
      case Ok(clipped) => Ok(MixtureFit(o.positions, clipped))
  }
}
