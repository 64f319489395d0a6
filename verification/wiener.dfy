/** The diffusion simulators of the dual page (hw11.js): the Wiener process
    with drift and volatility (`simulateWienerProcess`), the standard Wiener
    process (`simulateWienerProcessPart2`) and the Euler–Maruyama scheme for a
    general SDE (`simulateSDE`). The standard normal draws that Box–Muller
    would supply are given as one sequence of n draws per trajectory, and
    `Math.sqrt(dt)` is a parameter `sqrtDt`. */
module Wiener {
  import opened Wrappers
  import opened RealSeqs
  import opened Moments
  import opened FinalSummary

  /** `runSimulation`'s range checks for the first part, in order. The
      volatility check accepts any σ in (0, 5] although its message names 0.1
      as the lower end. */
  function ValidateWiener(T: real, n: int, m: int, sigma: real): (error: Option<string>)
    ensures error.None? ==> T > 0.0 && n > 0 && m > 0
    ensures error.None? <==> 0.5 <= T <= 100.0 && 100 <= n <= 20000 && 50 <= m <= 5000 && 0.0 < sigma <= 5.0
    ensures (T < 0.5 || T > 100.0) ==> error == Some("Time interval must be between 0.5 and 100")
  {
    if T < 0.5 || T > 100.0 then Some("Time interval must be between 0.5 and 100")
    else if n < 100 || n > 20000 then Some("Steps must be between 100 and 20000")
    else if m < 50 || m > 5000 then Some("Trajectories must be between 50 and 5000")
    else if sigma <= 0.0 || sigma > 5.0 then Some("Volatility must be between 0.1 and 5")
    else None
  }

  /** `runSimulation2`'s single check. */
  function ValidateSde(T: real, n: int, m: int): (error: Option<string>)
    ensures error.None? <==> T > 0.0 && n >= 100 && m >= 10
    ensures error.Some? ==> error.value == "Check parameters: T > 0, n >= 100, m >= 10"
  {
    if T > 0.0 && n >= 100 && m >= 10 then None
    else Some("Check parameters: T > 0, n >= 100, m >= 10")
  }

  /** `(i / n) * T`, the i-th grid time. */
  function TimeAt(i: nat, n: nat, T: real): real
    requires n > 0
  {
    (i as real / n as real) * T
  }

  /** `timePath` / `timePoints`: n + 1 grid times from 0 to T. */
  function TimeGrid(T: real, n: nat): (ts: seq<real>)
    requires n > 0
    ensures |ts| == n + 1 && forall i :: 0 <= i <= n ==> ts[i] == TimeAt(i, n, T)
  {
    seq(n + 1, i requires 0 <= i <= n => TimeAt(i, n, T))
  }

  lemma GridStep(i: nat, n: nat, T: real, u: real, v: real)
    requires n > 0 && u == i as real / n as real && v == (i + 1) as real / n as real
    ensures v * T - u * T == T / n as real
  {
    assert v - u == 1.0 / n as real;
    calc {
      v * T - u * T;
      (v - u) * T;
      (1.0 / n as real) * T;
    }
  }

  /** The grid starts at 0, ends at T, and consecutive times are dt = T / n
      apart, so for T > 0 it is strictly increasing. */
  lemma TimeGridShape(T: real, n: nat)
    requires n > 0
    ensures TimeGrid(T, n)[0] == 0.0 && TimeGrid(T, n)[n] == T
    ensures forall i :: 0 <= i < n ==> TimeGrid(T, n)[i + 1] - TimeGrid(T, n)[i] == T / n as real
    ensures T > 0.0 ==> forall i :: 0 <= i < n ==> TimeGrid(T, n)[i] < TimeGrid(T, n)[i + 1]
  {
    var ts := TimeGrid(T, n);
    assert ts[n] == (n as real / n as real) * T;
    var dt := T / n as real;
    forall i | 0 <= i < n
      ensures ts[i + 1] - ts[i] == dt
    {
      GridStep(i, n, T, i as real / n as real, (i + 1) as real / n as real);
    }
    if T > 0.0 {
      QuotientSign(T, n as real);
      assert dt > 0.0;
    }
  }

  /** One step of a path: the next value from the step index, the current
      value and the normal draw. */
  type Step = (nat, real, real) -> real

  /** The value after the given draws, accumulated left to right. */
  function Evolve(x0: real, zs: seq<real>, step: Step): real
    decreases |zs|
  {
    if zs == [] then x0 else step(|zs| - 1, Evolve(x0, zs[..|zs| - 1], step), zs[|zs| - 1])
  }

  /** The path `[x₀, x₁, …, xₙ]` one trajectory pushes. */
  function Path(x0: real, zs: seq<real>, step: Step): (path: seq<real>)
    ensures |path| == |zs| + 1 && path[0] == x0 && path[|zs|] == Evolve(x0, zs, step)
  {
    assert zs[..|zs|] == zs;
    seq(|zs| + 1, i requires 0 <= i <= |zs| => Evolve(x0, zs[..i], step))
  }

  /** Every value of a path is the step applied to the one before. */
  lemma PathSteps(x0: real, zs: seq<real>, step: Step)
    ensures forall i :: 0 <= i < |zs| ==> Path(x0, zs, step)[i + 1] == step(i, Path(x0, zs, step)[i], zs[i])
  {
    assert forall i :: 0 <= i < |zs| ==> zs[..i + 1][..i] == zs[..i];
  }

  lemma PathAppend(x0: real, zs: seq<real>, z: real, step: Step)
    ensures Path(x0, zs + [z], step) == Path(x0, zs, step) + [step(|zs|, Evolve(x0, zs, step), z)]
  {
    assert (zs + [z])[..|zs|] == zs;
    assert forall k :: 0 <= k <= |zs| ==> (zs + [z])[..k] == zs[..k];
  }

  /** Two steps that agree on the given draws produce the same final value. */
  lemma {:induction false} EvolveSameSteps(x0: real, zs: seq<real>, s1: Step, s2: Step)
    requires forall i, x :: 0 <= i < |zs| ==> s1(i, x, zs[i]) == s2(i, x, zs[i])
    ensures Evolve(x0, zs, s1) == Evolve(x0, zs, s2)
    decreases |zs|
  {
    if zs != [] {
      var init := zs[..|zs| - 1];
      assert forall i :: 0 <= i < |init| ==> init[i] == zs[i];
      EvolveSameSteps(x0, init, s1, s2);
    }
  }

  /** ... and the same path. */
  lemma SamePath(x0: real, zs: seq<real>, s1: Step, s2: Step)
    requires forall i, x :: 0 <= i < |zs| ==> s1(i, x, zs[i]) == s2(i, x, zs[i])
    ensures Path(x0, zs, s1) == Path(x0, zs, s2)
  {
    forall k | 0 <= k <= |zs|
      ensures Path(x0, zs, s1)[k] == Path(x0, zs, s2)[k]
    {
      assert forall i :: 0 <= i < k ==> zs[..k][i] == zs[i];
      EvolveSameSteps(x0, zs[..k], s1, s2);
    }
  }

  /** The first part's step: `currentValue += mu * dt + sigma * sqrtDt * z`. */
  function DriftStep(mu: real, sigma: real, dt: real, sqrtDt: real): Step {
    (i: nat, x: real, z: real) => x + (mu * dt + sigma * sqrtDt * z)
  }

  /** The second part's Wiener step: `x += Math.sqrt(dt) * z`. */
  function StandardStep(sqrtDt: real): Step {
    (i: nat, x: real, z: real) => x + sqrtDt * z
  }

  /** The Euler–Maruyama step at grid time `t_i = timePoints[i]`:
      `x + a(x, t)·dt + b(x, t)·dW` with `dW = Math.sqrt(dt) * z`. */
  function EulerStep(a: (real, real) -> real, b: (real, real) -> real, T: real, n: nat, sqrtDt: real): Step
    requires n > 0
  {
    (i: nat, x: real, z: real) => x + a(x, TimeAt(i, n, T)) * (T / n as real) + b(x, TimeAt(i, n, T)) * (sqrtDt * z)
  }

  /** `buildDriftFunction` for the built-in forms: `'const'` gives μ,
      `'linear'` gives μ·x, and any other form gives 0. */
  function BuildDrift(form: string, mu: real): (a: (real, real) -> real)
    requires form != "custom"
    ensures form == "const" ==> forall x, t :: a(x, t) == mu
    ensures form == "linear" ==> forall x, t :: a(x, t) == mu * x
    ensures form != "const" && form != "linear" ==> forall x, t :: a(x, t) == 0.0
  {
    if form == "const" then (x: real, t: real) => mu
    else if form == "linear" then (x: real, t: real) => mu * x
    else (x: real, t: real) => 0.0
  }

  /** `buildDiffusionFunction` for the built-in forms: `'const'` gives σ,
      `'linear'` gives σ·x, and any other form gives 1. */
  function BuildDiffusion(form: string, sigma: real): (b: (real, real) -> real)
    requires form != "custom"
    ensures form == "const" ==> forall x, t :: b(x, t) == sigma
    ensures form == "linear" ==> forall x, t :: b(x, t) == sigma * x
    ensures form != "const" && form != "linear" ==> forall x, t :: b(x, t) == 1.0
  {
    if form == "const" then (x: real, t: real) => sigma
    else if form == "linear" then (x: real, t: real) => sigma * x
    else (x: real, t: real) => 1.0
  }

  lemma ConstantStepAgrees(x: real, z: real, mu: real, sigma: real, dt: real, sqrtDt: real)
    ensures x + mu * dt + sigma * (sqrtDt * z) == x + (mu * dt + sigma * sqrtDt * z)
  {
    assert sigma * (sqrtDt * z) == sigma * sqrtDt * z;
  }

  /** With constant drift μ and diffusion σ, the Euler–Maruyama path from 0 is
      the first part's Wiener path with drift, draw for draw. */
  lemma ConstantSdeIsDriftWiener(zs: seq<real>, T: real, n: nat, mu: real, sigma: real, sqrtDt: real)
    requires n > 0
    ensures Path(0.0, zs, EulerStep(BuildDrift("const", mu), BuildDiffusion("const", sigma), T, n, sqrtDt))
         == Path(0.0, zs, DriftStep(mu, sigma, T / n as real, sqrtDt))
  {
    var e := EulerStep(BuildDrift("const", mu), BuildDiffusion("const", sigma), T, n, sqrtDt);
    var d := DriftStep(mu, sigma, T / n as real, sqrtDt);
    forall i: nat, x: real | 0 <= i < |zs|
      ensures e(i, x, zs[i]) == d(i, x, zs[i])
    {
      ConstantStepAgrees(x, zs[i], mu, sigma, T / n as real, sqrtDt);
    }
    SamePath(0.0, zs, e, d);
  }

  /** With μ = 0 and σ = 1 the first part's path is the standard Wiener path
      of the second part. */
  lemma UnitDriftWienerIsStandard(zs: seq<real>, dt: real, sqrtDt: real)
    ensures Path(0.0, zs, DriftStep(0.0, 1.0, dt, sqrtDt)) == Path(0.0, zs, StandardStep(sqrtDt))
  {
    var d := DriftStep(0.0, 1.0, dt, sqrtDt);
    var w := StandardStep(sqrtDt);
    forall i: nat, x: real | 0 <= i < |zs|
      ensures d(i, x, zs[i]) == w(i, x, zs[i])
    {
      assert 1.0 * sqrtDt * zs[i] == sqrtDt * zs[i];
    }
    SamePath(0.0, zs, d, w);
  }

  /** With μ = 0 and σ = 1 as constants, or with forms the page does not know
      (drift 0, diffusion 1), the Euler–Maruyama path from 0 is the standard
      Wiener path. */
  lemma StandardSdeIsWiener(zs: seq<real>, T: real, n: nat, driftForm: string, diffForm: string, mu: real, sigma: real, sqrtDt: real)
    requires n > 0
    requires driftForm != "custom" && diffForm != "custom"
    requires (driftForm == "const" && mu == 0.0) || (driftForm != "const" && driftForm != "linear")
    requires (diffForm == "const" && sigma == 1.0) || (diffForm != "const" && diffForm != "linear")
    ensures Path(0.0, zs, EulerStep(BuildDrift(driftForm, mu), BuildDiffusion(diffForm, sigma), T, n, sqrtDt))
         == Path(0.0, zs, StandardStep(sqrtDt))
  {
    var a := BuildDrift(driftForm, mu);
    var b := BuildDiffusion(diffForm, sigma);
    var e := EulerStep(a, b, T, n, sqrtDt);
    var w := StandardStep(sqrtDt);
    forall i: nat, x: real | 0 <= i < |zs|
      ensures e(i, x, zs[i]) == w(i, x, zs[i])
    {
      var t := TimeAt(i, n, T);
      assert a(x, t) == 0.0 && b(x, t) == 1.0;
      assert 0.0 * (T / n as real) == 0.0;
    }
    SamePath(0.0, zs, e, w);
  }

  /** The inner loop of one trajectory. */
  method Trajectory(x0: real, zs: seq<real>, step: Step) returns (path: seq<real>, x: real)
    ensures path == Path(x0, zs, step)
    ensures x == path[|zs|]
  {
    path := [x0];
    x := x0;
    var i := 0;
    while i < |zs|
      invariant 0 <= i <= |zs|
      invariant path == Path(x0, zs[..i], step)
      invariant x == Evolve(x0, zs[..i], step)
    {
      assert zs[..i + 1] == zs[..i] + [zs[i]];
      PathAppend(x0, zs[..i], zs[i], step);
      x := step(i, x, zs[i]);
      path := path + [x];
      i := i + 1;
    }
    assert zs[..|zs|] == zs;
  }

  /** The outer loop over the m trajectories. */
  method RunPaths(x0: real, zs: seq<seq<real>>, step: Step, displayCount: int)
    returns (trajectories: seq<seq<real>>, finalValues: seq<real>)
    ensures |trajectories| == Kept(displayCount, |zs|)
    ensures forall j :: 0 <= j < |trajectories| ==> trajectories[j] == Path(x0, zs[j], step)
    ensures |finalValues| == |zs|
    ensures forall j :: 0 <= j < |zs| ==> finalValues[j] == Path(x0, zs[j], step)[|zs[j]|]
  {
    trajectories, finalValues := [], [];
    var traj := 0;
    while traj < |zs|
      invariant 0 <= traj <= |zs|
      invariant |trajectories| == Kept(displayCount, traj)
      invariant forall j :: 0 <= j < |trajectories| ==> trajectories[j] == Path(x0, zs[j], step)
      invariant |finalValues| == traj
      invariant forall j :: 0 <= j < traj ==> finalValues[j] == Path(x0, zs[j], step)[|zs[j]|]
    {
      var path, x := Trajectory(x0, zs[traj], step);
      finalValues := finalValues + [x];
      if traj < displayCount {
        trajectories := trajectories + [path];
      }
      traj := traj + 1;
    }
  }

  /** `Math.floor(m * q)`, the index of the q-quantile of a sorted array. */
  function QuantileIndex(m: nat, q: real): int {
    (m as real * q).Floor
  }

  /** For q in [0, 1) the index is within the array, and it grows with q. */
  lemma QuantileIndexInRange(m: nat, q: real, q': real)
    requires m > 0 && 0.0 <= q <= q' < 1.0
    ensures 0 <= QuantileIndex(m, q) <= QuantileIndex(m, q') < m
  {
    var mr := m as real;
    assert mr * q' - mr * q == mr * (q' - q) >= 0.0;
    assert mr - mr * q' == mr * (1.0 - q') > 0.0;
    assert 0.0 <= mr * q;
  }

  /** The number of positive and of negative values
      (`filter(v => v > 0).length`, `filter(v => v < 0).length`). */
  function CountPositive(s: seq<real>): (c: nat)
    ensures c <= |s|
    decreases |s|
  {
    if s == [] then 0 else CountPositive(s[..|s| - 1]) + (if s[|s| - 1] > 0.0 then 1 else 0)
  }

  function CountNegative(s: seq<real>): (c: nat)
    ensures c <= |s|
    decreases |s|
  {
    if s == [] then 0 else CountNegative(s[..|s| - 1]) + (if s[|s| - 1] < 0.0 then 1 else 0)
  }

  /** No value is both positive and negative. */
  lemma {:induction false} SignCountsDisjoint(s: seq<real>)
    ensures CountPositive(s) + CountNegative(s) <= |s|
    decreases |s|
  {
    if s != [] {
      SignCountsDisjoint(s[..|s| - 1]);
    }
  }

  /** The statistics of the first part over the final values. */
  datatype FinalStats = FinalStats(
    sorted: seq<real>,
    min: real,
    max: real,
    q25: real,
    q50: real,
    q75: real,
    mean: real,
    variance: real,
    probPositive: real,
    probNegative: real)

  lemma ShareBound(a: nat, b: nat, m: nat)
    requires m > 0 && a + b <= m
    ensures 0.0 <= a as real / m as real && 0.0 <= b as real / m as real
    ensures a as real / m as real + b as real / m as real <= 1.0
  {
    assert a as real / m as real + b as real / m as real == (a + b) as real / m as real;
  }

  /** The sorted copy, its extremes and quartiles, the mean, the population
      variance and the shares of positive and negative final values. */
  function Statistics(finalValues: seq<real>): (r: FinalStats)
    requires finalValues != []
    ensures Sorted(r.sorted) && multiset(r.sorted) == multiset(finalValues)
    ensures r.min == Min(finalValues) && r.max == Max(finalValues)
    ensures r.min <= r.q25 <= r.q50 <= r.q75 <= r.max
    ensures r.q25 in finalValues && r.q50 in finalValues && r.q75 in finalValues
    ensures r.mean == Mean(finalValues) && r.variance >= 0.0
    ensures 0.0 <= r.probPositive && 0.0 <= r.probNegative && r.probPositive + r.probNegative <= 1.0
    ensures r.variance == PopulationVariance(finalValues)
    ensures r.probPositive == CountPositive(finalValues) as real / |finalValues| as real
    ensures r.probNegative == CountNegative(finalValues) as real / |finalValues| as real
    ensures var m := |finalValues|;
      0 <= QuantileIndex(m, 0.25) <= QuantileIndex(m, 0.5) <= QuantileIndex(m, 0.75) < m == |r.sorted|
    ensures var m := |finalValues|;
      && r.q25 == r.sorted[QuantileIndex(m, 0.25)]
      && r.q50 == r.sorted[QuantileIndex(m, 0.5)]
      && r.q75 == r.sorted[QuantileIndex(m, 0.75)]
  {
    var m := |finalValues|;
    var sorted := SortAscending(finalValues);
    QuantileIndexInRange(m, 0.25, 0.5);
    QuantileIndexInRange(m, 0.5, 0.75);
    var i25, i50, i75 := QuantileIndex(m, 0.25), QuantileIndex(m, 0.5), QuantileIndex(m, 0.75);
    SortedExtremes(finalValues, sorted);
    Quartiles(finalValues, sorted, i25, i50, i75);
    PopulationVarianceNonNegative(finalValues);
    SignCountsDisjoint(finalValues);
    ShareBound(CountPositive(finalValues), CountNegative(finalValues), m);
    FinalStats(sorted, sorted[0], sorted[m - 1], sorted[i25], sorted[i50], sorted[i75],
      Mean(finalValues), PopulationVariance(finalValues),
      CountPositive(finalValues) as real / m as real, CountNegative(finalValues) as real / m as real)
  }

  /** Entries of a sorted copy at growing indices are ordered between its
      ends, and each is one of the values. */
  lemma Quartiles(s: seq<real>, sorted: seq<real>, i: int, j: int, k: int)
    requires Sorted(sorted) && multiset(sorted) == multiset(s)
    requires 0 <= i <= j <= k < |sorted|
    ensures sorted[0] <= sorted[i] <= sorted[j] <= sorted[k] <= sorted[|sorted| - 1]
    ensures sorted[i] in s && sorted[j] in s && sorted[k] in s
  {
    assert sorted[i] in multiset(sorted) && sorted[j] in multiset(sorted) && sorted[k] in multiset(sorted);
  }

  /** The first and last entries of a sorted copy are the minimum and the
      maximum. */
  lemma SortedExtremes(s: seq<real>, sorted: seq<real>)
    requires s != [] && Sorted(sorted) && multiset(sorted) == multiset(s)
    ensures |sorted| == |s|
    ensures sorted[0] == Min(s) && sorted[|s| - 1] == Max(s)
  {
    assert |sorted| == |multiset(sorted)| == |s|;
    assert Min(s) in multiset(sorted) && Max(s) in multiset(sorted);
    assert sorted[0] in multiset(s) && sorted[|s| - 1] in multiset(s) by {
      assert sorted[0] in multiset(sorted) && sorted[|s| - 1] in multiset(sorted);
    }
    var i :| 0 <= i < |sorted| && sorted[i] == Min(s);
    var j :| 0 <= j < |sorted| && sorted[j] == Max(s);
  }

  datatype WienerRun = WienerRun(
    trajectories: seq<seq<real>>,
    finalValues: seq<real>,
    timePath: seq<real>,
    dt: real,
    stats: FinalStats,
    theoreticalMean: real,
    theoreticalVar: real)

  /** `simulateWienerProcess(T, n, m, μ, σ, displayCount)` with `zs[j]` the n
      normal draws of trajectory j (so m = |zs|). */
  method SimulateWienerProcess(T: real, n: nat, zs: seq<seq<real>>, mu: real, sigma: real, displayCount: int, sqrtDt: real)
    returns (r: WienerRun)
    requires n > 0 && |zs| > 0
    requires forall j :: 0 <= j < |zs| ==> |zs[j]| == n
    ensures r.dt == T / n as real
    ensures r.timePath == TimeGrid(T, n)
    ensures |r.trajectories| == Kept(displayCount, |zs|)
    ensures forall j :: 0 <= j < |r.trajectories| ==> r.trajectories[j] == Path(0.0, zs[j], DriftStep(mu, sigma, r.dt, sqrtDt))
    ensures |r.finalValues| == |zs|
    ensures forall j :: 0 <= j < |zs| ==> r.finalValues[j] == Path(0.0, zs[j], DriftStep(mu, sigma, r.dt, sqrtDt))[n]
    ensures r.stats == Statistics(r.finalValues)
    ensures r.theoreticalMean == mu * T && r.theoreticalVar == Square(sigma) * T
  {
    var dt := T / n as real;
    var trajectories, finalValues := RunPaths(0.0, zs, DriftStep(mu, sigma, dt, sqrtDt), displayCount);
    r := WienerRun(trajectories, finalValues, TimeGrid(T, n), dt, Statistics(finalValues), mu * T, Square(sigma) * T);
  }

  /** What the second part's simulators return. */
  datatype PathRun = PathRun(
    trajectories: seq<seq<real>>,
    finalValues: seq<real>,
    sorted: seq<real>,
    timePoints: seq<real>,
    mean: real,
    variance: real,
    dt: real)

  /** The sorted copy, mean and population variance of the final values. */
  function Spread(finalValues: seq<real>): (r: (seq<real>, real, real))
    requires finalValues != []
    ensures Sorted(r.0) && multiset(r.0) == multiset(finalValues)
    ensures r.1 == Mean(finalValues) && r.2 >= 0.0
    ensures r.2 == PopulationVariance(finalValues)
  {
    PopulationVarianceNonNegative(finalValues);
    (SortAscending(finalValues), Mean(finalValues), PopulationVariance(finalValues))
  }

  /** `simulateSDE(T, n, m, x₀, a, b, displayCount)` with `zs[j]` the n normal
      draws of trajectory j. */
  method SimulateSde(T: real, n: nat, zs: seq<seq<real>>, x0: real, a: (real, real) -> real, b: (real, real) -> real,
                     displayCount: int, sqrtDt: real)
    returns (r: PathRun)
    requires n > 0 && |zs| > 0
    requires forall j :: 0 <= j < |zs| ==> |zs[j]| == n
    ensures r.dt == T / n as real
    ensures r.timePoints == TimeGrid(T, n)
    ensures |r.trajectories| == Kept(displayCount, |zs|)
    ensures forall j :: 0 <= j < |r.trajectories| ==> r.trajectories[j] == Path(x0, zs[j], EulerStep(a, b, T, n, sqrtDt))
    ensures |r.finalValues| == |zs|
    ensures forall j :: 0 <= j < |zs| ==> r.finalValues[j] == Path(x0, zs[j], EulerStep(a, b, T, n, sqrtDt))[n]
    ensures (r.sorted, r.mean, r.variance) == Spread(r.finalValues)
  {
    var trajectories, finalValues := RunPaths(x0, zs, EulerStep(a, b, T, n, sqrtDt), displayCount);
    var spread := Spread(finalValues);
    r := PathRun(trajectories, finalValues, spread.0, TimeGrid(T, n), spread.1, spread.2, T / n as real);
  }

  /** `simulateWienerProcessPart2(T, n, m, displayCount)` with `zs[j]` the n
      normal draws of trajectory j. */
  method SimulateStandardWiener(T: real, n: nat, zs: seq<seq<real>>, displayCount: int, sqrtDt: real)
    returns (r: PathRun)
    requires n > 0 && |zs| > 0
    requires forall j :: 0 <= j < |zs| ==> |zs[j]| == n
    ensures r.dt == T / n as real
    ensures r.timePoints == TimeGrid(T, n)
    ensures |r.trajectories| == Kept(displayCount, |zs|)
    ensures forall j :: 0 <= j < |r.trajectories| ==> r.trajectories[j] == Path(0.0, zs[j], StandardStep(sqrtDt))
    ensures |r.finalValues| == |zs|
    ensures forall j :: 0 <= j < |zs| ==> r.finalValues[j] == Path(0.0, zs[j], StandardStep(sqrtDt))[n]
    ensures (r.sorted, r.mean, r.variance) == Spread(r.finalValues)
  {
    var trajectories, finalValues := RunPaths(0.0, zs, StandardStep(sqrtDt), displayCount);
    var spread := Spread(finalValues);
    r := PathRun(trajectories, finalValues, spread.0, TimeGrid(T, n), spread.1, spread.2, T / n as real);
  }
}
