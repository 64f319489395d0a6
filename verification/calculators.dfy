/** The two calculators of hw6.js, `computeOnline` and `computeBatch`, the
    validation in `computeStatistics`, and the Welford trace of
    `displayStepByStep`. `Math.sqrt` is a parameter that is a square root on
    the non-negative reals; `Math.pow(M2, 1.5)` is `M2 · √M2`. */
module Calculators {
  import opened Wrappers
  import opened RealSeqs
  import opened Moments
  import opened Welford

  /** `root` is the non-negative square root of `y`. */
  ghost predicate IsRootOf(root: real, y: real) {
    root >= 0.0 && root * root == y
  }

  /** `sqrt` returns the non-negative square root of every non-negative real. */
  ghost predicate IsSquareRoot(sqrt: real -> real) {
    forall y: real :: y >= 0.0 ==> IsRootOf(sqrt(y), y)
  }

  datatype OnlineStats = OnlineStats(
    n: nat, mean: real, variance: real, stdDev: real,
    m2: real, m3: real, m4: real, skewness: real, kurtosis: real,
    min: real, max: real, range: real, computationSteps: nat)

  datatype BatchStats = BatchStats(
    n: nat, mean: real, variance: real, stdDev: real, skewness: real, kurtosis: real,
    min: real, max: real, range: real, computationSteps: nat)

  /** `n > 1 ? M2 / (n − 1) : 0`. */
  function VarianceOf(m2: real, n: nat): real {
    if n > 1 then m2 / (n - 1) as real else 0.0
  }

  lemma VarianceOfNonNegative(m2: real, n: nat)
    requires m2 >= 0.0
    ensures VarianceOf(m2, n) >= 0.0
  {
    if n > 1 {
      QuotientSign(m2, (n - 1) as real);
    }
  }

  /** The root of a positive real is positive, and a positive root has a
      positive radicand. */
  lemma RootSign(sqrt: real -> real, y: real)
    requires IsSquareRoot(sqrt) && y >= 0.0
    ensures sqrt(y) > 0.0 <==> y > 0.0
  {
    assert Square(sqrt(y)) == y;
    SquareSign(sqrt(y));
  }

  lemma PositiveProduct(a: real, b: real)
    requires a > 0.0 && b > 0.0
    ensures a * b > 0.0
  {
  }

  /** `M2 > 0 ? M3 / M2^1.5 : 0`, with `root = √M2`. */
  function OnlineSkewness(m3: real, m2: real, root: real): real
    requires m2 > 0.0 ==> root > 0.0
  {
    if m2 > 0.0 then
      PositiveProduct(m2, root);
      m3 / (m2 * root)
    else 0.0
  }

  /** `M2 > 0 ? M4 / (M2 · M2) − 3 : 0`. */
  function OnlineKurtosis(m4: real, m2: real): real {
    if m2 > 0.0 then
      PositiveProduct(m2, m2);
      m4 / (m2 * m2) - 3.0
    else 0.0
  }

  /** `stdDev > 0 ? M3 / (n · stdDev³) : 0`. */
  function BatchSkewness(m3: real, n: nat, stdDev: real): real
    requires n > 0
  {
    if stdDev > 0.0 then
      SquareSign(stdDev);
      PositiveProduct(stdDev, Square(stdDev));
      PositiveProduct(n as real, Cube(stdDev));
      m3 / (n as real * Cube(stdDev))
    else 0.0
  }

  /** `stdDev > 0 ? M4 / (n · variance²) − 3 : 0`. */
  function BatchKurtosis(m4: real, n: nat, variance: real, stdDev: real): real
    requires n > 0 && (stdDev > 0.0 ==> variance > 0.0)
  {
    if stdDev > 0.0 then
      PositiveProduct(n as real, variance);
      PositiveProduct(n as real * variance, variance);
      m4 / (n as real * variance * variance) - 3.0
    else 0.0
  }

  /** The report `computeOnline` builds from the accumulators `acc` of its
      loop over `data`. */
  function OnlineReport(acc: Accumulator, data: seq<real>, sqrt: real -> real): OnlineStats
    requires data != [] && IsSquareRoot(sqrt)
  {
    var variance := VarianceOf(acc.m2, acc.n);
    PositiveRoot(sqrt, acc.m2);
    OnlineStats(acc.n, acc.mean, variance, sqrt(variance), acc.m2, acc.m3, acc.m4,
      OnlineSkewness(acc.m3, acc.m2, sqrt(acc.m2)), OnlineKurtosis(acc.m4, acc.m2),
      Min(data), Max(data), Max(data) - Min(data), acc.n)
  }

  lemma PositiveRoot(sqrt: real -> real, y: real)
    requires IsSquareRoot(sqrt)
    ensures y > 0.0 ==> sqrt(y) > 0.0
  {
    if y > 0.0 {
      RootSign(sqrt, y);
    }
  }

  /** `computeOnline` on the non-empty data the page passes it, with the
      loop's own higher-moment updates (`Welford.AccumulateAsWritten`). */
  function ComputeOnline(data: seq<real>, sqrt: real -> real): OnlineStats
    requires data != [] && IsSquareRoot(sqrt)
  {
    OnlineReport(AccumulateAsWritten(data), data, sqrt)
  }

  /** The calculator the page evidently intends: the same report over the
      corrected updates of `Welford.Accumulate`. */
  function IntendedOnline(data: seq<real>, sqrt: real -> real): OnlineStats
    requires data != [] && IsSquareRoot(sqrt)
  {
    OnlineReport(Accumulate(data), data, sqrt)
  }

  /** `computeBatch` on non-empty data: mean first, then the sums of powers of
      deviations from it. */
  function ComputeBatch(data: seq<real>, sqrt: real -> real): BatchStats
    requires data != [] && IsSquareRoot(sqrt)
  {
    var n := |data|;
    var mean := Sum(data) / n as real;
    var variance := VarianceOf(SumSquaredDeviations(data, mean), n);
    BatchRoot(data, mean, sqrt);
    BatchStats(n, mean, variance, sqrt(variance),
      BatchSkewness(SumCubedDeviations(data, mean), n, sqrt(variance)),
      BatchKurtosis(SumFourthDeviations(data, mean), n, variance, sqrt(variance)),
      Min(data), Max(data), Max(data) - Min(data), 3)
  }

  /** A positive reported deviation means a positive variance. */
  lemma BatchRoot(data: seq<real>, mean: real, sqrt: real -> real)
    requires IsSquareRoot(sqrt)
    ensures var v := VarianceOf(SumSquaredDeviations(data, mean), |data|); sqrt(v) > 0.0 ==> v > 0.0
  {
    SumSquaredDeviationsNonNegative(data, mean);
    VarianceOfNonNegative(SumSquaredDeviations(data, mean), |data|);
    RootSign(sqrt, VarianceOf(SumSquaredDeviations(data, mean), |data|));
  }

  /** What `computeOnline` reports: the count, the two-pass mean and sum of
      squared deviations (its `M3` and `M4` are not the two-pass sums; see
      `Welford.AsWrittenCounterexample`), */
  lemma OnlineMoments(data: seq<real>, sqrt: real -> real)
    requires data != [] && IsSquareRoot(sqrt)
    ensures var r := ComputeOnline(data, sqrt);
      && r.n == |data| && r.computationSteps == |data|
      && r.mean == Mean(data)
      && r.m2 == SumSquaredDeviations(data, Mean(data))
  {
    AsWrittenKeepsMeanAndM2(data);
    OnlineIsTwoPass(data);
  }

  /** The intended calculator ends with the two-pass mean and sums of
      squared, cubed and fourth-power deviations. */
  lemma IntendedOnlineMoments(data: seq<real>, sqrt: real -> real)
    requires data != [] && IsSquareRoot(sqrt)
    ensures var r := IntendedOnline(data, sqrt);
      && r.n == |data| && r.computationSteps == |data|
      && r.mean == Mean(data)
      && r.m2 == SumSquaredDeviations(data, Mean(data))
      && r.m3 == SumCubedDeviations(data, Mean(data))
      && r.m4 == SumFourthDeviations(data, Mean(data))
  {
    OnlineIsTwoPass(data);
  }

  /** The page's calculator and the intended one differ only in `M3`, `M4`
      and the skewness and kurtosis built from them. */
  lemma OnlineDiffersOnlyInHigherMoments(data: seq<real>, sqrt: real -> real)
    requires data != [] && IsSquareRoot(sqrt)
    ensures var o, i := ComputeOnline(data, sqrt), IntendedOnline(data, sqrt);
      && o.n == i.n && o.mean == i.mean && o.m2 == i.m2
      && o.variance == i.variance && o.stdDev == i.stdDev
      && o.min == i.min && o.max == i.max && o.range == i.range
      && o.computationSteps == i.computationSteps
  {
    AsWrittenKeepsMeanAndM2(data);
  }

  /** On `[0, 1, 3]` the page reports `M3 = 40/9` and `M4 = 3109/72`, where
      the intended calculator reports the two-pass sums `20/9` and `98/9`. */
  lemma OnlineHigherMomentsDiffer(sqrt: real -> real)
    requires IsSquareRoot(sqrt)
    ensures ComputeOnline([0.0, 1.0, 3.0], sqrt).m3 == 40.0 / 9.0
    ensures ComputeOnline([0.0, 1.0, 3.0], sqrt).m4 == 3109.0 / 72.0
    ensures IntendedOnline([0.0, 1.0, 3.0], sqrt).m3 == 20.0 / 9.0
    ensures IntendedOnline([0.0, 1.0, 3.0], sqrt).m4 == 98.0 / 9.0
  {
    AsWrittenCounterexample();
    IntendedOnlineMoments([0.0, 1.0, 3.0], sqrt);
  }

  /** the sample variance and its root, */
  lemma OnlineVariance(data: seq<real>, sqrt: real -> real)
    requires data != [] && IsSquareRoot(sqrt)
    ensures var r := ComputeOnline(data, sqrt);
      && r.variance == SampleVariance(data) && r.variance >= 0.0
      && IsRootOf(r.stdDev, r.variance)
  {
    var acc := AccumulateAsWritten(data);
    AsWrittenKeepsMeanAndM2(data);
    OnlineIsTwoPass(data);
    VarianceNonNegative(data);
    SampleVarianceIs(data, acc.m2, acc.n);
  }

  /** `SampleVariance` from the sum of squared deviations and the count. */
  lemma SampleVarianceIs(s: seq<real>, m2: real, n: nat)
    requires s != [] && n == |s| && m2 == SumSquaredDeviations(s, Mean(s))
    ensures VarianceOf(m2, n) == SampleVariance(s)
  {
  }

  /** skewness and kurtosis 0 when `M2` is 0, and the extremes of the data. */
  lemma OnlineShape(data: seq<real>, sqrt: real -> real)
    requires data != [] && IsSquareRoot(sqrt)
    ensures var r := ComputeOnline(data, sqrt);
      && (r.m2 == 0.0 ==> r.skewness == 0.0 && r.kurtosis == 0.0)
      && r.min in data && r.max in data
      && (forall i :: 0 <= i < |data| ==> r.min <= data[i] <= r.max)
      && r.range == r.max - r.min && r.range >= 0.0
  {
    RangeNonNegative(data);
  }

  /** What `computeBatch` reports: the mean `sum / n`, the sample variance
      and its root, skewness and kurtosis 0 when the deviation is 0, and the
      extremes of the data. */
  lemma BatchResults(data: seq<real>, sqrt: real -> real)
    requires data != [] && IsSquareRoot(sqrt)
    ensures var r := ComputeBatch(data, sqrt);
      && r.n == |data| && r.computationSteps == 3
      && r.mean == Mean(data)
      && r.variance == SampleVariance(data) && r.variance >= 0.0
      && IsRootOf(r.stdDev, r.variance)
      && (r.stdDev == 0.0 ==> r.skewness == 0.0 && r.kurtosis == 0.0)
      && r.min in data && r.max in data
      && (forall i :: 0 <= i < |data| ==> r.min <= data[i] <= r.max)
      && r.range == r.max - r.min && r.range >= 0.0
  {
    VarianceNonNegative(data);
    SampleVarianceIs(data, SumSquaredDeviations(data, Mean(data)), |data|);
    RangeNonNegative(data);
  }

  /** Over exact reals the two calculators agree on everything they both
      report except the normalisation of skewness and kurtosis. */
  lemma OnlineAgreesWithBatch(data: seq<real>, sqrt: real -> real)
    requires data != [] && IsSquareRoot(sqrt)
    ensures var o, b := ComputeOnline(data, sqrt), ComputeBatch(data, sqrt);
      && o.n == b.n && o.mean == b.mean && o.variance == b.variance && o.stdDev == b.stdDev
      && o.min == b.min && o.max == b.max && o.range == b.range
  {
    OnlineMoments(data, sqrt);
    OnlineVariance(data, sqrt);
    BatchResults(data, sqrt);
  }

  /** `parseFloat(scaleFactor) || 1`: a missing (NaN) or zero factor becomes 1. */
  function ScaleFactor(parsed: Option<real>): (c: real)
    ensures c != 0.0
    ensures parsed.Some? && parsed.value != 0.0 ==> c == parsed.value
  {
    if parsed.None? || parsed.value == 0.0 then 1.0 else parsed.value
  }

  /** `computeStatistics` after parsing: no valid number is an error;
      otherwise every value is scaled and both calculators run. */
  function ComputeStatistics(values: seq<real>, scaleFactor: Option<real>, sqrt: real -> real)
    : Result<(OnlineStats, BatchStats), string>
    requires IsSquareRoot(sqrt)
  {
    if values == [] then Failure("No valid data found")
    else
      var data := Scale(values, ScaleFactor(scaleFactor));
      Success((ComputeOnline(data, sqrt), ComputeBatch(data, sqrt)))
  }

  /** Both calculators' reports on the values scaled by `c`: the count of
      the values, `c` times their mean and `c²` times their sample variance. */
  ghost predicate ReportsScaled(o: OnlineStats, b: BatchStats, values: seq<real>, c: real)
    requires values != []
  {
    && o.n == b.n == |values|
    && o.mean == b.mean == c * Mean(values)
    && o.variance == b.variance == Square(c) * SampleVariance(values)
  }

  /** The page reports an error exactly when no value was parsed; otherwise
      both calculators see the scaled data, so both means are `c` times the
      mean of the values and both variances `c²` times their variance. */
  lemma StatisticsOfScaledData(values: seq<real>, scaleFactor: Option<real>, sqrt: real -> real)
    requires IsSquareRoot(sqrt)
    ensures ComputeStatistics(values, scaleFactor, sqrt).Failure? <==> values == []
    ensures values != [] ==>
      var r := ComputeStatistics(values, scaleFactor, sqrt).value;
      ReportsScaled(r.0, r.1, values, ScaleFactor(scaleFactor))
  {
    if values != [] {
      ScaledCalculators(values, ScaleFactor(scaleFactor), sqrt);
    }
  }

  /** Both calculators, given the values scaled by `c`, report their count,
      `c` times their mean and `c²` times their sample variance. */
  lemma ScaledCalculators(values: seq<real>, c: real, sqrt: real -> real)
    requires values != [] && IsSquareRoot(sqrt)
    ensures ReportsScaled(ComputeOnline(Scale(values, c), sqrt), ComputeBatch(Scale(values, c), sqrt), values, c)
  {
    var data := Scale(values, c);
    OnlineMoments(data, sqrt);
    OnlineAgreesWithBatch(data, sqrt);
    OnlineVariance(data, sqrt);
    MeanScale(values, c);
    VarianceScale(values, c);
  }

  /** One line of the step-by-step display. */
  datatype TraceRow = TraceRow(n: nat, x: real, delta: real, mean: real, m2: real, variance: real)

  /** Row `i` shows value `i`, its deviation `δ` from the mean of the values
      before it, and the state of `computeOnline`'s mean and `M2` after the
      first `i + 1` values. */
  ghost predicate RowMatches(row: TraceRow, data: seq<real>, i: nat)
    requires i < |data|
  {
    && row.n == i + 1 && row.x == data[i]
    && row.delta == data[i] - Accumulate(data[..i]).mean
    && row.mean == Accumulate(data[..i + 1]).mean
    && row.m2 == Accumulate(data[..i + 1]).m2
    && row.variance == VarianceOf(row.m2, row.n)
  }

  /** One turn of the trace loop: from `n` values with running `mean` and
      `M2`, read `x` and show the new state. */
  function TraceRowAfter(n: nat, mean: real, m2: real, x: real): TraceRow {
    var n' := n + 1;
    var delta := x - mean;
    var mean' := mean + delta / n' as real;
    var delta2 := x - mean';
    var m2' := m2 + delta * delta2;
    TraceRow(n', x, delta, mean', m2', VarianceOf(m2', n'))
  }

  /** `displayStepByStep`: the mean/`M2` recurrence on the first
      `min(len, 20)` values, one row each, and how many values it left out. */
  method StepByStep(data: seq<real>) returns (rows: seq<TraceRow>, more: nat)
    ensures |rows| == if |data| < 20 then |data| else 20
    ensures more == if |data| > 20 then |data| - 20 else 0
    ensures forall i :: 0 <= i < |rows| ==> RowMatches(rows[i], data, i)
    ensures forall i :: 0 <= i < |rows| ==>
      && rows[i].delta == data[i] - (if i == 0 then 0.0 else Mean(data[..i]))
      && rows[i].mean == Mean(data[..i + 1])
      && rows[i].m2 == SumSquaredDeviations(data[..i + 1], Mean(data[..i + 1]))
      && rows[i].variance == SampleVariance(data[..i + 1])
  {
    var limit := if |data| < 20 then |data| else 20;
    var n: nat, mean, m2 := 0, 0.0, 0.0;
    rows := [];
    var i := 0;
    while i < limit
      invariant 0 <= i <= limit && n == i && |rows| == i
      invariant mean == Accumulate(data[..i]).mean && m2 == Accumulate(data[..i]).m2
      invariant forall j :: 0 <= j < i ==> RowMatches(rows[j], data, j)
    {
      var row := TraceRowAfter(n, mean, m2, data[i]);
      TraceRowMatches(data, i, mean, m2);
      n, mean, m2 := row.n, row.mean, row.m2;
      rows := rows + [row];
      i := i + 1;
    }
    more := if |data| > 20 then |data| - 20 else 0;
    forall i | 0 <= i < |rows|
      ensures rows[i].delta == data[i] - (if i == 0 then 0.0 else Mean(data[..i]))
      ensures rows[i].mean == Mean(data[..i + 1])
      ensures rows[i].m2 == SumSquaredDeviations(data[..i + 1], Mean(data[..i + 1]))
      ensures rows[i].variance == SampleVariance(data[..i + 1])
    {
      RowIsTwoPass(rows[i], data, i);
    }
  }

  lemma TraceRowMatches(data: seq<real>, i: nat, a: real, m2: real)
    requires i < |data| && a == Accumulate(data[..i]).mean && m2 == Accumulate(data[..i]).m2
    ensures RowMatches(TraceRowAfter(i, a, m2, data[i]), data, i)
  {
    var p := data[..i + 1];
    assert p[..i] == data[..i] && p[i] == data[i];
    TraceStep(p, a, m2, (data[i] - a) / (i + 1) as real);
  }

  /** One turn of the trace loop is one `Observe`, whose mean moves by `h`. */
  lemma TraceStep(p: seq<real>, a: real, m2: real, h: real)
    requires p != []
    requires a == Accumulate(p[..|p| - 1]).mean && m2 == Accumulate(p[..|p| - 1]).m2
    requires h == (p[|p| - 1] - a) / |p| as real
    ensures StepsTo(Accumulate(p), |p|, a, m2, p[|p| - 1], h)
  {
    var acc := Accumulate(p[..|p| - 1]);
    AccumulateCount(p[..|p| - 1]);
    ObserveMeanAndM2(acc, p[|p| - 1], h);
  }

  /** The accumulator counts the values it has seen. */
  lemma {:induction false} AccumulateCount(s: seq<real>)
    ensures Accumulate(s).n == |s|
    decreases |s|
  {
    if s != [] {
      AccumulateCount(s[..|s| - 1]);
    }
  }

  lemma RowIsTwoPass(row: TraceRow, data: seq<real>, i: nat)
    requires i < |data| && RowMatches(row, data, i)
    ensures row.delta == data[i] - (if i == 0 then 0.0 else Mean(data[..i]))
    ensures row.mean == Mean(data[..i + 1])
    ensures row.m2 == SumSquaredDeviations(data[..i + 1], Mean(data[..i + 1]))
    ensures row.variance == SampleVariance(data[..i + 1])
  {
    var p := data[..i + 1];
    OnlineIsTwoPass(p);
    SampleVarianceIs(p, row.m2, row.n);
    if i > 0 {
      OnlineIsTwoPass(data[..i]);
    }
  }
}
