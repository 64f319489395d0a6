/** What the simulation pages share: how many trajectories they keep for
    display, and the summary the two discrete pages (hw10.js
    `simulateCountingProcess`, hw7.js `simulateRandomWalks`) compute over the
    final value of every trajectory: a frequency table, its keys in ascending
    order, the mean and the population variance (divided by m, not m − 1), the
    extremes and the median. */
module FinalSummary {
  import opened Wrappers
  import opened RealSeqs
  import opened FrequencyTable
  import opened Moments
  import opened Discrete

  /** How many of m trajectories the test `traj < displayCount` keeps for
      the chart. */
  function Kept(displayCount: int, m: nat): (k: nat)
    ensures displayCount <= 0 ==> k == 0
    ensures 0 <= displayCount <= m ==> k == displayCount
    ensures displayCount >= m ==> k == m
  {
    if displayCount <= 0 then 0 else if displayCount < m then displayCount else m
  }

  datatype Summary = Summary(
    freq: map<int, nat>,
    sorted: seq<int>,
    mean: real,
    variance: real,
    min: real,
    max: real,
    median: Option<real>)

  /** `reduce((sum, x) => sum + Math.pow(x - mean, 2), 0) / m`. */
  function PopulationVariance(s: seq<real>): real
    requires s != []
  {
    SumSquaredDeviations(s, Mean(s)) / |s| as real
  }

  /** The population variance is never negative, and is 0 exactly when every
      value equals the mean. */
  lemma PopulationVarianceNonNegative(s: seq<real>)
    requires s != []
    ensures PopulationVariance(s) >= 0.0
    ensures PopulationVariance(s) == 0.0 <==> forall i :: 0 <= i < |s| ==> s[i] == Mean(s)
  {
    SumSquaredDeviationsNonNegative(s, Mean(s));
    QuotientSign(SumSquaredDeviations(s, Mean(s)), |s| as real);
    SumSquaredDeviationsZero(s, Mean(s));
  }

  /** The least and the greatest of the values bound every final value. */
  lemma ExtremesOfFinals(finals: seq<int>, xs: seq<real>)
    requires finals != [] && xs == AsReals(finals)
    ensures forall i :: 0 <= i < |finals| ==> Min(xs) <= finals[i] as real <= Max(xs)
  {
    forall i | 0 <= i < |finals|
      ensures Min(xs) <= finals[i] as real <= Max(xs)
    {
      assert xs[i] == finals[i] as real;
    }
  }

  /** The statistics of the final values `finals` (at least one). */
  function Summarize(finals: seq<int>): (r: Summary)
    requires finals != []
    ensures forall v :: v in r.freq <==> v in finals
    ensures forall v :: Lookup(r.freq, v) == multiset(finals)[v]
    ensures StrictlyAscending(r.sorted)
    ensures forall v :: v in r.sorted <==> v in finals
    ensures SumLookups(r.sorted, r.freq) == |finals|
    ensures r.mean == Mean(AsReals(finals))
    ensures r.variance == PopulationVariance(AsReals(finals)) && r.variance >= 0.0
    ensures r.min in AsReals(finals) && r.max in AsReals(finals)
    ensures forall i :: 0 <= i < |finals| ==> r.min <= finals[i] as real <= r.max
    ensures r.median == Median(AsReals(finals))
    ensures r.median.Some? && r.min <= r.median.value <= r.max
  {
    var xs := AsReals(finals);
    FrequencySumsToLength(finals);
    PopulationVarianceNonNegative(xs);
    var median := Median(xs);
    assert median.Some? && Min(xs) <= median.value <= Max(xs);
    ExtremesOfFinals(finals, xs);
    Summary(Frequency(finals), SortedKeys(finals), Mean(xs), PopulationVariance(xs),
      Min(xs), Max(xs), median)
  }
}
