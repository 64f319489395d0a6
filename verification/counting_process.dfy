/** The Poisson page's Bernoulli counting process (hw10.js
    `simulateCountingProcess`). The interval [0, T] is cut into n subintervals
    of width dt = T / n, and an event happens in a subinterval with probability
    p = λ·dt. The uniform draws that `Math.random()` would supply are given as
    one sequence of n draws per trajectory, so every trajectory is a fold over
    its draws. */
module CountingProcess {
  import opened Wrappers
  import opened RealSeqs
  import opened FrequencyTable
  import opened Moments
  import opened GoodnessOfFit
  import opened Discrete
  import opened FinalSummary

  /** `runSimulation`'s range checks, in the order the page makes them: the
      message of the first failing check, or `None` when the parameters are
      accepted. Accepted parameters give a positive interval, rate,
      subinterval count and trajectory count. */
  function ValidateParameters(T: real, rate: real, n: int, m: int): (error: Option<string>)
    ensures error.None? ==> T > 0.0 && rate > 0.0 && n > 0 && m > 0
    ensures error.None? <==> 0.1 <= T <= 10.0 && 0.5 <= rate <= 50.0 && 100 <= n <= 10000 && 50 <= m <= 5000
    ensures (T < 0.1 || T > 10.0) ==> error == Some("Time interval must be between 0.1 and 10")
  {
    if T < 0.1 || T > 10.0 then Some("Time interval must be between 0.1 and 10")
    else if rate < 0.5 || rate > 50.0 then Some("Rate parameter λ must be between 0.5 and 50")
    else if n < 100 || n > 10000 then Some("Subintervals must be between 100 and 10000")
    else if m < 50 || m > 5000 then Some("Trajectories must be between 50 and 5000")
    else None
  }

  /** One subinterval's increment: an event happens exactly when the draw is
      below p. */
  function Increment(u: real, p: real): nat {
    if u < p then 1 else 0
  }

  /** The number of events among the draws, accumulated left to right as
      `currentCount` is; never more than the number of subintervals. */
  function Events(draws: seq<real>, p: real): (c: nat)
    ensures c <= |draws|
    decreases |draws|
  {
    if draws == [] then 0 else Events(draws[..|draws| - 1], p) + Increment(draws[|draws| - 1], p)
  }

  /** The running counts `[0, c₁, …, cₙ]` that one trajectory pushes to
      `path`: entry i is the number of events in the first i subintervals. */
  function CountPath(draws: seq<real>, p: real): (path: seq<nat>)
    ensures |path| == |draws| + 1 && path[0] == 0 && path[|draws|] == Events(draws, p)
  {
    assert draws[..|draws|] == draws;
    seq(|draws| + 1, i requires 0 <= i <= |draws| => Events(draws[..i], p))
  }

  /** Each step of a counting path adds 1 exactly when the draw is below p. */
  lemma CountPathSteps(draws: seq<real>, p: real)
    ensures forall i :: 0 <= i < |draws| ==>
      CountPath(draws, p)[i + 1] == CountPath(draws, p)[i] + Increment(draws[i], p)
  {
    assert forall i :: 0 <= i < |draws| ==> draws[..i + 1][..i] == draws[..i];
  }

  /** Appending a draw extends the path by one count. */
  lemma CountPathAppend(a: seq<real>, x: real, p: real)
    ensures CountPath(a + [x], p) == CountPath(a, p) + [Events(a, p) + Increment(x, p)]
  {
    assert (a + [x])[..|a|] == a;
    assert forall k :: 0 <= k <= |a| ==> (a + [x])[..k] == a[..k];
  }

  /** How many draws fall below p, counted from the front: an independent
      definition of the number of events. */
  function Successes(draws: seq<real>, p: real): nat
    decreases |draws|
  {
    if draws == [] then 0 else Increment(draws[0], p) + Successes(draws[1..], p)
  }

  lemma {:induction false} SuccessesAppend(a: seq<real>, x: real, p: real)
    ensures Successes(a + [x], p) == Successes(a, p) + Increment(x, p)
    decreases |a|
  {
    if a == [] {
      assert a + [x] == [x];
      assert [x][1..] == [];
    } else {
      assert (a + [x])[0] == a[0];
      assert (a + [x])[1..] == a[1..] + [x];
      SuccessesAppend(a[1..], x, p);
    }
  }

  /** The final count of a path is the number of draws below p. */
  lemma {:induction false} EventsAreSuccesses(draws: seq<real>, p: real)
    ensures Events(draws, p) == Successes(draws, p)
    decreases |draws|
  {
    if draws != [] {
      var init := draws[..|draws| - 1];
      EventsAreSuccesses(init, p);
      assert draws == init + [draws[|draws| - 1]];
      SuccessesAppend(init, draws[|draws| - 1], p);
    }
  }

  lemma {:induction false} CountPathBetween(draws: seq<real>, p: real, i: nat, j: nat)
    requires i <= j <= |draws|
    ensures CountPath(draws, p)[i] <= CountPath(draws, p)[j] <= CountPath(draws, p)[i] + (j - i)
    decreases j - i
  {
    if i < j {
      CountPathBetween(draws, p, i, j - 1);
      CountPathSteps(draws, p);
      assert CountPath(draws, p)[j] == CountPath(draws, p)[j - 1] + Increment(draws[j - 1], p);
    }
  }

  /** A counting path never decreases, and over k subintervals it rises by at
      most k; in particular every count is at most its index. */
  lemma CountPathMonotone(draws: seq<real>, p: real)
    ensures forall i, j :: 0 <= i <= j <= |draws| ==>
      CountPath(draws, p)[i] <= CountPath(draws, p)[j] <= CountPath(draws, p)[i] + (j - i)
    ensures forall i :: 0 <= i <= |draws| ==> CountPath(draws, p)[i] <= i
  {
    forall i, j | 0 <= i <= j <= |draws|
      ensures CountPath(draws, p)[i] <= CountPath(draws, p)[j] <= CountPath(draws, p)[i] + (j - i)
    {
      CountPathBetween(draws, p, i, j);
    }
    forall i | 0 <= i <= |draws|
      ensures CountPath(draws, p)[i] <= i
    {
      CountPathBetween(draws, p, 0, i);
    }
  }

  /** The index of the first draw below p, if there is one. */
  function FirstSuccess(draws: seq<real>, p: real): (r: Option<nat>)
    ensures r.Some? ==> r.value < |draws| && draws[r.value] < p && forall j :: 0 <= j < r.value ==> draws[j] >= p
    ensures r.None? ==> forall j :: 0 <= j < |draws| ==> draws[j] >= p
    decreases |draws|
  {
    if draws == [] then None
    else if draws[0] < p then Some(0)
    else
      assert forall j :: 1 <= j < |draws| ==> draws[1..][j - 1] == draws[j];
      match FirstSuccess(draws[1..], p)
      case None => None
      case Some(i) => Some(i + 1)
  }

  /** One more draw changes the first success only when there was none. */
  lemma {:induction false} FirstSuccessAppend(a: seq<real>, x: real, p: real)
    ensures FirstSuccess(a + [x], p) ==
      match FirstSuccess(a, p)
      case Some(i) => Some(i)
      case None => if x < p then Some(|a|) else None
    decreases |a|
  {
    if a == [] {
      assert a + [x] == [x];
      assert [x][1..] == [];
    } else {
      assert (a + [x])[0] == a[0];
      assert (a + [x])[1..] == a[1..] + [x];
      FirstSuccessAppend(a[1..], x, p);
    }
  }

  /** The time a trajectory pushes to `firstEventTimes`: the right end
      `(i + 1)·dt` of the first subinterval with an event, or T when there is
      none. */
  function FirstEventTime(draws: seq<real>, p: real, dt: real, T: real): real {
    match FirstSuccess(draws, p)
    case Some(i) => EventTime(i, dt)
    case None => T
  }

  /** `(i + 1) * dt`, the right end of subinterval i. */
  function EventTime(i: nat, dt: real): real {
    (i + 1) as real * dt
  }

  lemma TimeOfStep(k: nat, n: nat, T: real)
    requires 0 < k <= n && T > 0.0
    ensures 0.0 < k as real * (T / n as real) <= T
  {
    var dt := T / n as real;
    assert dt > 0.0;
    assert n as real * dt == T;
    assert (n - k) as real * dt >= 0.0;
  }

  /** With dt = T / n, the first event time lies in (0, T]. */
  lemma FirstEventTimeInRange(draws: seq<real>, p: real, T: real)
    requires |draws| > 0 && T > 0.0
    ensures 0.0 < FirstEventTime(draws, p, T / |draws| as real, T) <= T
  {
    match FirstSuccess(draws, p)
    case Some(i) => TimeOfStep(i + 1, |draws|, T);
      assert EventTime(i, T / |draws| as real) == (i + 1) as real * (T / |draws| as real);
    case None =>
  }

  /** One more draw fixes the first event time only when there was no event
      yet. */
  lemma FirstEventTimeAppend(a: seq<real>, x: real, p: real, dt: real, T: real)
    ensures FirstSuccess(a + [x], p).Some? <==> FirstSuccess(a, p).Some? || x < p
    ensures FirstEventTime(a + [x], p, dt, T) ==
      if FirstSuccess(a, p).Some? then FirstEventTime(a, p, dt, T)
      else if x < p then EventTime(|a|, dt)
      else T
  {
    FirstSuccessAppend(a, x, p);
  }

  /** The inner loop of one trajectory: it builds the path, the final count
      and the first event time together, as the page does. */
  method Trajectory(draws: seq<real>, p: real, dt: real, T: real) returns (path: seq<nat>, count: nat, firstTime: real)
    ensures path == CountPath(draws, p)
    ensures count == path[|draws|] == Successes(draws, p)
    ensures firstTime == FirstEventTime(draws, p, dt, T)
  {
    path := [0];
    count := 0;
    var found := false;
    firstTime := T;
    var i := 0;
    while i < |draws|
      invariant 0 <= i <= |draws|
      invariant path == CountPath(draws[..i], p)
      invariant count == Events(draws[..i], p)
      invariant found <==> FirstSuccess(draws[..i], p).Some?
      invariant firstTime == FirstEventTime(draws[..i], p, dt, T)
    {
      TrajectoryStep(draws, i, p, dt, T);
      if draws[i] < p {
        count := count + 1;
        if !found {
          firstTime := EventTime(i, dt);
          found := true;
        }
      }
      path := path + [count];
      i := i + 1;
    }
    if !found {
      firstTime := T;
    }
    assert draws[..|draws|] == draws;
    EventsAreSuccesses(draws, p);
  }

  /** What the draw at index i adds to the path, the count and the first
      event time of the draws before it. */
  lemma TrajectoryStep(draws: seq<real>, i: nat, p: real, dt: real, T: real)
    requires i < |draws|
    ensures CountPath(draws[..i + 1], p) == CountPath(draws[..i], p) + [Events(draws[..i + 1], p)]
    ensures Events(draws[..i + 1], p) == Events(draws[..i], p) + Increment(draws[i], p)
    ensures FirstSuccess(draws[..i + 1], p).Some? <==> FirstSuccess(draws[..i], p).Some? || draws[i] < p
    ensures FirstEventTime(draws[..i + 1], p, dt, T) ==
      if FirstSuccess(draws[..i], p).Some? then FirstEventTime(draws[..i], p, dt, T)
      else if draws[i] < p then EventTime(i, dt)
      else T
  {
    var a := draws[..i];
    assert draws[..i + 1] == a + [draws[i]];
    assert (a + [draws[i]])[..|a|] == a;
    CountPathAppend(a, draws[i], p);
    FirstEventTimeAppend(a, draws[i], p, dt, T);
  }

  /** The trajectories kept for the chart. */
  const Displayed := 50

  /** `theoreticalProbs[k] = poissonPMF(k, λT)` for every observed count, with
      `Math.exp(-λT)` supplied as `expNeg`. */
  function PoissonTable(keys: seq<int>, mean: real, expNeg: real): (theo: seq<Entry>)
    requires forall i :: 0 <= i < |keys| ==> keys[i] >= 0
    ensures |theo| == |keys|
    ensures forall i :: 0 <= i < |keys| ==> theo[i] == Entry(keys[i], PoissonPmf(keys[i], mean, expNeg))
    decreases |keys|
  {
    if keys == [] then []
    else
      var init := keys[..|keys| - 1];
      assert forall i :: 0 <= i < |init| ==> init[i] == keys[i];
      PoissonTable(init, mean, expNeg) + [Entry(keys[|keys| - 1], PoissonPmf(keys[|keys| - 1], mean, expNeg))]
  }

  lemma {:induction false} SumWithin(s: seq<real>, T: real)
    requires forall i :: 0 <= i < |s| ==> 0.0 < s[i] <= T
    ensures s != [] ==> 0.0 < Sum(s)
    ensures Sum(s) <= |s| as real * T
    decreases |s|
  {
    if s != [] {
      var init := s[..|s| - 1];
      assert forall i :: 0 <= i < |init| ==> init[i] == s[i];
      SumWithin(init, T);
    }
  }

  /** The mean of values in (0, T] lies in (0, T]. */
  lemma MeanWithin(s: seq<real>, T: real)
    requires s != [] && forall i :: 0 <= i < |s| ==> 0.0 < s[i] <= T
    ensures 0.0 < Mean(s) <= T
  {
    SumWithin(s, T);
    var n := |s| as real;
    assert Sum(s) / n <= (n * T) / n;
  }

  /** With a rate that is not positive every Poisson probability is 0, so no
      count has a positive expected frequency and the χ² statistic is 0. */
  lemma ChiSquareOfZeroRate(keys: seq<int>, emp: map<int, nat>, mean: real, expNeg: real, total: nat)
    requires StrictlyAscending(keys) && forall i :: 0 <= i < |keys| ==> keys[i] >= 0
    requires mean <= 0.0
    ensures ChiSquare(keys, emp, PoissonTable(keys, mean, expNeg), total) == 0.0
  {
    var theo := PoissonTable(keys, mean, expNeg);
    assert KeysAscending(theo);
    forall i | 0 <= i < |keys|
      ensures Expected(theo, total, keys[i]) <= 0.0
    {
      assert theo[i].key == keys[i];
    }
  }

  /** The outer loop over the m trajectories, with p = λ·dt. */
  method RunTrajectories(draws: seq<seq<real>>, p: real, dt: real, T: real)
    returns (trajectories: seq<seq<nat>>, finalCounts: seq<int>, firstEventTimes: seq<real>)
    ensures |trajectories| == Kept(Displayed, |draws|)
    ensures forall j :: 0 <= j < |trajectories| ==> trajectories[j] == CountPath(draws[j], p)
    ensures |finalCounts| == |draws|
    ensures forall j :: 0 <= j < |draws| ==> finalCounts[j] == Successes(draws[j], p) && 0 <= finalCounts[j] <= |draws[j]|
    ensures |firstEventTimes| == |draws|
    ensures forall j :: 0 <= j < |draws| ==> firstEventTimes[j] == FirstEventTime(draws[j], p, dt, T)
  {
    trajectories, finalCounts, firstEventTimes := [], [], [];
    var traj := 0;
    while traj < |draws|
      invariant 0 <= traj <= |draws|
      invariant |trajectories| == Kept(Displayed, traj)
      invariant forall j :: 0 <= j < |trajectories| ==> trajectories[j] == CountPath(draws[j], p)
      invariant |finalCounts| == traj
      invariant forall j :: 0 <= j < traj ==> finalCounts[j] == Successes(draws[j], p) && 0 <= finalCounts[j] <= |draws[j]|
      invariant |firstEventTimes| == traj
      invariant forall j :: 0 <= j < traj ==> firstEventTimes[j] == FirstEventTime(draws[j], p, dt, T)
    {
      var path, count, firstTime := Trajectory(draws[traj], p, dt, T);
      finalCounts := finalCounts + [count];
      firstEventTimes := firstEventTimes + [firstTime];
      if traj < Displayed {
        trajectories := trajectories + [path];
      }
      traj := traj + 1;
    }
  }

  /** Every first event time lies in (0, T], and so does their mean. */
  lemma FirstEventTimesInRange(draws: seq<seq<real>>, n: nat, p: real, T: real, times: seq<real>)
    requires n > 0 && T > 0.0 && |draws| > 0 && |times| == |draws|
    requires forall j :: 0 <= j < |draws| ==> |draws[j]| == n
    requires forall j :: 0 <= j < |draws| ==> times[j] == FirstEventTime(draws[j], p, Width(T, n), T)
    ensures forall j :: 0 <= j < |times| ==> 0.0 < times[j] <= T
    ensures 0.0 < Mean(times) <= T
  {
    forall j | 0 <= j < |times|
      ensures 0.0 < times[j] <= T
    {
      FirstEventTimeInRange(draws[j], p, T);
    }
    MeanWithin(times, T);
  }

  /** The observed counts lie in [0, n]. */
  lemma SortedCountsInRange(finalCounts: seq<int>, n: nat)
    requires finalCounts != [] && forall j :: 0 <= j < |finalCounts| ==> 0 <= finalCounts[j] <= n
    ensures forall i :: 0 <= i < |Summarize(finalCounts).sorted| ==> 0 <= Summarize(finalCounts).sorted[i] <= n
  {
    var sorted := Summarize(finalCounts).sorted;
    forall i | 0 <= i < |sorted|
      ensures 0 <= sorted[i] <= n
    {
      assert sorted[i] in sorted;
    }
  }

  /** `dt = T / n`, the width of a subinterval. */
  function Width(T: real, n: nat): real
    requires n > 0
  {
    T / n as real
  }

  /** `p = λ·dt`, the chance of an event in one subinterval. */
  function EventProbability(rate: real, T: real, n: nat): real
    requires n > 0
  {
    rate * Width(T, n)
  }

  /** The tables and test statistics over the final counts: the frequency
      table, its sorted keys, the Poisson probability of every observed count
      with mean `expectedCount`, and the KS and χ² statistics. */
  method CountStatistics(finalCounts: seq<int>, n: nat, expectedCount: real, expNeg: real)
    returns (summary: Summary, theo: seq<Entry>, ks: real, chi: real)
    requires finalCounts != [] && forall j :: 0 <= j < |finalCounts| ==> 0 <= finalCounts[j] <= n
    ensures summary == Summarize(finalCounts)
    ensures forall i :: 0 <= i < |summary.sorted| ==> 0 <= summary.sorted[i] <= n
    ensures theo == PoissonTable(summary.sorted, expectedCount, expNeg)
    ensures IsMaxDeviation(summary.sorted, summary.freq, theo, |finalCounts|, ks)
    ensures ExactMatch(summary.sorted, summary.freq, theo, |finalCounts|) ==> ks == 0.0
    ensures chi == ChiSquare(summary.sorted, summary.freq, theo, |finalCounts|)
    ensures ks >= 0.0 && chi >= 0.0
    ensures expectedCount <= 0.0 ==> chi == 0.0
  {
    summary := Summarize(finalCounts);
    SortedCountsInRange(finalCounts, n);
    theo := PoissonTable(summary.sorted, expectedCount, expNeg);
    ks := KsStatistic(summary.sorted, summary.freq, theo, |finalCounts|);
    chi := ChiSquare(summary.sorted, summary.freq, theo, |finalCounts|);
    if expectedCount <= 0.0 {
      ChiSquareOfZeroRate(summary.sorted, summary.freq, expectedCount, expNeg, |finalCounts|);
    }
  }

  datatype Simulation = Simulation(
    trajectories: seq<seq<nat>>,
    finalCounts: seq<int>,
    firstEventTimes: seq<real>,
    summary: Summary,
    expectedCount: real,
    theoreticalProbs: seq<Entry>,
    ksStatistic: real,
    chiSquare: real,
    meanFirstTime: real)

  /** `simulateCountingProcess(T, λ, n, m)` with `draws[j]` the n uniform draws
      of trajectory j (so m = |draws|) and `expNeg` standing for
      `Math.exp(-λT)`. */
  method SimulateCountingProcess(T: real, rate: real, n: nat, draws: seq<seq<real>>, expNeg: real)
    returns (r: Simulation)
    requires n > 0 && |draws| > 0
    requires forall j :: 0 <= j < |draws| ==> |draws[j]| == n
    ensures |r.trajectories| == Kept(Displayed, |draws|)
    ensures forall j :: 0 <= j < |r.trajectories| ==> r.trajectories[j] == CountPath(draws[j], EventProbability(rate, T, n))
    ensures |r.finalCounts| == |draws|
    ensures forall j :: 0 <= j < |draws| ==>
      r.finalCounts[j] == Successes(draws[j], EventProbability(rate, T, n)) && 0 <= r.finalCounts[j] <= n
    ensures |r.firstEventTimes| == |draws|
    ensures forall j :: 0 <= j < |draws| ==>
      r.firstEventTimes[j] == FirstEventTime(draws[j], EventProbability(rate, T, n), Width(T, n), T)
    ensures T > 0.0 ==> forall j :: 0 <= j < |draws| ==> 0.0 < r.firstEventTimes[j] <= T
    ensures r.meanFirstTime == Mean(r.firstEventTimes)
    ensures T > 0.0 ==> 0.0 < r.meanFirstTime <= T
    ensures r.summary == Summarize(r.finalCounts)
    ensures forall i :: 0 <= i < |r.summary.sorted| ==> 0 <= r.summary.sorted[i] <= n
    ensures r.expectedCount == rate * T
    ensures r.theoreticalProbs == PoissonTable(r.summary.sorted, rate * T, expNeg)
    ensures IsMaxDeviation(r.summary.sorted, r.summary.freq, r.theoreticalProbs, |draws|, r.ksStatistic)
    ensures ExactMatch(r.summary.sorted, r.summary.freq, r.theoreticalProbs, |draws|) ==> r.ksStatistic == 0.0
    ensures r.chiSquare == ChiSquare(r.summary.sorted, r.summary.freq, r.theoreticalProbs, |draws|)
    ensures r.ksStatistic >= 0.0 && r.chiSquare >= 0.0
    ensures rate * T <= 0.0 ==> r.chiSquare == 0.0
  {
    var dt := Width(T, n);
    var p := EventProbability(rate, T, n);
    var trajectories, finalCounts, firstEventTimes := RunTrajectories(draws, p, dt, T);
    var expectedCount := rate * T;
    var summary, theo, ks, chi := CountStatistics(finalCounts, n, expectedCount, expNeg);
    var meanFirstTime := Mean(firstEventTimes);
    if T > 0.0 {
      FirstEventTimesInRange(draws, n, p, T, firstEventTimes);
    }
    r := Simulation(trajectories, finalCounts, firstEventTimes, summary, expectedCount, theo, ks, chi, meanFirstTime);
  }
}
