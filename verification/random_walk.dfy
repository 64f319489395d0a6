/** The security random walk (hw7.js `simulateRandomWalks`): every week a
    system is breached with probability p (score −1) or stays secure (score
    +1), starting from 0. The uniform draws that `Math.random()` would supply
    are given as one sequence of n draws per trajectory. */
module RandomWalk {
  import opened Wrappers
  import opened RealSeqs
  import opened FrequencyTable
  import opened GoodnessOfFit
  import opened Discrete
  import opened FinalSummary

  /** `runSimulation`'s range checks, in the order the page makes them. The
      number of trajectories to display is not checked. */
  function ValidateParameters(n: int, m: int, p: real): (error: Option<string>)
    ensures error.None? ==> n > 0 && m > 0 && 0.0 <= p <= 1.0
    ensures error.None? <==> 5 <= n <= 500 && 10 <= m <= 50000 && 0.0 <= p <= 1.0
    ensures (n < 5 || n > 500) ==> error == Some("Weeks must be between 5 and 500")
  {
    if n < 5 || n > 500 then Some("Weeks must be between 5 and 500")
    else if m < 10 || m > 50000 then Some("Trajectories must be between 10 and 50000")
    else if p < 0.0 || p > 1.0 then Some("Breach probability must be between 0 and 1")
    else None
  }

  /** One week's change of score: −1 for a breach (draw below p), +1 otherwise. */
  function Step(u: real, p: real): int {
    if u < p then -1 else 1
  }

  /** `currentScore` after the given weeks, accumulated left to right. */
  function Score(draws: seq<real>, p: real): int
    decreases |draws|
  {
    if draws == [] then 0 else Score(draws[..|draws| - 1], p) + Step(draws[|draws| - 1], p)
  }

  /** The number of breached weeks, counted from the front: an independent
      count of the −1 steps. */
  function Breaches(draws: seq<real>, p: real): (k: nat)
    ensures k <= |draws|
    decreases |draws|
  {
    if draws == [] then 0 else (if draws[0] < p then 1 else 0) + Breaches(draws[1..], p)
  }

  lemma {:induction false} BreachesAppend(a: seq<real>, x: real, p: real)
    ensures Breaches(a + [x], p) == Breaches(a, p) + (if x < p then 1 else 0)
    decreases |a|
  {
    if a == [] {
      assert a + [x] == [x];
      assert [x][1..] == [];
    } else {
      assert (a + [x])[0] == a[0];
      assert (a + [x])[1..] == a[1..] + [x];
      BreachesAppend(a[1..], x, p);
    }
  }

  /** After n weeks with k breaches the score is (n − k) − k. */
  lemma {:induction false} ScoreFromBreaches(draws: seq<real>, p: real)
    ensures Score(draws, p) == |draws| - 2 * Breaches(draws, p)
    decreases |draws|
  {
    if draws != [] {
      var init := draws[..|draws| - 1];
      ScoreFromBreaches(init, p);
      assert draws == init + [draws[|draws| - 1]];
      BreachesAppend(init, draws[|draws| - 1], p);
    }
  }

  /** Every final score s satisfies |s| ≤ n and s ≡ n (mod 2), and the number
      of breaches is recovered as k = (n − s) / 2, a whole number in [0, n]. */
  lemma ScoreShape(draws: seq<real>, p: real)
    ensures -|draws| <= Score(draws, p) <= |draws|
    ensures (|draws| - Score(draws, p)) % 2 == 0
    ensures 0 <= (|draws| - Score(draws, p)) / 2 == Breaches(draws, p) <= |draws|
  {
    ScoreFromBreaches(draws, p);
  }

  /** The path `[0, s₁, …, sₙ]` that one trajectory pushes. */
  function WalkPath(draws: seq<real>, p: real): (path: seq<int>)
    ensures |path| == |draws| + 1 && path[0] == 0 && path[|draws|] == Score(draws, p)
  {
    assert draws[..|draws|] == draws;
    seq(|draws| + 1, i requires 0 <= i <= |draws| => Score(draws[..i], p))
  }

  /** Each step of a walk moves the score by −1 on a breach and +1 otherwise. */
  lemma WalkPathSteps(draws: seq<real>, p: real)
    ensures forall i :: 0 <= i < |draws| ==>
      WalkPath(draws, p)[i + 1] == WalkPath(draws, p)[i] + Step(draws[i], p)
  {
    assert forall i :: 0 <= i < |draws| ==> draws[..i + 1][..i] == draws[..i];
  }

  /** Every point of a walk lies within its week number of 0 and has the
      week number's parity. */
  lemma WalkPathBounds(draws: seq<real>, p: real)
    ensures forall i :: 0 <= i <= |draws| ==>
      -i <= WalkPath(draws, p)[i] <= i && (i - WalkPath(draws, p)[i]) % 2 == 0
  {
    forall i | 0 <= i <= |draws|
      ensures -i <= WalkPath(draws, p)[i] <= i && (i - WalkPath(draws, p)[i]) % 2 == 0
    {
      ScoreShape(draws[..i], p);
    }
  }

  lemma WalkPathAppend(a: seq<real>, x: real, p: real)
    ensures WalkPath(a + [x], p) == WalkPath(a, p) + [Score(a, p) + Step(x, p)]
  {
    assert (a + [x])[..|a|] == a;
    assert forall k :: 0 <= k <= |a| ==> (a + [x])[..k] == a[..k];
  }

  /** The inner loop of one trajectory. */
  method Trajectory(draws: seq<real>, p: real) returns (path: seq<int>, score: int)
    ensures path == WalkPath(draws, p)
    ensures score == path[|draws|] == |draws| - 2 * Breaches(draws, p)
  {
    path := [0];
    score := 0;
    var week := 0;
    while week < |draws|
      invariant 0 <= week <= |draws|
      invariant path == WalkPath(draws[..week], p)
      invariant score == Score(draws[..week], p)
    {
      assert draws[..week + 1] == draws[..week] + [draws[week]];
      WalkPathAppend(draws[..week], draws[week], p);
      score := score + (if draws[week] < p then -1 else 1);
      path := path + [score];
      week := week + 1;
    }
    assert draws[..|draws|] == draws;
    ScoreFromBreaches(draws, p);
  }

  /** The outer loop over the m trajectories. */
  method RunWalks(draws: seq<seq<real>>, p: real, displayCount: int)
    returns (trajectories: seq<seq<int>>, finalScores: seq<int>)
    ensures |trajectories| == Kept(displayCount, |draws|)
    ensures forall j :: 0 <= j < |trajectories| ==> trajectories[j] == WalkPath(draws[j], p)
    ensures |finalScores| == |draws|
    ensures forall j :: 0 <= j < |draws| ==> finalScores[j] == |draws[j]| - 2 * Breaches(draws[j], p)
  {
    trajectories, finalScores := [], [];
    var traj := 0;
    while traj < |draws|
      invariant 0 <= traj <= |draws|
      invariant |trajectories| == Kept(displayCount, traj)
      invariant forall j :: 0 <= j < |trajectories| ==> trajectories[j] == WalkPath(draws[j], p)
      invariant |finalScores| == traj
      invariant forall j :: 0 <= j < traj ==> finalScores[j] == |draws[j]| - 2 * Breaches(draws[j], p)
    {
      var path, score := Trajectory(draws[traj], p);
      finalScores := finalScores + [score];
      if traj < displayCount {
        trajectories := trajectories + [path];
      }
      traj := traj + 1;
    }
  }

  /** Whether `(n - score) / 2` is a whole number of breaches in [0, n]
      (`Number.isInteger(k) && k >= 0 && k <= n`). */
  predicate Reachable(n: nat, score: int) {
    (n - score) % 2 == 0 && 0 <= (n - score) / 2 <= n
  }

  /** `P(Sₙ = s) = C(n, k)·pᵏ·(1 − p)ⁿ⁻ᵏ` with k = (n − s) / 2 breaches. */
  function ScoreProbability(n: nat, p: real, score: int): real
    requires Reachable(n, score)
  {
    var k := (n - score) / 2;
    Binomial(n, k) * PowReal(p, k) * PowReal(1.0 - p, n - k)
  }

  /** The theoretical table: an entry for each score that n weeks can reach,
      in the order of the scores; unreachable scores get none. */
  function BinomialTable(scores: seq<int>, n: nat, p: real): (theo: seq<Entry>)
    ensures |theo| <= |scores|
    ensures forall i :: 0 <= i < |theo| ==>
      Reachable(n, theo[i].key) && theo[i].prob == ScoreProbability(n, p, theo[i].key)
    decreases |scores|
  {
    if scores == [] then []
    else
      var init, s := scores[..|scores| - 1], scores[|scores| - 1];
      assert scores == init + [s];
      var rest := BinomialTable(init, n, p);
      if Reachable(n, s) then rest + [Entry(s, ScoreProbability(n, p, s))] else rest
  }

  /** When every score is reachable, every score gets its entry, in place. */
  lemma {:induction false} BinomialTableComplete(scores: seq<int>, n: nat, p: real)
    requires forall i :: 0 <= i < |scores| ==> Reachable(n, scores[i])
    ensures |BinomialTable(scores, n, p)| == |scores|
    ensures forall i :: 0 <= i < |scores| ==> BinomialTable(scores, n, p)[i].key == scores[i]
    decreases |scores|
  {
    if scores != [] {
      var init, s := scores[..|scores| - 1], scores[|scores| - 1];
      assert forall i :: 0 <= i < |init| ==> init[i] == scores[i];
      BinomialTableComplete(init, n, p);
      assert Reachable(n, s);
      var rest := BinomialTable(init, n, p);
      assert BinomialTable(scores, n, p) == rest + [Entry(s, ScoreProbability(n, p, s))];
    }
  }

  /** A score reached with k breaches out of n weeks is reachable. */
  lemma BreachesReachable(n: nat, k: nat)
    requires k <= n
    ensures Reachable(n, n - 2 * k) && (n - (n - 2 * k)) / 2 == k
  {
    assert n - (n - 2 * k) == 2 * k;
  }

  /** The sorted keys of reachable final scores are reachable. */
  lemma SortedScoresReachable(finalScores: seq<int>, n: nat, sorted: seq<int>)
    requires forall j :: 0 <= j < |finalScores| ==> Reachable(n, finalScores[j])
    requires forall v :: v in sorted ==> v in finalScores
    ensures forall i :: 0 <= i < |sorted| ==> Reachable(n, sorted[i])
  {
    forall i | 0 <= i < |sorted|
      ensures Reachable(n, sorted[i])
    {
      assert sorted[i] in sorted;
    }
  }

  /** The tables and test statistics over the final scores. */
  method ScoreStatistics(finalScores: seq<int>, n: nat, p: real)
    returns (summary: Summary, theo: seq<Entry>, ks: real, chi: real)
    requires finalScores != []
    requires forall j :: 0 <= j < |finalScores| ==> Reachable(n, finalScores[j])
    ensures summary == Summarize(finalScores)
    ensures forall i :: 0 <= i < |summary.sorted| ==> Reachable(n, summary.sorted[i])
    ensures theo == BinomialTable(summary.sorted, n, p)
    ensures |theo| == |summary.sorted| && forall i :: 0 <= i < |theo| ==> theo[i].key == summary.sorted[i]
    ensures IsMaxDeviation(summary.sorted, summary.freq, theo, |finalScores|, ks)
    ensures ExactMatch(summary.sorted, summary.freq, theo, |finalScores|) ==> ks == 0.0
    ensures chi == ChiSquare(summary.sorted, summary.freq, theo, |finalScores|)
    ensures ks >= 0.0 && chi >= 0.0
  {
    summary := Summarize(finalScores);
    SortedScoresReachable(finalScores, n, summary.sorted);
    theo := BinomialTable(summary.sorted, n, p);
    BinomialTableComplete(summary.sorted, n, p);
    ks := KsStatistic(summary.sorted, summary.freq, theo, |finalScores|);
    chi := ChiSquare(summary.sorted, summary.freq, theo, |finalScores|);
  }

  datatype Simulation = Simulation(
    trajectories: seq<seq<int>>,
    finalScores: seq<int>,
    summary: Summary,
    theoreticalProbs: seq<Entry>,
    theoreticalMean: real,
    theoreticalVar: real,
    ksStatistic: real,
    chiSquare: real)

  /** `simulateRandomWalks(n, m, p, displayCount)` with `draws[j]` the n
      uniform draws of trajectory j (so m = |draws|). */
  method SimulateRandomWalks(n: nat, draws: seq<seq<real>>, p: real, displayCount: int) returns (r: Simulation)
    requires |draws| > 0
    requires forall j :: 0 <= j < |draws| ==> |draws[j]| == n
    ensures |r.trajectories| == Kept(displayCount, |draws|)
    ensures forall j :: 0 <= j < |r.trajectories| ==> r.trajectories[j] == WalkPath(draws[j], p)
    ensures |r.finalScores| == |draws|
    ensures forall j :: 0 <= j < |draws| ==> r.finalScores[j] == n - 2 * Breaches(draws[j], p)
    ensures forall j :: 0 <= j < |draws| ==>
      -(n as int) <= r.finalScores[j] <= n && (n - r.finalScores[j]) % 2 == 0
    ensures r.summary == Summarize(r.finalScores)
    ensures |r.theoreticalProbs| == |r.summary.sorted|
    ensures forall i :: 0 <= i < |r.summary.sorted| ==>
      r.theoreticalProbs[i].key == r.summary.sorted[i] && Reachable(n, r.summary.sorted[i]) &&
      r.theoreticalProbs[i].prob == ScoreProbability(n, p, r.summary.sorted[i])
    ensures r.theoreticalMean == n as real * (1.0 - 2.0 * p)
    ensures r.theoreticalVar == 4.0 * n as real * p * (1.0 - p)
    ensures IsMaxDeviation(r.summary.sorted, r.summary.freq, r.theoreticalProbs, |draws|, r.ksStatistic)
    ensures ExactMatch(r.summary.sorted, r.summary.freq, r.theoreticalProbs, |draws|) ==> r.ksStatistic == 0.0
    ensures r.chiSquare == ChiSquare(r.summary.sorted, r.summary.freq, r.theoreticalProbs, |draws|)
    ensures r.ksStatistic >= 0.0 && r.chiSquare >= 0.0
  {
    var trajectories, finalScores := RunWalks(draws, p, displayCount);
    forall j | 0 <= j < |draws|
      ensures Reachable(n, finalScores[j])
      ensures -(n as int) <= finalScores[j] <= n && (n - finalScores[j]) % 2 == 0
    {
      BreachesReachable(n, Breaches(draws[j], p));
    }
    var summary, theo, ks, chi := ScoreStatistics(finalScores, n, p);
    r := Simulation(trajectories, finalScores, summary, theo,
      n as real * (1.0 - 2.0 * p), 4.0 * n as real * p * (1.0 - p), ks, chi);
  }
}
