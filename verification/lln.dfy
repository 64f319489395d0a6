/** The law-of-large-numbers page (hw4.js): m trajectories of n Bernoulli(p)
    trials advance one trial at a time, each keeping its success count and
    the running success frequency after every trial. The page's global
    `simState` is a `State` value, each handler is a function from the old
    state to the new one, the uniform draws `Math.random()` gives to the
    trajectories of one step are a function `u` from trajectory index to draw,
    and the timer that calls the next step is left to the caller. */
module LawOfLargeNumbers {
  import opened Wrappers
  import opened RealSeqs

  /** One trajectory: its successes so far and the frequency after every
      trial, starting with the 0 pushed at the start. */
  datatype Trajectory = Trajectory(successes: nat, frequencies: seq<real>)

  datatype State = State(
    m: int,
    n: int,
    p: real,
    trajectories: seq<Trajectory>,
    currentStep: nat,
    isRunning: bool,
    isPaused: bool)

  /** The page's initial state: a fair coin, 50 trajectories of 500 trials,
      nothing started. */
  const Initial: State := State(50, 500, 0.5, [], 0, false, false)

  /** The frequency after `step` trials with `successes` successes; 0 before
      the first trial. */
  function Share(successes: nat, step: nat): real {
    if step == 0 then 0.0 else successes as real / step as real
  }

  /** What every trajectory satisfies after `step` trials. */
  predicate TrajectoryValid(t: Trajectory, step: nat) {
    && t.successes <= step
    && |t.frequencies| == step + 1
    && t.frequencies[0] == 0.0
    && t.frequencies[step] == Share(t.successes, step)
    && forall k :: 0 <= k <= step ==> 0.0 <= t.frequencies[k] <= 1.0
  }

  /** The invariant every handler keeps: the step never passes n, the
      probability is a probability, the trajectories are either none (before
      a start or after a reset) or the m of the current run, and each of them
      is valid at the current step. */
  predicate Valid(s: State) {
    && s.currentStep <= s.n
    && 0.0 <= s.p <= 1.0
    && (s.trajectories == [] || |s.trajectories| == s.m)
    && forall j :: 0 <= j < |s.trajectories| ==> TrajectoryValid(s.trajectories[j], s.currentStep)
  }

  lemma InitialValid()
    ensures Valid(Initial) && !Initial.isRunning && Initial.trajectories == []
  {
  }

  /** `updateExperimentInfo`: the coin has p = 1/2, the die (rolling a six)
      p = 1/6. */
  function ChooseExperiment(s: State, coin: bool): (r: State)
    ensures r == s.(p := r.p)
    ensures coin ==> r.p == 0.5
    ensures !coin ==> r.p * 6.0 == 1.0
    ensures Valid(s) ==> Valid(r)
  {
    s.(p := if coin then 0.5 else 1.0 / 6.0)
  }

  /** `startSimulation`'s range checks on m and n. */
  function ValidateStart(m: int, n: int): (error: Option<string>)
    ensures error.None? <==> 1 <= m <= 200 && 10 <= n <= 2000
    ensures (m < 1 || m > 200) ==> error == Some("Trajectories: 1-200")
    ensures 1 <= m <= 200 && (n < 10 || n > 2000) ==> error == Some("Trials: 10-2000")
  {
    if m < 1 || m > 200 then Some("Trajectories: 1-200")
    else if n < 10 || n > 2000 then Some("Trials: 10-2000")
    else None
  }

  /** The state `startSimulation` sets up before its first step: m fresh
      trajectories, step 0, running and not paused. */
  function Begin(s: State, m: nat, n: nat): (r: State)
    ensures r.m == m && r.n == n && r.p == s.p
    ensures |r.trajectories| == m && r.currentStep == 0 && r.isRunning && !r.isPaused
    ensures forall j :: 0 <= j < m ==> r.trajectories[j] == Trajectory(0, [0.0])
    ensures 0.0 <= s.p <= 1.0 ==> Valid(r)
  {
    State(m, n, s.p, seq(m, j => Trajectory(0, [0.0])), 0, true, false)
  }

  /** One trial of one trajectory: a success when the draw is below p, then
      the new frequency appended. */
  function Advance(t: Trajectory, u: real, p: real, step: nat): (r: Trajectory)
    requires step > 0
    ensures r.successes == t.successes + (if u < p then 1 else 0)
    ensures r.frequencies == t.frequencies + [Share(r.successes, step)]
  {
    var successes := if u < p then t.successes + 1 else t.successes;
    Trajectory(successes, t.frequencies + [successes as real / step as real])
  }

  /** A frequency of at most as many successes as trials is in [0, 1]. */
  lemma ShareInUnit(successes: nat, step: nat)
    requires successes <= step
    ensures 0.0 <= Share(successes, step) <= 1.0
  {
    if step > 0 {
      QuotientSign(successes as real, step as real);
      assert successes as real / step as real <= step as real / step as real;
    }
  }

  lemma AdvanceValid(t: Trajectory, u: real, p: real, step: nat)
    requires TrajectoryValid(t, step)
    ensures TrajectoryValid(Advance(t, u, p, step + 1), step + 1)
  {
    var r := Advance(t, u, p, step + 1);
    ShareInUnit(r.successes, step + 1);
    assert forall k :: 0 <= k <= step ==> r.frequencies[k] == t.frequencies[k];
  }

  /** `runSimulationStep`: nothing while stopped or paused; once n trials are
      done it completes the run (`completeSimulation` clears the running
      flag); otherwise every trajectory makes one more trial with its draw
      `u(j)`. */
  function Step(s: State, u: nat -> real): (r: State)
    ensures !s.isRunning || s.isPaused ==> r == s
    ensures s.isRunning && !s.isPaused && s.currentStep >= s.n ==> r == s.(isRunning := false)
    ensures s.isRunning && !s.isPaused && s.currentStep < s.n ==>
      && r == s.(currentStep := s.currentStep + 1, trajectories := r.trajectories)
      && |r.trajectories| == |s.trajectories|
      && forall j :: 0 <= j < |s.trajectories| ==>
           r.trajectories[j] == Advance(s.trajectories[j], u(j), s.p, s.currentStep + 1)
  {
    if !s.isRunning || s.isPaused then s
    else if s.currentStep >= s.n then s.(isRunning := false)
    else
      var step := s.currentStep + 1;
      s.(currentStep := step,
         trajectories := seq(|s.trajectories|, j requires 0 <= j < |s.trajectories| => Advance(s.trajectories[j], u(j), s.p, step)))
  }

  /** Every step keeps the invariant: successes never exceed trials, there is
      one frequency per trial plus the initial 0, and every frequency is in
      [0, 1]. */
  lemma StepPreservesValid(s: State, u: nat -> real)
    requires Valid(s)
    ensures Valid(Step(s, u))
  {
    if s.isRunning && !s.isPaused && s.currentStep < s.n {
      var r := Step(s, u);
      forall j | 0 <= j < |r.trajectories|
        ensures TrajectoryValid(r.trajectories[j], r.currentStep)
      {
        AdvanceValid(s.trajectories[j], u(j), s.p, s.currentStep);
      }
    }
  }

  /** A step never rewrites history: every frequency recorded before it is
      still there. */
  lemma StepKeepsHistory(s: State, u: nat -> real, j: nat)
    requires Valid(s) && j < |s.trajectories|
    ensures j < |Step(s, u).trajectories|
    ensures Step(s, u).trajectories[j].frequencies[..s.currentStep + 1] == s.trajectories[j].frequencies
  {
  }

  /** `startSimulation`: an out-of-range m or n leaves the state alone and
      reports the message; otherwise the run is set up and its first step
      taken. */
  function Start(s: State, m: int, n: int, u: nat -> real): (r: (State, Option<string>))
    ensures r.1 == ValidateStart(m, n)
    ensures r.1.Some? ==> r.0 == s
    ensures r.1.None? ==> r.0 == Step(Begin(s, m, n), u)
    ensures r.1.None? ==> r.0.currentStep == 1 && r.0.isRunning && |r.0.trajectories| == m
  {
    var error := ValidateStart(m, n);
    if error.Some? then (s, error) else (Step(Begin(s, m, n), u), None)
  }

  lemma StartPreservesValid(s: State, m: int, n: int, u: nat -> real)
    requires Valid(s)
    ensures Valid(Start(s, m, n, u).0)
  {
    if ValidateStart(m, n).None? {
      StepPreservesValid(Begin(s, m, n), u);
    }
  }

  /** `togglePause`: flips the pause flag; resuming takes a step at once. */
  function TogglePause(s: State, u: nat -> real): (r: State)
    ensures !s.isPaused ==> r == s.(isPaused := true)
    ensures s.isPaused ==> r == Step(s.(isPaused := false), u)
  {
    var t := s.(isPaused := !s.isPaused);
    if t.isPaused then t else Step(t, u)
  }

  lemma TogglePausePreservesValid(s: State, u: nat -> real)
    requires Valid(s)
    ensures Valid(TogglePause(s, u))
  {
    StepPreservesValid(s.(isPaused := false), u);
  }

  /** `resetSimulation`: back to step 0, stopped, unpaused, no trajectories;
      m, n and p stay. */
  function Reset(s: State): (r: State)
    ensures r.currentStep == 0 && !r.isRunning && !r.isPaused && r.trajectories == []
    ensures r.m == s.m && r.n == s.n && r.p == s.p
    ensures Valid(s) ==> Valid(r)
  {
    s.(currentStep := 0, isRunning := false, isPaused := false, trajectories := [])
  }

  /** Steps taken one after another, one draw function per step. */
  function Run(s: State, draws: seq<nat -> real>): State
    decreases |draws|
  {
    if draws == [] then s else Run(Step(s, draws[0]), draws[1..])
  }

  /** Left unpaused, a valid running simulation ends: after n − step more
      trials and one completing step it has stopped with all n trials done. */
  lemma {:induction false} RunCompletes(s: State, draws: seq<nat -> real>)
    requires Valid(s) && s.isRunning && !s.isPaused
    requires |draws| == s.n - s.currentStep + 1
    ensures !Run(s, draws).isRunning
    ensures Run(s, draws).currentStep == s.n
    ensures Valid(Run(s, draws))
    decreases |draws|
  {
    var t := Step(s, draws[0]);
    StepPreservesValid(s, draws[0]);
    if s.currentStep < s.n {
      RunCompletes(t, draws[1..]);
    } else {
      assert draws[1..] == [];
    }
  }

  /** `Math.min(15, Math.max(5, Math.floor(m / 4)))`: between 5 and 15
      histogram bins, a quarter of the trajectories where that is in range. */
  function BinCount(m: int): (bins: int)
    ensures 5 <= bins <= 15
    ensures 5 <= m / 4 <= 15 ==> bins == m / 4
    ensures m < 20 ==> bins == 5
    ensures m >= 64 ==> bins == 15
  {
    if m / 4 < 5 then 5 else if m / 4 > 15 then 15 else m / 4
  }

  /** `Math.min(bins - 1, Math.max(0, k))`. */
  function Clamp(k: int, bins: int): (i: int)
    requires bins >= 1
    ensures 0 <= i < bins
    ensures 0 <= k < bins ==> i == k
    ensures k < 0 ==> i == 0
    ensures k >= bins ==> i == bins - 1
  {
    if k < 0 then 0 else if k > bins - 1 then bins - 1 else k
  }

  /** The bin of frequency f for bins of width bw starting at lo. */
  function BinIndex(f: real, lo: real, bw: real, bins: int): (i: int)
    requires bw > 0.0 && bins >= 1
    ensures 0 <= i < bins
  {
    Clamp(((f - lo) / bw).Floor, bins)
  }

  lemma DivideMonotone(a: real, b: real, c: real)
    requires a <= b && c > 0.0
    ensures a / c <= b / c
  {
    QuotientSign(b - a, c);
    assert b / c - a / c == (b - a) / c;
  }

  /** Larger frequencies never land in lower bins. */
  lemma BinIndexMonotone(f: real, g: real, lo: real, bw: real, bins: int)
    requires bw > 0.0 && bins >= 1 && f <= g
    ensures BinIndex(f, lo, bw, bins) <= BinIndex(g, lo, bw, bins)
  {
    DivideMonotone(f - lo, g - lo, bw);
  }

  /** Counts per bin: `counts[idx]++` for every index, in order. */
  function Tally(idxs: seq<int>, bins: nat): (counts: seq<nat>)
    requires forall k :: 0 <= k < |idxs| ==> 0 <= idxs[k] < bins
    ensures |counts| == bins
    decreases |idxs|
  {
    if idxs == [] then seq(bins, i => 0)
    else
      var init := idxs[..|idxs| - 1];
      var last := idxs[|idxs| - 1];
      var counts := Tally(init, bins);
      counts[last := counts[last] + 1]
  }

  function SumNats(s: seq<nat>): nat
    decreases |s|
  {
    if s == [] then 0 else SumNats(s[..|s| - 1]) + s[|s| - 1]
  }

  lemma {:induction false} SumNatsZero(bins: nat)
    ensures SumNats(seq(bins, i => 0)) == 0
    decreases bins
  {
    if bins > 0 {
      assert seq(bins, i => 0)[..bins - 1] == seq(bins - 1, i => 0);
      SumNatsZero(bins - 1);
    }
  }

  /** Raising one entry raises the total by the same amount. */
  lemma {:induction false} SumNatsIncrement(s: seq<nat>, k: nat)
    requires k < |s|
    ensures SumNats(s[k := s[k] + 1]) == SumNats(s) + 1
    decreases |s|
  {
    var t := s[k := s[k] + 1];
    if k < |s| - 1 {
      assert t[..|t| - 1] == s[..|s| - 1][k := s[k] + 1];
      SumNatsIncrement(s[..|s| - 1], k);
    } else {
      assert t[..|t| - 1] == s[..|s| - 1];
    }
  }

  /** Bin i counts exactly the indices equal to i, and the counts add up to
      the number of indices. */
  lemma TallyCounts(idxs: seq<int>, bins: nat)
    requires forall k :: 0 <= k < |idxs| ==> 0 <= idxs[k] < bins
    ensures forall i :: 0 <= i < bins ==> Tally(idxs, bins)[i] == multiset(idxs)[i]
    ensures SumNats(Tally(idxs, bins)) == |idxs|
  {
    forall i | 0 <= i < bins
      ensures Tally(idxs, bins)[i] == multiset(idxs)[i]
    {
      TallyBin(idxs, bins, i);
    }
    TallySum(idxs, bins);
  }

  lemma {:induction false} TallyBin(idxs: seq<int>, bins: nat, i: int)
    requires forall k :: 0 <= k < |idxs| ==> 0 <= idxs[k] < bins
    requires 0 <= i < bins
    ensures Tally(idxs, bins)[i] == multiset(idxs)[i]
    decreases |idxs|
  {
    if idxs != [] {
      var init := idxs[..|idxs| - 1];
      var last := idxs[|idxs| - 1];
      assert idxs == init + [last];
      TallyBin(init, bins, i);
      assert multiset(idxs) == multiset(init) + multiset{last};
    }
  }

  lemma {:induction false} TallySum(idxs: seq<int>, bins: nat)
    requires forall k :: 0 <= k < |idxs| ==> 0 <= idxs[k] < bins
    ensures SumNats(Tally(idxs, bins)) == |idxs|
    decreases |idxs|
  {
    if idxs == [] {
      SumNatsZero(bins);
    } else {
      var init := idxs[..|idxs| - 1];
      TallySum(init, bins);
      SumNatsIncrement(Tally(init, bins), idxs[|idxs| - 1]);
    }
  }

  /** What `drawHistogram` plots: the bin range [lo, hi], the bin count and
      the number of final frequencies per bin. */
  datatype Histogram = Histogram(lo: real, hi: real, bins: int, counts: seq<nat>)

  /** The current frequency of every trajectory. */
  function CurrentFrequencies(s: State): (fs: seq<real>)
    requires Valid(s)
    ensures |fs| == |s.trajectories|
    ensures forall j :: 0 <= j < |fs| ==> 0.0 <= fs[j] <= 1.0
  {
    seq(|s.trajectories|, j requires 0 <= j < |s.trajectories| => s.trajectories[j].frequencies[s.currentStep])
  }

  /** `Math.max(0, min - 0.05)` and `Math.min(1, max + 0.05)`. */
  function RangeLow(fs: seq<real>): real
    requires fs != []
  {
    if Min(fs) - 0.05 > 0.0 then Min(fs) - 0.05 else 0.0
  }

  function RangeHigh(fs: seq<real>): real
    requires fs != []
  {
    if Max(fs) + 0.05 < 1.0 then Max(fs) + 0.05 else 1.0
  }

  /** The bin range of frequencies in [0, 1] is at least 0.05 wide, so the
      bin width is positive and no division by zero happens. */
  lemma RangeWide(fs: seq<real>)
    requires fs != [] && forall j :: 0 <= j < |fs| ==> 0.0 <= fs[j] <= 1.0
    ensures 0.0 <= RangeLow(fs) && RangeHigh(fs) <= 1.0 && RangeHigh(fs) - RangeLow(fs) >= 0.05
    ensures forall j :: 0 <= j < |fs| ==> RangeLow(fs) <= fs[j] <= RangeHigh(fs)
  {
    assert Min(fs) <= Max(fs) by { assert Min(fs) <= fs[0] <= Max(fs); }
  }

  /** The bin of every frequency. */
  function BinIndices(fs: seq<real>, lo: real, bw: real, bins: int): (idxs: seq<int>)
    requires bw > 0.0 && bins >= 1
    ensures |idxs| == |fs|
    ensures forall k :: 0 <= k < |idxs| ==> idxs[k] == BinIndex(fs[k], lo, bw, bins)
    ensures forall k :: 0 <= k < |idxs| ==> 0 <= idxs[k] < bins
  {
    seq(|fs|, j requires 0 <= j < |fs| => BinIndex(fs[j], lo, bw, bins))
  }

  /** The histogram of frequencies in [0, 1] over `bins` bins spanning the
      widened range of the frequencies; every frequency is counted once. */
  function BinFrequencies(fs: seq<real>, bins: int): (h: Histogram)
    requires fs != [] && forall j :: 0 <= j < |fs| ==> 0.0 <= fs[j] <= 1.0
    requires bins >= 1
    ensures 0.0 <= h.lo < h.hi <= 1.0
    ensures h.bins == bins && |h.counts| == bins
    ensures SumNats(h.counts) == |fs|
    ensures forall j :: 0 <= j < |fs| ==> h.lo <= fs[j] <= h.hi
  {
    var lo, hi := RangeLow(fs), RangeHigh(fs);
    RangeWide(fs);
    var bw := (hi - lo) / bins as real;
    QuotientSign(hi - lo, bins as real);
    var idxs := BinIndices(fs, lo, bw, bins);
    TallyCounts(idxs, bins);
    Histogram(lo, hi, bins, Tally(idxs, bins))
  }

  /** `drawHistogram`: nothing before the start or with no trajectories;
      otherwise the current frequencies go into between 5 and 15 bins
      spanning [max(0, min − 0.05), min(1, max + 0.05)], each counted in
      exactly one bin. */
  function HistogramOf(s: State): (h: Option<Histogram>)
    requires Valid(s)
    ensures h.Some? <==> s.trajectories != [] && s.currentStep > 0
    ensures h.Some? ==> 0.0 <= h.value.lo < h.value.hi <= 1.0
    ensures h.Some? ==> 5 <= h.value.bins <= 15 && |h.value.counts| == h.value.bins
    ensures h.Some? ==> SumNats(h.value.counts) == |s.trajectories|
    ensures h.Some? ==> forall j :: 0 <= j < |s.trajectories| ==>
      h.value.lo <= CurrentFrequencies(s)[j] <= h.value.hi
  {
    if s.trajectories == [] || s.currentStep == 0 then None
    else Some(BinFrequencies(CurrentFrequencies(s), BinCount(s.m)))
  }
}
