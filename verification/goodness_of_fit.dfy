/** The two goodness-of-fit statistics the Poisson and random-walk pages
    compute over a frequency table (hw10.js `computeKS`, `computeChiSquare`;
    hw7.js `computeKSStatistic`, `computeChiSquare`, which are the same code).
    `scores` are the table's keys in ascending order, `emp` the table, `theo`
    the theoretical probabilities as assigned and `total` the sample size. */
module GoodnessOfFit {
  import opened RealSeqs
  import opened FrequencyTable

  /** One `theoretical[key] = prob` assignment. */
  datatype Entry = Entry(key: int, prob: real)

  /** The theoretical table's keys, distinct as object keys are and in the
      ascending order the pages assign them. */
  predicate KeysAscending(theo: seq<Entry>) {
    forall i, j :: 0 <= i < j < |theo| ==> theo[i].key < theo[j].key
  }

  /** `theoretical[k] || 0`. */
  function ProbabilityOf(theo: seq<Entry>, k: int): (r: real)
    ensures (forall i :: 0 <= i < |theo| ==> theo[i].key != k) ==> r == 0.0
    ensures KeysAscending(theo) ==> forall i :: 0 <= i < |theo| && theo[i].key == k ==> r == theo[i].prob
  {
    if theo == [] then 0.0
    else if theo[0].key == k then theo[0].prob
    else
      assert forall i :: 1 <= i < |theo| ==> theo[1..][i - 1] == theo[i];
      ProbabilityOf(theo[1..], k)
  }

  /** The sum of the first `k` theoretical probabilities. */
  function ProbPrefix(theo: seq<Entry>, k: nat): real
    requires k <= |theo|
  {
    if k == 0 then 0.0 else ProbPrefix(theo, k - 1) + theo[k - 1].prob
  }

  /** The filter-and-reduce of `computeKS` over the first `k` entries: the
      probabilities of the keys not above `s`. */
  function CdfUpTo(theo: seq<Entry>, s: int, k: nat): real
    requires k <= |theo|
  {
    if k == 0 then 0.0
    else CdfUpTo(theo, s, k - 1) + (if theo[k - 1].key <= s then theo[k - 1].prob else 0.0)
  }

  /** The theoretical CDF at `s`. */
  function TheoreticalCdf(theo: seq<Entry>, s: int): real {
    CdfUpTo(theo, s, |theo|)
  }

  /** The empirical CDF after the first `k` scores, accumulated term by term. */
  function EmpiricalCdf(scores: seq<int>, emp: map<int, nat>, total: nat, k: nat): real
    requires total > 0 && k <= |scores|
  {
    if k == 0 then 0.0
    else EmpiricalCdf(scores, emp, total, k - 1) + Lookup(emp, scores[k - 1]) as real / total as real
  }

  /** The distance between the two CDFs at the `j`-th score. */
  function Deviation(scores: seq<int>, emp: map<int, nat>, theo: seq<Entry>, total: nat, j: nat): real
    requires total > 0 && j < |scores|
  {
    Abs(EmpiricalCdf(scores, emp, total, j + 1) - TheoreticalCdf(theo, scores[j]))
  }

  predicate NonNegativeProbs(theo: seq<Entry>) {
    forall i :: 0 <= i < |theo| ==> theo[i].prob >= 0.0
  }

  /** The table holds no more observations than the sample size. */
  predicate CountsWithin(scores: seq<int>, emp: map<int, nat>, total: nat) {
    SumLookups(scores, emp) <= total
  }

  /** Every score's count is exactly `total` times its theoretical
      probability, and the theoretical keys are the scores themselves. */
  predicate ExactMatch(scores: seq<int>, emp: map<int, nat>, theo: seq<Entry>, total: nat) {
    && StrictlyAscending(scores)
    && |theo| == |scores|
    && (forall i :: 0 <= i < |scores| ==> theo[i].key == scores[i])
    && (forall i :: 0 <= i < |scores| ==> Lookup(emp, scores[i]) as real == total as real * theo[i].prob)
  }

  /** `d` is the largest deviation between the two CDFs over the scores, or 0
      when there are none (every deviation is non-negative). */
  predicate IsMaxDeviation(scores: seq<int>, emp: map<int, nat>, theo: seq<Entry>, total: nat, d: real)
    requires total > 0
  {
    && d >= 0.0
    && (forall j :: 0 <= j < |scores| ==> Deviation(scores, emp, theo, total, j) <= d)
    && (d == 0.0 || exists j :: 0 <= j < |scores| && d == Deviation(scores, emp, theo, total, j))
  }

  /** The largest deviation is determined by the table: two values that both
      qualify are equal. */
  lemma MaxDeviationUnique(scores: seq<int>, emp: map<int, nat>, theo: seq<Entry>, total: nat, d1: real, d2: real)
    requires total > 0
    requires IsMaxDeviation(scores, emp, theo, total, d1)
    requires IsMaxDeviation(scores, emp, theo, total, d2)
    ensures d1 == d2
  {
    if d1 != 0.0 {
      var j :| 0 <= j < |scores| && d1 == Deviation(scores, emp, theo, total, j);
      assert d1 <= d2;
    }
    if d2 != 0.0 {
      var k :| 0 <= k < |scores| && d2 == Deviation(scores, emp, theo, total, k);
      assert d2 <= d1;
    }
  }

  /** `computeKS`: the largest deviation between the empirical and the
      theoretical CDF over the scores, or 0 when there are none. */
  method KsStatistic(scores: seq<int>, emp: map<int, nat>, theo: seq<Entry>, total: nat) returns (maxDiff: real)
    requires total > 0
    ensures maxDiff >= 0.0
    ensures forall j :: 0 <= j < |scores| ==> Deviation(scores, emp, theo, total, j) <= maxDiff
    ensures maxDiff == 0.0 || exists j :: 0 <= j < |scores| && maxDiff == Deviation(scores, emp, theo, total, j)
    ensures IsMaxDeviation(scores, emp, theo, total, maxDiff)
    ensures NonNegativeProbs(theo) && ProbPrefix(theo, |theo|) <= 1.0 && CountsWithin(scores, emp, total) ==>
      maxDiff <= 1.0
    ensures ExactMatch(scores, emp, theo, total) ==> maxDiff == 0.0
  {
    maxDiff := 0.0;
    var empiricalCdf := 0.0;
    var i := 0;
    while i < |scores|
      invariant 0 <= i <= |scores|
      invariant empiricalCdf == EmpiricalCdf(scores, emp, total, i)
      invariant maxDiff >= 0.0
      invariant forall j :: 0 <= j < i ==> Deviation(scores, emp, theo, total, j) <= maxDiff
      invariant maxDiff == 0.0 || exists j :: 0 <= j < i && maxDiff == Deviation(scores, emp, theo, total, j)
    {
      empiricalCdf := empiricalCdf + Lookup(emp, scores[i]) as real / total as real;
      var theoreticalCdf := TheoreticalCdf(theo, scores[i]);
      var diff := Abs(empiricalCdf - theoreticalCdf);
      assert diff == Deviation(scores, emp, theo, total, i);
      if diff > maxDiff {
        maxDiff := diff;
      }
      i := i + 1;
    }
    if NonNegativeProbs(theo) && ProbPrefix(theo, |theo|) <= 1.0 && CountsWithin(scores, emp, total) {
      if maxDiff != 0.0 {
        var j :| 0 <= j < |scores| && maxDiff == Deviation(scores, emp, theo, total, j);
        DeviationAtMostOne(scores, emp, theo, total, j);
      }
    }
    if ExactMatch(scores, emp, theo, total) {
      if maxDiff != 0.0 {
        var j :| 0 <= j < |scores| && maxDiff == Deviation(scores, emp, theo, total, j);
        DeviationZeroOnMatch(scores, emp, theo, total, j);
      }
    }
  }

  /** With non-negative probabilities, the theoretical CDF is between 0 and
      the total probability. */
  lemma {:induction false} CdfUpToBounds(theo: seq<Entry>, s: int, k: nat)
    requires NonNegativeProbs(theo) && k <= |theo|
    ensures 0.0 <= CdfUpTo(theo, s, k) <= ProbPrefix(theo, k)
  {
    if k > 0 {
      CdfUpToBounds(theo, s, k - 1);
    }
  }

  /** The empirical CDF is the running count divided by the sample size. */
  lemma {:induction false} EmpiricalCdfIsCountShare(scores: seq<int>, emp: map<int, nat>, total: nat, k: nat)
    requires total > 0 && k <= |scores|
    ensures EmpiricalCdf(scores, emp, total, k) == Share(SumLookups(scores[..k], emp), total)
  {
    if k > 0 {
      EmpiricalCdfIsCountShare(scores, emp, total, k - 1);
      assert scores[..k][..k - 1] == scores[..k - 1];
      ShareAdd(SumLookups(scores[..k - 1], emp), Lookup(emp, scores[k - 1]), total);
    }
  }

  /** `a / t` for counts. */
  function Share(a: nat, t: nat): real
    requires t > 0
  {
    a as real / t as real
  }

  lemma ShareAdd(a: nat, b: nat, t: nat)
    requires t > 0
    ensures Share(a, t) + b as real / t as real == Share(a + b, t)
  {
  }

  /** A part of a positive whole is a share in `[0, 1]`. */
  lemma ShareUnit(a: nat, t: nat)
    requires t > 0 && a <= t
    ensures 0.0 <= Share(a, t) <= 1.0
  {
  }

  lemma {:induction false} SumLookupsPrefix(scores: seq<int>, emp: map<int, nat>, k: nat)
    requires k <= |scores|
    ensures SumLookups(scores[..k], emp) <= SumLookups(scores, emp)
    decreases |scores| - k
  {
    if k < |scores| {
      SumLookupsPrefix(scores, emp, k + 1);
      assert scores[..k + 1][..k] == scores[..k];
    } else {
      assert scores[..k] == scores;
    }
  }

  lemma EmpiricalCdfBounds(scores: seq<int>, emp: map<int, nat>, total: nat, k: nat)
    requires total > 0 && k <= |scores| && SumLookups(scores, emp) <= total
    ensures 0.0 <= EmpiricalCdf(scores, emp, total, k) <= 1.0
  {
    SumLookupsPrefix(scores, emp, k);
    EmpiricalCdfIsCountShare(scores, emp, total, k);
    ShareUnit(SumLookups(scores[..k], emp), total);
  }

  /** Dividing `t · p` by a non-zero `t` gives `p` back. */
  lemma CancelFactor(x: real, t: real, p: real)
    requires t != 0.0 && x == t * p
    ensures x / t == p
  {
  }

  /** Each deviation lies in `[0, 1]` when both CDFs do. */
  lemma DeviationAtMostOne(scores: seq<int>, emp: map<int, nat>, theo: seq<Entry>, total: nat, j: nat)
    requires total > 0 && j < |scores|
    requires NonNegativeProbs(theo) && ProbPrefix(theo, |theo|) <= 1.0 && CountsWithin(scores, emp, total)
    ensures 0.0 <= Deviation(scores, emp, theo, total, j) <= 1.0
  {
    EmpiricalCdfBounds(scores, emp, total, j + 1);
    CdfUpToBounds(theo, scores[j], |theo|);
  }

  /** Under an exact match the empirical CDF after `k` scores is the sum of
      the first `k` probabilities. */
  lemma {:induction false} EmpiricalCdfOnMatch(scores: seq<int>, emp: map<int, nat>, theo: seq<Entry>, total: nat, k: nat)
    requires total > 0 && k <= |scores| && ExactMatch(scores, emp, theo, total)
    ensures EmpiricalCdf(scores, emp, total, k) == ProbPrefix(theo, k)
  {
    if k > 0 {
      EmpiricalCdfOnMatch(scores, emp, theo, total, k - 1);
      assert Lookup(emp, scores[k - 1]) as real == total as real * theo[k - 1].prob;
      CancelFactor(Lookup(emp, scores[k - 1]) as real, total as real, theo[k - 1].prob);
    }
  }

  /** With the scores as keys, ascending, the theoretical CDF at the `j`-th
      score takes exactly the first `j + 1` probabilities. */
  lemma {:induction false} CdfUpToOnMatch(scores: seq<int>, theo: seq<Entry>, j: nat, k: nat)
    requires StrictlyAscending(scores) && |theo| == |scores|
    requires forall i :: 0 <= i < |scores| ==> theo[i].key == scores[i]
    requires j < |scores| && k <= |theo|
    ensures CdfUpTo(theo, scores[j], k) == ProbPrefix(theo, if k <= j + 1 then k else j + 1)
  {
    if k > 0 {
      CdfUpToOnMatch(scores, theo, j, k - 1);
      if k - 1 > j {
        assert scores[j] < scores[k - 1];
      }
    }
  }

  lemma DeviationZeroOnMatch(scores: seq<int>, emp: map<int, nat>, theo: seq<Entry>, total: nat, j: nat)
    requires total > 0 && j < |scores| && ExactMatch(scores, emp, theo, total)
    ensures Deviation(scores, emp, theo, total, j) == 0.0
  {
    EmpiricalCdfOnMatch(scores, emp, theo, total, j + 1);
    CdfUpToOnMatch(scores, theo, j, |theo|);
  }

  /** The expected count of a score: `(theoretical[score] || 0) * total`. */
  function Expected(theo: seq<Entry>, total: nat, score: int): real {
    ProbabilityOf(theo, score) * total as real
  }

  /** One score's Pearson term; a score whose expected count is not positive
      adds nothing. */
  function ChiTerm(emp: map<int, nat>, theo: seq<Entry>, total: nat, score: int): (x: real)
    ensures x >= 0.0
    ensures x == 0.0 <==> Expected(theo, total, score) <= 0.0 || Lookup(emp, score) as real == Expected(theo, total, score)
  {
    var obs := Lookup(emp, score) as real;
    var exp := Expected(theo, total, score);
    if exp > 0.0 then
      SquareSign(obs - exp);
      QuotientSign(Square(obs - exp), exp);
      Square(obs - exp) / exp
    else 0.0
  }

  /** `computeChiSquare`: the sum of the Pearson terms over the scores. It is
      never negative, and it is zero exactly when every score with a positive
      expected count was observed exactly that often. */
  function ChiSquare(scores: seq<int>, emp: map<int, nat>, theo: seq<Entry>, total: nat): (x: real)
    ensures x >= 0.0
    ensures x == 0.0 <==> forall i :: 0 <= i < |scores| ==>
      Expected(theo, total, scores[i]) <= 0.0 || Lookup(emp, scores[i]) as real == Expected(theo, total, scores[i])
    decreases |scores|
  {
    if scores == [] then 0.0
    else
      var init := scores[..|scores| - 1];
      assert forall i :: 0 <= i < |init| ==> init[i] == scores[i];
      ChiSquare(init, emp, theo, total) + ChiTerm(emp, theo, total, scores[|scores| - 1])
  }

  /** The scores that have a positive expected count. */
  function Counted(scores: seq<int>, theo: seq<Entry>, total: nat): (r: seq<int>)
    ensures forall v :: v in r <==> v in scores && Expected(theo, total, v) > 0.0
    decreases |scores|
  {
    if scores == [] then []
    else
      var init, v := scores[..|scores| - 1], scores[|scores| - 1];
      assert scores == init + [v];
      Counted(init, theo, total) + (if Expected(theo, total, v) > 0.0 then [v] else [])
  }

  /** Dropping the scores whose expected count is not positive leaves the
      statistic unchanged: they contribute nothing. */
  lemma {:induction false} ChiSquareSkipsUnexpected(scores: seq<int>, emp: map<int, nat>, theo: seq<Entry>, total: nat)
    ensures ChiSquare(Counted(scores, theo, total), emp, theo, total) == ChiSquare(scores, emp, theo, total)
    decreases |scores|
  {
    if scores != [] {
      var init, v := scores[..|scores| - 1], scores[|scores| - 1];
      ChiSquareSkipsUnexpected(init, emp, theo, total);
      var c := Counted(init, theo, total);
      assert ChiSquare(scores, emp, theo, total) == ChiSquare(init, emp, theo, total) + ChiTerm(emp, theo, total, v);
      if Expected(theo, total, v) > 0.0 {
        assert Counted(scores, theo, total) == c + [v];
        ChiSquareSnoc(c, v, emp, theo, total);
      } else {
        assert Counted(scores, theo, total) == c by {
          assert c + [] == c;
        }
      }
    }
  }

  /** One more score adds its Pearson term. */
  lemma ChiSquareSnoc(s: seq<int>, v: int, emp: map<int, nat>, theo: seq<Entry>, total: nat)
    ensures ChiSquare(s + [v], emp, theo, total) == ChiSquare(s, emp, theo, total) + ChiTerm(emp, theo, total, v)
  {
    assert (s + [v])[..|s|] == s;
  }
}
