/** Letter-frequency tables and the χ² similarity score of the RSA page
    (hw3.js `computeLetterDistribution`, `chiSquaredScore`). */
module LetterStats {
  import opened JsText
  import opened RealSeqs

  /** The 26 per-letter counts, `A` first, and how many letters were counted. */
  datatype LetterDistribution = LetterDistribution(counts: seq<nat>, total: nat)

  function SumCounts(s: seq<nat>): nat
    decreases |s|
  {
    if s == [] then 0 else SumCounts(s[..|s| - 1]) + s[|s| - 1]
  }

  lemma {:induction false} SumCountsIncrement(s: seq<nat>, i: nat)
    requires i < |s|
    ensures SumCounts(s[i := s[i] + 1]) == SumCounts(s) + 1
    decreases |s|
  {
    var k := |s| - 1;
    var s' := s[i := s[i] + 1];
    assert s'[..k] == if i == k then s[..k] else s[..k][i := s[i] + 1];
    if i < k {
      SumCountsIncrement(s[..k], i);
    }
  }

  lemma UpperSnoc(t: Text, c: CodeUnit)
    ensures Upper(t + [c]) == Upper(t) + [UpperUnit(c)]
  {
  }

  /** Counting one upper-cased unit: its letter's count and the total go up by
      one when it is a letter, and nothing changes otherwise. */
  function CountUnit(d: LetterDistribution, u: CodeUnit): (r: LetterDistribution)
    requires |d.counts| == 26 && d.total == SumCounts(d.counts)
    ensures |r.counts| == 26 && r.total == SumCounts(r.counts)
    ensures forall i :: 0 <= i < 26 ==>
      r.counts[i] == d.counts[i] + (if u == 'A' as int + i then 1 else 0)
    ensures r.total == d.total + (if IsUpperLetter(u) then 1 else 0)
  {
    if IsUpperLetter(u) then
      var k := u - 'A' as int;
      SumCountsIncrement(d.counts, k);
      LetterDistribution(d.counts[k := d.counts[k] + 1], d.total + 1)
    else
      d
  }

  /** `computeLetterDistribution`: upper-case the text, then count each of `A`–`Z`;
      every other unit is ignored. `LetterCounts` states what each count is. */
  function Tally(text: Text): (r: LetterDistribution)
    ensures |r.counts| == 26
    ensures r.total == SumCounts(r.counts)
    decreases |text|
  {
    if text == [] then
      ZeroCountsSum(26);
      LetterDistribution(seq(26, _ => 0), 0)
    else
      CountUnit(Tally(text[..|text| - 1]), UpperUnit(text[|text| - 1]))
  }

  /** The count of each letter is its number of occurrences in the
      upper-cased text. */
  lemma {:induction false} LetterCounts(text: Text)
    ensures forall i :: 0 <= i < 26 ==> Tally(text).counts[i] == multiset(Upper(text))['A' as int + i]
    decreases |text|
  {
    if text != [] {
      var init, last := text[..|text| - 1], text[|text| - 1];
      LetterCounts(init);
      UpperMultisetSnoc(text);
      forall i | 0 <= i < 26
        ensures Tally(text).counts[i] == multiset(Upper(text))['A' as int + i]
      {
        var v := 'A' as int + i;
        assert Tally(text).counts[i] == Tally(init).counts[i] + (if UpperUnit(last) == v then 1 else 0);
        assert multiset(Upper(text))[v] == multiset(Upper(init))[v] + (if UpperUnit(last) == v then 1 else 0);
      }
    }
  }

  lemma UpperMultisetSnoc(text: Text)
    requires text != []
    ensures multiset(Upper(text)) == multiset(Upper(text[..|text| - 1])) + multiset{UpperUnit(text[|text| - 1])}
  {
    var init, last := text[..|text| - 1], text[|text| - 1];
    assert text == init + [last];
    UpperSnoc(init, last);
  }

  lemma {:induction false} ZeroCountsSum(n: nat)
    ensures SumCounts(seq(n, _ => 0)) == 0
  {
    if n > 0 {
      assert seq(n, _ => 0)[..n - 1] == seq(n - 1, _ => 0);
      ZeroCountsSum(n - 1);
    }
  }

  /** Only letters are counted: the total never exceeds the length of the text,
      and it reaches it exactly when every unit is an ASCII letter. */
  lemma {:induction false} TallyTotal(text: Text)
    ensures Tally(text).total <= |text|
    ensures Tally(text).total == |text| <==> AllLetters(text)
    decreases |text|
  {
    if text == [] {
      ZeroCountsSum(26);
    } else {
      var init, last := text[..|text| - 1], text[|text| - 1];
      AllLettersSnoc(text);
      TallyTotal(init);
      var r := Tally(init);
      assert Tally(text) == CountUnit(r, UpperUnit(last));
      assert Tally(text).total == r.total + (if IsAsciiLetter(last) then 1 else 0);
    }
  }

  predicate AllLetters(t: Text) {
    forall i :: 0 <= i < |t| ==> IsAsciiLetter(t[i])
  }

  lemma AllLettersSnoc(t: Text)
    requires t != []
    ensures AllLetters(t) <==> AllLetters(t[..|t| - 1]) && IsAsciiLetter(t[|t| - 1])
  {
    assert forall i :: 0 <= i < |t| - 1 ==> t[..|t| - 1][i] == t[i];
  }

  /** Counting upper-cases first, so a table does not depend on letter case. */
  lemma TallyIgnoresCase(text: Text)
    ensures Tally(Upper(text)) == Tally(text)
  {
    UpperIdempotent(text);
    LetterCounts(Upper(text));
    LetterCounts(text);
    var a, b := Tally(Upper(text)), Tally(text);
    forall i | 0 <= i < 26
      ensures a.counts[i] == b.counts[i]
    {
    }
    assert a.counts == b.counts;
  }

  /** The displayed percentage of letter `i`, without the two-decimal rounding. */
  function Percent(d: LetterDistribution, i: nat): (x: real)
    requires i < |d.counts|
    ensures x >= 0.0
    ensures d.total > 0 ==> x * d.total as real == d.counts[i] as real * 100.0
  {
    if d.total == 0 then 0.0 else (d.counts[i] as real / d.total as real) * 100.0
  }

  predicate WellFormed(d: LetterDistribution) {
    |d.counts| == 26
  }

  /** The contribution of one letter to the χ² score; the `0.01` keeps the
      denominator positive when the expected percentage is 0. */
  function ScoreTerm(obs: real, exp: real): (x: real)
    requires exp >= 0.0
    ensures x >= 0.0
    ensures x == 0.0 <==> obs == exp
  {
    SquareSign(obs - exp);
    QuotientSign(Square(obs - exp), exp + 0.01);
    Square(obs - exp) / (exp + 0.01)
  }

  /** The score over the first `k` letters. */
  function PartialScore(a: LetterDistribution, b: LetterDistribution, k: nat): real
    requires WellFormed(a) && WellFormed(b) && k <= 26
  {
    if k == 0 then 0.0 else PartialScore(a, b, k - 1) + ScoreTerm(Percent(a, k - 1), Percent(b, k - 1))
  }

  lemma {:induction false} PartialScoreZero(a: LetterDistribution, b: LetterDistribution, k: nat)
    requires WellFormed(a) && WellFormed(b) && k <= 26
    ensures PartialScore(a, b, k) >= 0.0
    ensures PartialScore(a, b, k) == 0.0 <==> forall i :: 0 <= i < k ==> Percent(a, i) == Percent(b, i)
  {
    if k > 0 {
      PartialScoreZero(a, b, k - 1);
      var prev, t := PartialScore(a, b, k - 1), ScoreTerm(Percent(a, k - 1), Percent(b, k - 1));
      assert PartialScore(a, b, k) == prev + t;
      var same := forall i :: 0 <= i < k - 1 ==> Percent(a, i) == Percent(b, i);
      var last := Percent(a, k - 1) == Percent(b, k - 1);
      NonNegativeSum(prev, t, same, last);
      assert (forall i :: 0 <= i < k ==> Percent(a, i) == Percent(b, i)) <==> same && last;
    }
  }

  /** Two non-negative terms sum to zero exactly when both are zero. */
  lemma NonNegativeSum(x: real, y: real, p: bool, q: bool)
    requires x >= 0.0 && y >= 0.0
    requires x == 0.0 <==> p
    requires y == 0.0 <==> q
    ensures x + y >= 0.0
    ensures x + y == 0.0 <==> p && q
  {
  }

  /** `chiSquaredScore`: never negative, and zero exactly when the two tables
      show the same percentage for every letter. */
  function ChiSquaredScore(a: LetterDistribution, b: LetterDistribution): (s: real)
    requires WellFormed(a) && WellFormed(b)
    ensures s >= 0.0
    ensures s == 0.0 <==> forall i :: 0 <= i < 26 ==> Percent(a, i) == Percent(b, i)
  {
    PartialScoreZero(a, b, 26);
    PartialScore(a, b, 26)
  }
}
