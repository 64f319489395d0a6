/** The discrete-distribution helpers of the Poisson and random-walk pages:
    hw10.js `factorial`, `poissonPMF` and `computeMedian`, hw7.js `binomial`
    and its identical `computeMedian`. */
module Discrete {
  import opened Wrappers
  import opened RealSeqs
  import opened Fermat
  import opened Moments

  /** n!, the reference definition. */
  function Fact(n: nat): (r: nat)
    ensures r >= 1
  {
    if n == 0 then 1 else n * Fact(n - 1)
  }

  /** `factorial`: `NaN` (here `None`) for a negative argument, 1 for 0 and 1,
      and otherwise the product `2 · 3 · … · n` taken by the loop. */
  method Factorial(n: int) returns (r: Option<nat>)
    ensures r.None? <==> n < 0
    ensures n >= 0 ==> r == Some(Fact(n))
    ensures n >= 1 ==> r.value == n * Fact(n - 1)
  {
    if n < 0 {
      return None;
    }
    if n == 0 || n == 1 {
      return Some(1);
    }
    var result: nat := 1;
    var i := 2;
    while i <= n
      invariant 2 <= i <= n + 1
      invariant result == Fact(i - 1)
    {
      result := result * i;
      i := i + 1;
    }
    return Some(result);
  }

  /** `Math.pow(x, k)` for a whole exponent. */
  function PowReal(x: real, k: nat): (r: real)
    ensures x > 0.0 ==> r > 0.0
  {
    if k == 0 then 1.0
    else
      var p := PowReal(x, k - 1);
      if x > 0.0 then
        MulPositive(x, p);
        x * p
      else
        x * p
  }

  lemma MulPositive(a: real, b: real)
    requires a > 0.0 && b > 0.0
    ensures a * b > 0.0
  {
  }

  /** `poissonPMF(k, λ)`, with `Math.exp(-λ)` supplied as `expNeg`: zero for a
      rate that is not positive, and otherwise `λᵏ e^(-λ) / k!`. */
  function PoissonPmf(k: nat, rate: real, expNeg: real): (r: real)
    ensures rate <= 0.0 ==> r == 0.0
    ensures rate > 0.0 ==> r * Fact(k) as real == PowReal(rate, k) * expNeg
    ensures rate > 0.0 && expNeg > 0.0 ==> r > 0.0
  {
    if rate <= 0.0 then 0.0
    else
      var num := PowReal(rate, k) * expNeg;
      var denom := Fact(k) as real;
      if expNeg > 0.0 then
        MulPositive(PowReal(rate, k), expNeg);
        num / denom
      else
        num / denom
  }

  /** Pascal's triangle is symmetric. */
  lemma {:induction false} ChooseSymmetric(n: nat, k: nat)
    requires k <= n
    ensures Choose(n, k) == Choose(n, n - k)
  {
    if k == 0 {
      ChooseSelf(n);
    } else if k == n {
      ChooseSelf(n);
    } else {
      ChooseSymmetric(n - 1, k - 1);
      ChooseSymmetric(n - 1, k);
      assert Choose(n, n - k) == Choose(n - 1, n - k - 1) + Choose(n - 1, n - k);
    }
  }

  /** Consecutive entries of a row: `k · C(n, k) = (n − k + 1) · C(n, k − 1)`. */
  lemma ChooseStep(n: nat, k: nat)
    requires 1 <= k <= n
    ensures k * Choose(n, k) == (n - k + 1) * Choose(n, k - 1)
  {
    Absorption(n, k);
    ChooseSymmetric(n, k - 1);
    Absorption(n, n - k + 1);
    ChooseSymmetric(n - 1, k - 1);
  }

  /** The loop of `binomial`: `i` counts down to 1 and the result is multiplied
      by `(n − i + 1) / i` each time. */
  function BinomialLoop(n: int, i: int, acc: real): real
    decreases i
  {
    if i <= 0 then acc else BinomialLoop(n, i - 1, Scaled(acc, n - i + 1, i))
  }

  /** `acc * a / i`, one pass of the loop body. */
  function Scaled(acc: real, a: int, i: int): real
    requires i > 0
  {
    acc * a as real / i as real
  }

  lemma {:induction false} BinomialLoopValue(n: nat, i: nat, acc: real)
    requires i <= n
    ensures BinomialLoop(n, i, acc) == acc * Choose(n, i) as real
  {
    if i > 0 {
      var acc' := Scaled(acc, n - i + 1, i);
      BinomialLoopValue(n, i - 1, acc');
      LoopValueStep(n, i, acc, acc');
    }
  }

  /** If the rest of the loop yields `acc' · C(n, i − 1)`, the whole loop
      from `i` yields `acc · C(n, i)`. */
  lemma LoopValueStep(n: nat, i: nat, acc: real, acc': real)
    requires 1 <= i <= n && acc' == Scaled(acc, n - i + 1, i)
    requires BinomialLoop(n, i - 1, acc') == acc' * Choose(n, i - 1) as real
    ensures BinomialLoop(n, i, acc) == acc * Choose(n, i) as real
  {
    assert BinomialLoop(n, i, acc) == BinomialLoop(n, i - 1, acc');
    LoopStep(n, i, acc, acc');
  }

  /** One pass of the loop moves the factor `C(n, i)` to `C(n, i − 1)`. */
  lemma LoopStep(n: nat, i: nat, acc: real, acc': real)
    requires 1 <= i <= n && acc' == Scaled(acc, n - i + 1, i)
    ensures acc' * Choose(n, i - 1) as real == acc * Choose(n, i) as real
  {
    ChooseStep(n, i);
    ScaleStep(acc, n - i + 1, i, Choose(n, i), Choose(n, i - 1), acc');
  }

  lemma ScaleStep(acc: real, a: int, i: int, c: int, c1: int, acc': real)
    requires i > 0 && i * c == a * c1
    requires acc' == Scaled(acc, a, i)
    ensures acc' * c1 as real == acc * c as real
  {
    var ar, ir, cr, c1r := a as real, i as real, c as real, c1 as real;
    assert ar * c1r == ir * cr by {
      assert (a * c1) as real == ar * c1r;
      assert (i * c) as real == ir * cr;
    }
    calc {
      acc' * c1r;
      == (acc * ar / ir) * c1r;
      == acc * (ar * c1r) / ir;
      == acc * (ir * cr) / ir;
      == acc * cr;
    }
  }

  /** `binomial(n, k)`: 0 outside `[0, n]`, 1 at either end, and otherwise the
      loop over the smaller of `k` and `n − k`, which is exactly `C(n, k)`. */
  function Binomial(n: int, k: int): (r: real)
    ensures k < 0 || k > n ==> r == 0.0
    ensures 0 <= k <= n && (k == 0 || k == n) ==> r == 1.0
    ensures 0 <= k <= n ==> r == Choose(n, k) as real
  {
    if k < 0 || k > n then 0.0
    else if k == 0 || k == n then
      ChooseSelf(n);
      1.0
    else
      var j := if k < n - k then k else n - k;
      BinomialLoopValue(n, j, 1.0);
      ChooseSymmetric(n, k);
      BinomialLoop(n, j, 1.0)
  }

  /** `binomial(n, k) = binomial(n, n − k)` for all integers. */
  lemma BinomialSymmetric(n: int, k: int)
    ensures Binomial(n, k) == Binomial(n, n - k)
  {
    if 0 <= k <= n {
      ChooseSymmetric(n, k);
    }
  }

  /** The coefficient is the factorial quotient `n! / (k! (n − k)!)`. */
  lemma {:induction false} ChooseFactorial(n: nat, k: nat)
    requires k <= n
    ensures Choose(n, k) * Fact(k) * Fact(n - k) == Fact(n)
  {
    if k == 0 {
    } else if k == n {
      ChooseSelf(n);
    } else {
      ChooseFactorial(n - 1, k - 1);
      ChooseFactorial(n - 1, k);
      assert n - 1 - (k - 1) == n - k;
      FactorialAlgebra(n, k, Choose(n - 1, k - 1), Choose(n - 1, k),
        Fact(k - 1), Fact(n - k - 1), Fact(n - 1));
    }
  }

  lemma FactorialAlgebra(n: int, k: int, a: int, b: int, fk1: int, fnk1: int, f: int)
    requires a * fk1 * ((n - k) * fnk1) == f
    requires b * (k * fk1) * fnk1 == f
    ensures (a + b) * (k * fk1) * ((n - k) * fnk1) == n * f
  {
    calc {
      (a + b) * (k * fk1) * ((n - k) * fnk1);
      == k * (a * fk1 * ((n - k) * fnk1)) + (n - k) * (b * (k * fk1) * fnk1);
      == k * f + (n - k) * f;
      == n * f;
    }
  }

  /** `binomial` agrees with the factorial formula in exact arithmetic. */
  lemma BinomialIsFactorialQuotient(n: nat, k: nat)
    requires k <= n
    ensures Binomial(n, k) == Fact(n) as real / (Fact(k) * Fact(n - k)) as real
  {
    var c, fk, fnk, f := Choose(n, k), Fact(k), Fact(n - k), Fact(n);
    ChooseFactorial(n, k);
    ProductRegroup(c, fk, fnk, f);
    QuotientOfProduct(c, fk * fnk, f);
  }

  lemma ProductRegroup(c: int, fk: int, fnk: int, f: int)
    requires c * fk * fnk == f
    ensures c * (fk * fnk) == f
  {
  }

  lemma QuotientOfProduct(c: int, d: int, f: int)
    requires d > 0 && c * d == f
    ensures c as real == f as real / d as real
  {
    assert f as real == c as real * d as real;
  }

  /** The middle value of a sorted list, or the mean of the two middle values
      when its length is even. */
  function MiddleOf(sorted: seq<real>): real
    requires sorted != []
  {
    var mid := |sorted| / 2;
    if |sorted| % 2 == 1 then sorted[mid] else (sorted[mid - 1] + sorted[mid]) / 2.0
  }

  /** The statistics page's median quartile, `percentile(sorted, 0.5)`, is the
      middle value the simulation pages' `computeMedian` takes: the middle
      element for an odd length, the mean of the two middle ones otherwise. */
  lemma MedianQuartileIsMiddle(sorted: seq<real>)
    requires sorted != []
    ensures Percentile(sorted, 0.5) == MiddleOf(sorted)
  {
    var len, k := |sorted|, |sorted| / 2;
    var index := 0.5 * (len - 1) as real;
    if len % 2 == 1 {
      assert index == k as real;
      assert index.Floor == k && Ceil(index) == k;
    } else {
      assert index == k as real - 0.5;
      assert index.Floor == k - 1 && Ceil(index) == k;
      assert index - (k - 1) as real == 0.5;
      assert Percentile(sorted, 0.5) == Lerp(sorted[k - 1], sorted[k], 0.5);
      assert Lerp(sorted[k - 1], sorted[k], 0.5) == (sorted[k - 1] + sorted[k]) / 2.0;
    }
  }

  /** `computeMedian`: the middle of a sorted copy; an empty array gives `NaN`
      (here `None`). */
  function Median(s: seq<real>): (r: Option<real>)
    ensures r.None? <==> s == []
    ensures r.Some? ==> Min(s) <= r.value <= Max(s)
  {
    if s == [] then None
    else
      var sorted := SortAscending(s);
      SortedWithinBounds(s, sorted, |sorted| / 2);
      Some(MiddleOf(sorted))
  }

  lemma SortedWithinBounds(s: seq<real>, sorted: seq<real>, mid: nat)
    requires s != [] && sorted == SortAscending(s) && 0 < mid + 1 <= |sorted|
    ensures Min(s) <= sorted[mid] <= Max(s)
    ensures mid > 0 ==> Min(s) <= sorted[mid - 1] <= Max(s)
  {
    assert sorted[mid] in multiset(sorted);
    if mid > 0 {
      assert sorted[mid - 1] in multiset(sorted);
    }
  }

  /** The median does not depend on the order of the data. */
  lemma MedianPermutation(a: seq<real>, b: seq<real>)
    requires multiset(a) == multiset(b)
    ensures Median(a) == Median(b)
  {
    SortPermutationInvariant(a, b);
    assert |a| == |multiset(a)| == |b|;
  }

  /** How many values are at most `m`, and how many at least `m`. */
  function CountAtMost(s: seq<real>, m: real): nat
    decreases |s|
  {
    if s == [] then 0 else CountAtMost(s[..|s| - 1], m) + (if s[|s| - 1] <= m then 1 else 0)
  }

  function CountAtLeast(s: seq<real>, m: real): nat
    decreases |s|
  {
    if s == [] then 0 else CountAtLeast(s[..|s| - 1], m) + (if s[|s| - 1] >= m then 1 else 0)
  }

  lemma {:induction false} CountAppend(a: seq<real>, b: seq<real>, m: real)
    ensures CountAtMost(a + b, m) == CountAtMost(a, m) + CountAtMost(b, m)
    ensures CountAtLeast(a + b, m) == CountAtLeast(a, m) + CountAtLeast(b, m)
    decreases |b|
  {
    if b == [] {
      assert a + b == a;
    } else {
      assert (a + b)[..|a + b| - 1] == a + b[..|b| - 1];
      CountAppend(a, b[..|b| - 1], m);
    }
  }

  /** Both counts are invariant under reordering. */
  lemma {:induction false} CountPermutation(a: seq<real>, b: seq<real>, m: real)
    requires multiset(a) == multiset(b)
    ensures CountAtMost(a, m) == CountAtMost(b, m)
    ensures CountAtLeast(a, m) == CountAtLeast(b, m)
    decreases |a|
  {
    if a != [] {
      var x := a[|a| - 1];
      assert x in multiset(b);
      var k :| 0 <= k < |b| && b[k] == x;
      var b' := b[..k] + b[k + 1..];
      assert b == b[..k] + [x] + b[k + 1..];
      assert a == a[..|a| - 1] + [x];
      assert multiset(a[..|a| - 1]) == multiset(a) - multiset{x};
      assert multiset(b') == multiset(b) - multiset{x};
      CountPermutation(a[..|a| - 1], b', m);
      CountAppend(b[..k] + [x], b[k + 1..], m);
      CountAppend(b[..k], [x], m);
      CountAppend(b[..k], b[k + 1..], m);
      assert [x][..0] == [];
    }
  }

  /** A sorted list has at least `k` values at most `m` when its first `k` are,
      and at least `|s| − k` values at least `m` when the rest are. */
  lemma {:induction false} CountSortedSplit(s: seq<real>, m: real, k: nat)
    requires k <= |s|
    requires forall i :: 0 <= i < k ==> s[i] <= m
    requires forall i :: k <= i < |s| ==> s[i] >= m
    ensures CountAtMost(s, m) >= k
    ensures CountAtLeast(s, m) >= |s| - k
    decreases |s|
  {
    if s != [] {
      var init := s[..|s| - 1];
      if k == |s| {
        CountSortedSplit(init, m, k - 1);
      } else {
        CountSortedSplit(init, m, k);
      }
    }
  }

  /** The defining property of a median: at least half of the values are at
      most it, and at least half are at least it. */
  lemma MedianSplitsSample(s: seq<real>)
    requires s != []
    ensures 2 * CountAtMost(s, Median(s).value) >= |s|
    ensures 2 * CountAtLeast(s, Median(s).value) >= |s|
  {
    var sorted := SortAscending(s);
    assert Median(s).value == MiddleOf(sorted);
    MiddleSplits(sorted);
    CountPermutation(s, sorted, MiddleOf(sorted));
  }

  lemma MiddleSplits(sorted: seq<real>)
    requires sorted != [] && Sorted(sorted)
    ensures 2 * CountAtMost(sorted, MiddleOf(sorted)) >= |sorted|
    ensures 2 * CountAtLeast(sorted, MiddleOf(sorted)) >= |sorted|
  {
    var mid := |sorted| / 2;
    var m := MiddleOf(sorted);
    if |sorted| % 2 == 1 {
      CountSortedSplit(sorted, m, mid + 1);
      CountSortedSplit(sorted, m, mid);
    } else {
      CountSortedSplit(sorted, m, mid);
    }
  }
}
