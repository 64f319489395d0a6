/** Means and sums of powers of deviations over exact reals: the two-pass
    definitions the hw6.js calculators are measured against, how those sums
    move when the centre moves, the sample variance and its behaviour under
    scaling (`testNumericalStability`), and the interpolating `percentile`. */
module Moments {
  import opened RealSeqs

  /** `sum / n`. */
  function Mean(s: seq<real>): real
    requires s != []
  {
    Sum(s) / |s| as real
  }

  function Cube(x: real): real {
    x * Square(x)
  }

  function Fourth(x: real): real {
    Square(Square(x))
  }

  /** Σ (x − c). */
  function SumDeviations(s: seq<real>, c: real): real
    decreases |s|
  {
    if s == [] then 0.0 else SumDeviations(s[..|s| - 1], c) + (s[|s| - 1] - c)
  }

  /** Σ (x − c)², never negative (`SumSquaredDeviationsNonNegative`). */
  function SumSquaredDeviations(s: seq<real>, c: real): real
    decreases |s|
  {
    if s == [] then 0.0 else SumSquaredDeviations(s[..|s| - 1], c) + Square(s[|s| - 1] - c)
  }

  lemma {:induction false} SumSquaredDeviationsNonNegative(s: seq<real>, c: real)
    ensures SumSquaredDeviations(s, c) >= 0.0
    decreases |s|
  {
    if s != [] {
      SumSquaredDeviationsNonNegative(s[..|s| - 1], c);
      SquareSign(s[|s| - 1] - c);
    }
  }

  /** Σ (x − c)³. */
  function SumCubedDeviations(s: seq<real>, c: real): real
    decreases |s|
  {
    if s == [] then 0.0 else SumCubedDeviations(s[..|s| - 1], c) + Cube(s[|s| - 1] - c)
  }

  /** Σ (x − c)⁴. */
  function SumFourthDeviations(s: seq<real>, c: real): real
    decreases |s|
  {
    if s == [] then 0.0 else SumFourthDeviations(s[..|s| - 1], c) + Fourth(s[|s| - 1] - c)
  }

  /** Deviations from `c` add up to `Σ x − n·c`; from the mean they add up to 0. */
  lemma {:induction false} SumDeviationsIsSumMinusCentre(s: seq<real>, c: real)
    ensures SumDeviations(s, c) == Sum(s) - |s| as real * c
    decreases |s|
  {
    if s != [] {
      SumDeviationsIsSumMinusCentre(s[..|s| - 1], c);
    }
  }

  lemma DeviationsFromMeanCancel(s: seq<real>)
    requires s != []
    ensures SumDeviations(s, Mean(s)) == 0.0
  {
    SumDeviationsIsSumMinusCentre(s, Mean(s));
    var n := |s| as real;
    assert n * (Sum(s) / n) == Sum(s);
  }

  /** The mean is the one centre whose deviations cancel. */
  lemma CentreOfZeroDeviations(s: seq<real>, c: real)
    requires s != [] && SumDeviations(s, c) == 0.0
    ensures c == Mean(s)
  {
    SumDeviationsIsSumMinusCentre(s, c);
    QuotientOfProduct(c, |s| as real, Sum(s));
  }

  /** Binomial expansion of one deviation when the centre moves by `h`. */
  lemma PowersShift(d: real, h: real)
    ensures Square(d - h) == Square(d) - 2.0 * h * d + Square(h)
    ensures Cube(d - h) == Cube(d) - 3.0 * h * Square(d) + 3.0 * Square(h) * d - Cube(h)
    ensures Fourth(d - h) == Fourth(d) - 4.0 * h * Cube(d) + 6.0 * Square(h) * Square(d) - 4.0 * Cube(h) * d + Fourth(h)
  {
  }

  /** `l` is what the binomial theorem gives for the sum of squared
      deviations from a centre moved by `h`, in terms of the sums `d2`, `d1`
      about the old centre over `n` values; likewise for cubes and fourth
      powers below. */
  predicate ShiftedSquared(l: real, d2: real, d1: real, n: real, h: real) {
    l == d2 - 2.0 * h * d1 + n * Square(h)
  }

  predicate ShiftedCubed(l: real, d3: real, d2: real, d1: real, n: real, h: real) {
    l == d3 - 3.0 * h * d2 + 3.0 * Square(h) * d1 - n * Cube(h)
  }

  predicate ShiftedFourth(l: real, d4: real, d3: real, d2: real, d1: real, n: real, h: real) {
    l == d4 - 4.0 * h * d3 + 6.0 * Square(h) * d2 - 4.0 * Cube(h) * d1 + n * Fourth(h)
  }

  /** One element's worth of each shift identity, stated over the sums
      before (`d1`, `d2`, …, count `n`) and after (`d1'`, …, count `n'`)
      the element `d` is added. */
  lemma ShiftStep2(l: real, d2: real, d1: real, n: real, d: real, h: real,
                   l': real, d2': real, d1': real, n': real)
    requires ShiftedSquared(l, d2, d1, n, h)
    requires l' == l + Square(d - h) && d2' == d2 + Square(d) && d1' == d1 + d && n' == n + 1.0
    ensures ShiftedSquared(l', d2', d1', n', h)
  {
    PowersShift(d, h);
    Distribute(2.0 * h, d1, d);
    Distribute(Square(h), n, 1.0);
  }

  lemma ShiftStep3(l: real, d3: real, d2: real, d1: real, n: real, d: real, h: real,
                   l': real, d3': real, d2': real, d1': real, n': real)
    requires ShiftedCubed(l, d3, d2, d1, n, h)
    requires l' == l + Cube(d - h) && d3' == d3 + Cube(d) && d2' == d2 + Square(d) && d1' == d1 + d
    requires n' == n + 1.0
    ensures ShiftedCubed(l', d3', d2', d1', n', h)
  {
    PowersShift(d, h);
    Distribute(3.0 * h, d2, Square(d));
    Distribute(3.0 * Square(h), d1, d);
    Distribute(Cube(h), n, 1.0);
    AddTerms4(l, d3, 3.0 * h * d2, 3.0 * Square(h) * d1, n * Cube(h),
      Cube(d - h), Cube(d), 3.0 * h * Square(d), 3.0 * Square(h) * d, Cube(h),
      l', d3', 3.0 * h * d2', 3.0 * Square(h) * d1', n' * Cube(h));
  }

  lemma ShiftStep4(l: real, d4: real, d3: real, d2: real, d1: real, n: real, d: real, h: real,
                   l': real, d4': real, d3': real, d2': real, d1': real, n': real)
    requires ShiftedFourth(l, d4, d3, d2, d1, n, h)
    requires l' == l + Fourth(d - h) && d4' == d4 + Fourth(d) && d3' == d3 + Cube(d)
    requires d2' == d2 + Square(d) && d1' == d1 + d && n' == n + 1.0
    ensures ShiftedFourth(l', d4', d3', d2', d1', n', h)
  {
    PowersShift(d, h);
    Distribute(4.0 * h, d3, Cube(d));
    Distribute(6.0 * Square(h), d2, Square(d));
    Distribute(4.0 * Cube(h), d1, d);
    Distribute(Fourth(h), n, 1.0);
    AddTerms5(l, d4, 4.0 * h * d3, 6.0 * Square(h) * d2, 4.0 * Cube(h) * d1, n * Fourth(h),
      Fourth(d - h), Fourth(d), 4.0 * h * Cube(d), 6.0 * Square(h) * Square(d), 4.0 * Cube(h) * d, Fourth(h),
      l', d4', 4.0 * h * d3', 6.0 * Square(h) * d2', 4.0 * Cube(h) * d1', n' * Fourth(h));
  }

  /** The linear bookkeeping of one shift step: when the sum `l` is the
      alternating combination of `t0 … t3` and every term grows by its own
      part of the expanded `moved` power, so does the sum. */
  lemma AddTerms4(l: real, t0: real, t1: real, t2: real, t3: real,
                  moved: real, u0: real, u1: real, u2: real, u3: real,
                  l': real, t0': real, t1': real, t2': real, t3': real)
    requires l == t0 - t1 + t2 - t3 && moved == u0 - u1 + u2 - u3
    requires l' == l + moved
    requires t0' == t0 + u0 && t1' == t1 + u1 && t2' == t2 + u2 && t3' == t3 + u3
    ensures l' == t0' - t1' + t2' - t3'
  {
  }

  lemma AddTerms5(l: real, t0: real, t1: real, t2: real, t3: real, t4: real,
                  moved: real, u0: real, u1: real, u2: real, u3: real, u4: real,
                  l': real, t0': real, t1': real, t2': real, t3': real, t4': real)
    requires l == t0 - t1 + t2 - t3 + t4 && moved == u0 - u1 + u2 - u3 + u4
    requires l' == l + moved
    requires t0' == t0 + u0 && t1' == t1 + u1 && t2' == t2 + u2 && t3' == t3 + u3 && t4' == t4 + u4
    ensures l' == t0' - t1' + t2' - t3' + t4'
  {
  }

  lemma Distribute(c: real, x: real, y: real)
    ensures c * (x + y) == c * x + c * y
    ensures (x + y) * c == x * c + y * c
  {
  }

  /** Moving the centre from `a` to `a + h` re-expresses each sum of powers
      of deviations through the lower ones (the binomial theorem summed). */
  lemma {:induction false} ShiftSquared(s: seq<real>, a: real, h: real)
    ensures ShiftedSquared(SumSquaredDeviations(s, a + h), SumSquaredDeviations(s, a), SumDeviations(s, a),
      |s| as real, h)
    decreases |s|
  {
    if s != [] {
      var init, x := s[..|s| - 1], s[|s| - 1];
      ShiftSquared(init, a, h);
      assert x - (a + h) == (x - a) - h;
      ShiftStep2(SumSquaredDeviations(init, a + h), SumSquaredDeviations(init, a), SumDeviations(init, a),
        |init| as real, x - a, h,
        SumSquaredDeviations(s, a + h), SumSquaredDeviations(s, a), SumDeviations(s, a), |s| as real);
    }
  }

  lemma {:induction false} ShiftCubed(s: seq<real>, a: real, h: real)
    ensures ShiftedCubed(SumCubedDeviations(s, a + h), SumCubedDeviations(s, a), SumSquaredDeviations(s, a),
      SumDeviations(s, a), |s| as real, h)
    decreases |s|
  {
    if s != [] {
      var init, x := s[..|s| - 1], s[|s| - 1];
      ShiftCubed(init, a, h);
      assert x - (a + h) == (x - a) - h;
      ShiftStep3(SumCubedDeviations(init, a + h), SumCubedDeviations(init, a), SumSquaredDeviations(init, a),
        SumDeviations(init, a), |init| as real, x - a, h,
        SumCubedDeviations(s, a + h), SumCubedDeviations(s, a), SumSquaredDeviations(s, a),
        SumDeviations(s, a), |s| as real);
    }
  }

  lemma {:induction false} ShiftFourth(s: seq<real>, a: real, h: real)
    ensures ShiftedFourth(SumFourthDeviations(s, a + h), SumFourthDeviations(s, a), SumCubedDeviations(s, a),
      SumSquaredDeviations(s, a), SumDeviations(s, a), |s| as real, h)
    decreases |s|
  {
    if s != [] {
      var init, x := s[..|s| - 1], s[|s| - 1];
      ShiftFourth(init, a, h);
      assert x - (a + h) == (x - a) - h;
      ShiftStep4(SumFourthDeviations(init, a + h), SumFourthDeviations(init, a), SumCubedDeviations(init, a),
        SumSquaredDeviations(init, a), SumDeviations(init, a), |init| as real, x - a, h,
        SumFourthDeviations(s, a + h), SumFourthDeviations(s, a), SumCubedDeviations(s, a),
        SumSquaredDeviations(s, a), SumDeviations(s, a), |s| as real);
    }
  }

  /** The sample variance both calculators report: `Σ (x − mean)² / (n − 1)`
      for more than one value, 0 otherwise. */
  function SampleVariance(s: seq<real>): real {
    if |s| > 1 then SumSquaredDeviations(s, Mean(s)) / (|s| - 1) as real else 0.0
  }

  /** The variance is never negative, and is 0 exactly when there are fewer
      than two values or all values equal the mean. */
  lemma VarianceNonNegative(s: seq<real>)
    ensures SampleVariance(s) >= 0.0
    ensures SampleVariance(s) == 0.0 <==> |s| <= 1 || forall i :: 0 <= i < |s| ==> s[i] == Mean(s)
  {
    if |s| > 1 {
      SumSquaredDeviationsNonNegative(s, Mean(s));
      QuotientSign(SumSquaredDeviations(s, Mean(s)), (|s| - 1) as real);
      SumSquaredDeviationsZero(s, Mean(s));
    }
  }

  /** Σ (x − c)² is 0 exactly when every value is `c`. */
  lemma {:induction false} SumSquaredDeviationsZero(s: seq<real>, c: real)
    ensures SumSquaredDeviations(s, c) == 0.0 <==> forall i :: 0 <= i < |s| ==> s[i] == c
    decreases |s|
  {
    if s != [] {
      var init, x := s[..|s| - 1], s[|s| - 1];
      SumSquaredDeviationsZero(init, c);
      SumSquaredDeviationsNonNegative(init, c);
      SquareSign(x - c);
      if forall i :: 0 <= i < |s| ==> s[i] == c {
        assert forall i :: 0 <= i < |init| ==> init[i] == c by {
          forall i | 0 <= i < |init| ensures init[i] == c {
            assert init[i] == s[i];
          }
        }
      }
      if SumSquaredDeviations(s, c) == 0.0 {
        forall i | 0 <= i < |s| ensures s[i] == c {
          if i < |s| - 1 {
            assert s[i] == init[i];
          }
        }
      }
    }
  }

  lemma QuotientOfProduct(a: real, n: real, sum: real)
    requires n > 0.0 && a * n == sum
    ensures a == sum / n
  {
  }

  lemma DivMul(a: real, b: real, n: real)
    requires n != 0.0
    ensures a * b / n == a * (b / n)
  {
    var q := b / n;
    assert q * n == b;
    assert (a * q) * n == a * b;
  }

  /** Every value multiplied by `c`. */
  function Scale(s: seq<real>, c: real): (r: seq<real>)
    ensures |r| == |s| && forall i :: 0 <= i < |s| ==> r[i] == c * s[i]
  {
    seq(|s|, i requires 0 <= i < |s| => c * s[i])
  }

  lemma SliceScale(s: seq<real>, c: real)
    requires s != []
    ensures Scale(s, c)[..|s| - 1] == Scale(s[..|s| - 1], c)
    ensures Scale(s, c)[|s| - 1] == c * s[|s| - 1]
  {
    var a, b := Scale(s, c)[..|s| - 1], Scale(s[..|s| - 1], c);
    assert |a| == |b|;
    forall i | 0 <= i < |a|
      ensures a[i] == b[i]
    {
    }
  }

  lemma {:induction false} SumScale(s: seq<real>, c: real)
    ensures Sum(Scale(s, c)) == c * Sum(s)
    decreases |s|
  {
    if s != [] {
      SliceScale(s, c);
      SumScale(s[..|s| - 1], c);
    }
  }

  lemma SumSquaredDeviationsScale(s: seq<real>, c: real, m: real)
    ensures SumSquaredDeviations(Scale(s, c), c * m) == Square(c) * SumSquaredDeviations(s, m)
  {
    ScaledSquaredDeviations(s, c, m);
  }

  /** `l` is `c² · r`. */
  predicate ScaledBySquare(l: real, r: real, c: real) {
    l == Square(c) * r
  }

  lemma {:induction false} ScaledSquaredDeviations(s: seq<real>, c: real, m: real)
    ensures ScaledBySquare(SumSquaredDeviations(Scale(s, c), c * m), SumSquaredDeviations(s, m), c)
    decreases |s|
  {
    if s != [] {
      var init, x := s[..|s| - 1], s[|s| - 1];
      SliceScale(s, c);
      ScaledSquaredDeviations(init, c, m);
      assert c * x - c * m == c * (x - m);
      ScaleStep(SumSquaredDeviations(Scale(init, c), c * m), SumSquaredDeviations(init, m), c, x - m,
        SumSquaredDeviations(Scale(s, c), c * m), SumSquaredDeviations(s, m));
    }
  }

  lemma ScaleStep(l: real, r: real, c: real, d: real, l': real, r': real)
    requires ScaledBySquare(l, r, c)
    requires l' == l + Square(c * d) && r' == r + Square(d)
    ensures ScaledBySquare(l', r', c)
  {
  }

  /** Scaling every datum by `c` scales the sample variance by `c²`: the
      "true variance" the stability test compares both calculators with. */
  lemma VarianceScale(s: seq<real>, c: real)
    ensures SampleVariance(Scale(s, c)) == Square(c) * SampleVariance(s)
  {
    if |s| > 1 {
      SpreadScale(s, c);
    } else {
      assert Square(c) * 0.0 == 0.0;
    }
  }

  lemma SpreadScale(s: seq<real>, c: real)
    requires |s| > 1
    ensures SampleVariance(Scale(s, c)) == Square(c) * SampleVariance(s)
  {
    var t := Scale(s, c);
    var d := (|s| - 1) as real;
    MeanScale(s, c);
    SpreadOfScaled(s, c, Mean(s), Mean(t));
    SampleVarianceOfSpread(s, d);
    SampleVarianceOfSpread(t, d);
    QuotientScale(SampleVariance(t), SampleVariance(s), SumSquaredDeviations(t, Mean(t)),
      SumSquaredDeviations(s, Mean(s)), c, d);
  }

  /** The squared deviations of the scaled data about the scaled centre. */
  lemma SpreadOfScaled(s: seq<real>, c: real, m: real, mt: real)
    requires mt == c * m
    ensures ScaledBySquare(SumSquaredDeviations(Scale(s, c), mt), SumSquaredDeviations(s, m), c)
  {
    ScaledSquaredDeviations(s, c, m);
  }

  lemma SampleVarianceOfSpread(s: seq<real>, d: real)
    requires |s| > 1 && d == (|s| - 1) as real
    ensures SampleVariance(s) == SumSquaredDeviations(s, Mean(s)) / d
  {
  }

  lemma MeanScale(s: seq<real>, c: real)
    requires s != []
    ensures Mean(Scale(s, c)) == c * Mean(s)
  {
    var t, n := Scale(s, c), |s| as real;
    SumScale(s, c);
    QuotientOfScaled(Mean(t), Sum(t), Mean(s), Sum(s), c, n);
  }

  lemma QuotientOfScaled(mt: real, st: real, ms: real, ss: real, c: real, n: real)
    requires n > 0.0 && mt == st / n && ms == ss / n && st == c * ss
    ensures mt == c * ms
  {
    DivMul(c, ss, n);
  }

  lemma QuotientScale(vt: real, vs: real, lt: real, ls: real, c: real, d: real)
    requires d > 0.0 && vt == lt / d && vs == ls / d && ScaledBySquare(lt, ls, c)
    ensures vt == Square(c) * vs
  {
    DivMul(Square(c), ls, d);
  }

  /** The test data of `testNumericalStability` before scaling. */
  const StabilityBase: seq<real> := [1.0, 1.1, 1.2, 1.3, 1.4]

  /** The reference variance of the stability test: the base data's sample
      variance, 0.025, times the magnitude squared. */
  lemma StabilityReference(magnitude: real)
    ensures SampleVariance(StabilityBase) == 0.025
    ensures SampleVariance(Scale(StabilityBase, magnitude)) == 0.025 * magnitude * magnitude
  {
    var s := StabilityBase;
    assert Sum(s) == 6.0 by {
      assert Sum([1.0]) == 1.0 by { assert [1.0][..0] == []; }
      assert Sum([1.0, 1.1]) == 2.1 by { assert [1.0, 1.1][..1] == [1.0]; }
      assert Sum([1.0, 1.1, 1.2]) == 3.3 by { assert [1.0, 1.1, 1.2][..2] == [1.0, 1.1]; }
      assert Sum([1.0, 1.1, 1.2, 1.3]) == 4.6 by { assert [1.0, 1.1, 1.2, 1.3][..3] == [1.0, 1.1, 1.2]; }
      assert s[..4] == [1.0, 1.1, 1.2, 1.3];
    }
    assert Mean(s) == 1.2;
    assert SumSquaredDeviations(s, 1.2) == 0.1 by {
      var m := 1.2;
      assert SumSquaredDeviations([1.0], m) == 0.04 by { assert [1.0][..0] == []; }
      assert SumSquaredDeviations([1.0, 1.1], m) == 0.05 by { assert [1.0, 1.1][..1] == [1.0]; }
      assert SumSquaredDeviations([1.0, 1.1, 1.2], m) == 0.05 by { assert [1.0, 1.1, 1.2][..2] == [1.0, 1.1]; }
      assert SumSquaredDeviations([1.0, 1.1, 1.2, 1.3], m) == 0.06 by {
        assert [1.0, 1.1, 1.2, 1.3][..3] == [1.0, 1.1, 1.2];
      }
      assert s[..4] == [1.0, 1.1, 1.2, 1.3];
    }
    VarianceScale(s, magnitude);
  }

  /** `Math.ceil` for a real. */
  function Ceil(x: real): (c: int)
    ensures c as real >= x && c - 1 < x.Floor + 1
    ensures c == x.Floor || c == x.Floor + 1
    ensures c == x.Floor <==> x.Floor as real == x
  {
    if x.Floor as real == x then x.Floor else x.Floor + 1
  }

  /** `percentile(sorted, p)` for the `p` in `[0, 1]` the page asks for: 0 for
      no data, otherwise linear interpolation at index `p · (len − 1)`. */
  function Percentile(sorted: seq<real>, p: real): (r: real)
    requires 0.0 <= p <= 1.0
    ensures sorted == [] ==> r == 0.0
    ensures sorted != [] && Sorted(sorted) ==>
      var index := p * (|sorted| - 1) as real;
      0 <= index.Floor <= Ceil(index) < |sorted| && sorted[index.Floor] <= r <= sorted[Ceil(index)]
    ensures sorted != [] && p == 0.0 ==> r == sorted[0]
    ensures sorted != [] && p == 1.0 ==> r == sorted[|sorted| - 1]
  {
    if sorted == [] then 0.0
    else
      var index := p * (|sorted| - 1) as real;
      IndexBounds(p, |sorted|, index);
      var lower, upper := index.Floor, Ceil(index);
      var weight := index - lower as real;
      if lower == upper then sorted[lower]
      else
        InterpolateSorted(sorted, lower, upper, weight);
        Lerp(sorted[lower], sorted[upper], weight)
  }

  /** `a * (1 - w) + b * w`, the point a fraction `w` of the way from `a`
      to `b`. */
  function Lerp(a: real, b: real, w: real): real {
    a * (1.0 - w) + b * w
  }

  /** The interpolation index `p · (len − 1)` and its two neighbours lie
      inside the data, with the ends hit exactly at `p = 0` and `p = 1`. */
  lemma IndexBounds(p: real, len: nat, index: real)
    requires 0.0 <= p <= 1.0 && len >= 1 && index == p * (len - 1) as real
    ensures 0 <= index.Floor <= Ceil(index) < len
    ensures 0.0 <= index - index.Floor as real <= 1.0
    ensures p == 0.0 ==> Ceil(index) == 0
    ensures p == 1.0 ==> index.Floor == len - 1
  {
    IndexInRange(p, (len - 1) as real);
    FloorCeilBounds(index, len - 1);
  }

  /** The floor and ceiling of a real in `[0, last]` lie in `[0, last]`. */
  lemma FloorCeilBounds(index: real, last: int)
    requires 0.0 <= index <= last as real
    ensures 0 <= index.Floor <= Ceil(index) <= last
    ensures 0.0 <= index - index.Floor as real < 1.0
  {
  }

  lemma InterpolateSorted(sorted: seq<real>, lower: int, upper: int, w: real)
    requires 0 <= lower <= upper < |sorted| && 0.0 <= w <= 1.0
    ensures Sorted(sorted) ==>
      sorted[lower] <= Lerp(sorted[lower], sorted[upper], w) <= sorted[upper]
  {
    assert Sorted(sorted) ==> sorted[lower] <= sorted[upper];
    Interpolate(sorted[lower], sorted[upper], w);
  }

  lemma IndexInRange(p: real, last: real)
    requires 0.0 <= p <= 1.0 && last >= 0.0
    ensures 0.0 <= p * last <= last
  {
    assert p * last <= 1.0 * last;
  }

  /** A weighted average of `a ≤ b` lies between them. */
  lemma Interpolate(a: real, b: real, w: real)
    requires 0.0 <= w <= 1.0
    ensures a <= b ==> a <= Lerp(a, b, w) <= b
  {
    if a <= b {
      assert Lerp(a, b, w) == a + w * (b - a);
      ProductNonNegative(w, b - a);
      ProductNonNegative(1.0 - w, b - a);
      assert w * (b - a) + (1.0 - w) * (b - a) == b - a;
    }
  }

  lemma ProductNonNegative(x: real, y: real)
    requires x >= 0.0 && y >= 0.0
    ensures x * y >= 0.0
  {
  }

}
