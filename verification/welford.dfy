/** The one-pass (Welford) accumulators of hw6.js `computeOnline` and of the
    step-by-step trace: a count, a running mean and the running sums of
    squared, cubed and fourth-power deviations from that mean. */
module Welford {
  import opened RealSeqs
  import opened Moments

  datatype Accumulator = Accumulator(n: nat, mean: real, m2: real, m3: real, m4: real)

  /** `n = 0, mean = 0, M2 = M3 = M4 = 0`. */
  const Start := Accumulator(0, 0.0, 0.0, 0.0, 0.0)

  /** One observation. The mean and `M2` follow the code; `M3` and `M4` use
      `delta / n` where the code uses `delta2` (`ObserveAsWritten`), which is
      what keeps them equal to the sums of cubed and fourth-power
      deviations. */
  function Observe(acc: Accumulator, x: real): Accumulator {
    var n := (acc.n + 1) as real;
    var delta := x - acc.mean;
    var deltaN := delta / n;
    var mean := acc.mean + deltaN;
    var delta2 := x - mean;
    var term1 := delta * delta2;
    Accumulator(acc.n + 1, mean, acc.m2 + term1,
      ThirdUpdate(acc.m3, acc.m2, term1, deltaN, n),
      FourthUpdate(acc.m4, acc.m3, acc.m2, term1, deltaN, n))
  }

  /** One observation exactly as the code's loop body writes it. */
  function ObserveAsWritten(acc: Accumulator, x: real): Accumulator {
    var n := (acc.n + 1) as real;
    var delta := x - acc.mean;
    var mean := acc.mean + delta / n;
    var delta2 := x - mean;
    var term1 := delta * delta2;
    Accumulator(acc.n + 1, mean, acc.m2 + term1,
      ThirdUpdate(acc.m3, acc.m2, term1, delta2, n),
      FourthUpdate(acc.m4, acc.m3, acc.m2, term1, delta2, n))
  }

  /** The `M3` and `M4` updates of the code's loop, with `step` in the place
      where the code writes `delta2` (each `delta2` after the leading
      `delta * delta2`, which is `term1`). */
  function ThirdUpdate(m3: real, m2: real, term1: real, step: real, n: real): real {
    m3 + term1 * step * (n - 2.0) - 3.0 * step * m2
  }

  function FourthUpdate(m4: real, m3: real, m2: real, term1: real, step: real, n: real): real {
    m4 + term1 * step * step * (n * n - 3.0 * n + 3.0) + 6.0 * step * step * m2 - 4.0 * step * m3
  }

  /** The accumulator summarises `s`: it has counted `s`, its mean is the
      centre about which the deviations of `s` cancel, and its sums are the
      two-pass sums of powers of deviations from that centre. */
  predicate Tracks(acc: Accumulator, s: seq<real>) {
    && acc.n == |s|
    && SumDeviations(s, acc.mean) == 0.0
    && acc.m2 == SumSquaredDeviations(s, acc.mean)
    && acc.m3 == SumCubedDeviations(s, acc.mean)
    && acc.m4 == SumFourthDeviations(s, acc.mean)
  }

  /** The invariant of the loop: observing `x` keeps the accumulator in step
      with the data seen so far. */
  lemma ObserveTracks(acc: Accumulator, s: seq<real>, x: real)
    requires Tracks(acc, s)
    ensures Tracks(Observe(acc, x), s + [x])
  {
    var a, k, n := acc.mean, |s| as real, (acc.n + 1) as real;
    var h := (x - a) / n;
    var term1 := (x - a) * (x - (a + h));
    ObserveFields(acc, x, a, n, h, term1);
    assert n == k + 1.0;
    Split(x, a, n, k, h);
    MovedCentre(acc, s, x, a, k, n, h, term1);
  }

  /** The sums over `s + [x]` about the centre moved from `a` by `h`, where
      `x − a = n·h` and `x − (a + h) = k·h` for the old count `k` (so
      `term1 = n·k·h²`), from the sums over `s` about `a`. */
  lemma MovedCentre(acc: Accumulator, s: seq<real>, x: real, a: real, k: real, n: real, h: real, term1: real)
    requires Tracks(acc, s) && a == acc.mean && k == |s| as real && n == k + 1.0
    requires x - a == n * h && x - (a + h) == k * h && term1 == (x - a) * (x - (a + h))
    ensures SumDeviations(s + [x], a + h) == 0.0
    ensures SumSquaredDeviations(s + [x], a + h) == acc.m2 + term1
    ensures SumCubedDeviations(s + [x], a + h) == ThirdUpdate(acc.m3, acc.m2, term1, h, n)
    ensures SumFourthDeviations(s + [x], a + h) == FourthUpdate(acc.m4, acc.m3, acc.m2, term1, h, n)
  {
    var q := s + [x];
    assert q[..|q| - 1] == s;
    MovedCentre1(s, q, x, a, k, h);
    MovedCentre2(s, q, x, a, k, n, h, term1, acc.m2);
    MovedCentre3(s, q, x, a, k, n, h, term1, acc.m2, acc.m3);
    MovedCentre4(s, q, x, a, k, n, h, term1, acc.m2, acc.m3, acc.m4);
  }

  /** The fields of `Observe(acc, x)` in terms of the old mean `a`, the new
      count `n`, the step `h = (x − a) / n` of the mean and
      `term1 = delta · delta2`. */
  lemma ObserveFields(acc: Accumulator, x: real, a: real, n: real, h: real, term1: real)
    requires a == acc.mean && n == (acc.n + 1) as real && h == (x - a) / n
    requires term1 == (x - a) * (x - (a + h))
    ensures Observe(acc, x).n == acc.n + 1
    ensures Observe(acc, x).mean == a + h
    ensures Observe(acc, x).m2 == acc.m2 + term1
    ensures Observe(acc, x).m3 == ThirdUpdate(acc.m3, acc.m2, term1, h, n)
    ensures Observe(acc, x).m4 == FourthUpdate(acc.m4, acc.m3, acc.m2, term1, h, n)
  {
  }

  /** `next` is the state after observing `x` as the `n`-th value, from mean
      `a` and `M2` `m2`, with the mean moving by `h`. */
  ghost predicate StepsTo(next: Accumulator, n: nat, a: real, m2: real, x: real, h: real) {
    && next.n == n
    && next.mean == a + h
    && next.m2 == m2 + (x - a) * (x - (a + h))
  }

  /** The count, mean and `M2` of one observation, with the mean's step `h`. */
  lemma ObserveMeanAndM2(acc: Accumulator, x: real, h: real)
    requires h == (x - acc.mean) / (acc.n + 1) as real
    ensures StepsTo(Observe(acc, x), acc.n + 1, acc.mean, acc.m2, x, h)
  {
  }

  /** With `h = (x − a) / n` and `n = k + 1`: `x − a = n·h` and
      `x − (a + h) = k·h`. */
  lemma Split(x: real, a: real, n: real, k: real, h: real)
    requires n == k + 1.0 && k >= 0.0 && h == (x - a) / n
    ensures x - a == n * h
    ensures x - (a + h) == k * h
  {
    assert n * h == x - a;
    assert x - (a + h) == n * h - h == (n - 1.0) * h;
  }

  /** Moving the centre by `h` lowers the sum of deviations by `n·h`. */
  lemma {:induction false} SumDeviationsShift(s: seq<real>, a: real, h: real)
    ensures SumDeviations(s, a + h) == SumDeviations(s, a) - |s| as real * h
    decreases |s|
  {
    if s != [] {
      var init := s[..|s| - 1];
      SumDeviationsShift(init, a, h);
      assert |s| as real * h == |init| as real * h + h;
    }
  }

  /** `MovedCentre` one sum at a time, for `q = s + [x]`. */
  lemma MovedCentre1(s: seq<real>, q: seq<real>, x: real, a: real, k: real, h: real)
    requires q != [] && q[..|q| - 1] == s && q[|q| - 1] == x && k == |s| as real
    requires SumDeviations(s, a) == 0.0 && x - (a + h) == k * h
    ensures SumDeviations(q, a + h) == 0.0
  {
    SumDeviationsShift(s, a, h);
    var l1 := SumDeviations(s, a + h);
    assert SumDeviations(q, a + h) == l1 + (x - (a + h));
  }

  lemma MovedCentre2(s: seq<real>, q: seq<real>, x: real, a: real, k: real, n: real, h: real,
                     term1: real, m2: real)
    requires q != [] && q[..|q| - 1] == s && q[|q| - 1] == x && k == |s| as real && n == k + 1.0
    requires SumDeviations(s, a) == 0.0 && m2 == SumSquaredDeviations(s, a)
    requires x - a == n * h && x - (a + h) == k * h && term1 == (x - a) * (x - (a + h))
    ensures SumSquaredDeviations(q, a + h) == m2 + term1
  {
    ShiftSquared(s, a, h);
    SquaredStep(SumSquaredDeviations(s, a + h), SumSquaredDeviations(s, a), SumDeviations(s, a), k, n, h,
      SumSquaredDeviations(q, a + h), x - (a + h), x - a, term1, m2);
  }

  lemma MovedCentre3(s: seq<real>, q: seq<real>, x: real, a: real, k: real, n: real, h: real,
                     term1: real, m2: real, m3: real)
    requires q != [] && q[..|q| - 1] == s && q[|q| - 1] == x && k == |s| as real && n == k + 1.0
    requires SumDeviations(s, a) == 0.0 && m2 == SumSquaredDeviations(s, a) && m3 == SumCubedDeviations(s, a)
    requires x - a == n * h && x - (a + h) == k * h && term1 == (x - a) * (x - (a + h))
    ensures SumCubedDeviations(q, a + h) == ThirdUpdate(m3, m2, term1, h, n)
  {
    ShiftCubed(s, a, h);
    CubedStep(SumCubedDeviations(s, a + h), SumCubedDeviations(s, a), SumSquaredDeviations(s, a),
      SumDeviations(s, a), k, n, h, SumCubedDeviations(q, a + h), x - (a + h), x - a, term1, m2, m3);
  }

  lemma MovedCentre4(s: seq<real>, q: seq<real>, x: real, a: real, k: real, n: real, h: real,
                     term1: real, m2: real, m3: real, m4: real)
    requires q != [] && q[..|q| - 1] == s && q[|q| - 1] == x && k == |s| as real && n == k + 1.0
    requires SumDeviations(s, a) == 0.0 && m2 == SumSquaredDeviations(s, a) && m3 == SumCubedDeviations(s, a)
    requires m4 == SumFourthDeviations(s, a)
    requires x - a == n * h && x - (a + h) == k * h && term1 == (x - a) * (x - (a + h))
    ensures SumFourthDeviations(q, a + h) == FourthUpdate(m4, m3, m2, term1, h, n)
  {
    ShiftFourth(s, a, h);
    ProductOfMultiples(n, k, h, x - a, x - (a + h));
    assert SumFourthDeviations(q, a + h) == SumFourthDeviations(s, a + h) + Fourth(x - (a + h));
    FourthStep(SumFourthDeviations(s, a + h), SumFourthDeviations(s, a), SumCubedDeviations(s, a),
      SumSquaredDeviations(s, a), SumDeviations(s, a), k, n, h, SumFourthDeviations(q, a + h),
      x - (a + h), term1, m2, m3, m4);
  }

  /** The algebra of one step, over the sums `c1 = 0`, `c2`, `c3`, `c4`
      about the old centre, the sums `l2`, `l3`, `l4` about the new one over
      the old data, and the sums `t2`, `t3`, `t4` once the new deviation `d`
      is added. */
  lemma SquaredStep(l2: real, c2: real, c1: real, k: real, n: real, h: real,
                    t2: real, d: real, delta: real, term1: real, m2: real)
    requires ShiftedSquared(l2, c2, c1, k, h) && c1 == 0.0 && m2 == c2
    requires t2 == l2 + Square(d) && d == k * h && delta == n * h && n == k + 1.0
    requires term1 == delta * d
    ensures t2 == m2 + term1
  {
    assert Square(d) == k * k * Square(h);
    assert delta * d == n * k * Square(h);
  }

  lemma CubedStep(l3: real, c3: real, c2: real, c1: real, k: real, n: real, h: real,
                  t3: real, d: real, delta: real, term1: real, m2: real, m3: real)
    requires ShiftedCubed(l3, c3, c2, c1, k, h) && c1 == 0.0 && m2 == c2 && m3 == c3
    requires t3 == l3 + Cube(d) && d == k * h && delta == n * h && n == k + 1.0
    requires term1 == delta * d
    ensures t3 == ThirdUpdate(m3, m2, term1, h, n)
  {
    assert l3 == c3 - 3.0 * h * c2 - k * Cube(h) by {
      assert 3.0 * Square(h) * c1 == 0.0;
    }
    assert Cube(d) == k * k * k * Cube(h) by {
      assert Square(d) == k * k * Square(h);
    }
    var p := term1 * h * (n - 2.0);
    assert p == (k * k * k - k) * Cube(h) by {
      assert term1 * h == n * k * Square(h) * h;
      assert (n - 2.0) * n == k * k - 1.0;
    }
  }

  lemma FourthStep(l4: real, c4: real, c3: real, c2: real, c1: real, k: real, n: real, h: real,
                   t4: real, d: real, term1: real, m2: real, m3: real, m4: real)
    requires ShiftedFourth(l4, c4, c3, c2, c1, k, h) && c1 == 0.0 && m2 == c2 && m3 == c3 && m4 == c4
    requires t4 == l4 + Fourth(d) && d == k * h && n == k + 1.0
    requires term1 == n * k * Square(h)
    ensures t4 == FourthUpdate(m4, m3, m2, term1, h, n)
  {
    var s2, f := Square(h), Fourth(h);
    ZeroProduct(4.0 * Cube(h), c1);
    FourthOfMultiple(d, k, h);
    FourthTerm(term1, h, n, k, s2, f);
    ScaledSquare(h, m2);
    LinearFourth(t4, l4, m4, 4.0 * h * c3, 6.0 * s2 * c2, 4.0 * Cube(h) * c1, k * f,
      k * k * k * k * f, term1 * h * h * (n * n - 3.0 * n + 3.0));
  }

  lemma ScaledSquare(h: real, m: real)
    ensures 6.0 * h * h * m == 6.0 * Square(h) * m
  {
  }

  lemma ProductOfMultiples(n: real, k: real, h: real, delta: real, d: real)
    requires delta == n * h && d == k * h
    ensures delta * d == n * k * Square(h)
  {
  }

  lemma ZeroProduct(a: real, c: real)
    requires c == 0.0
    ensures a * c == 0.0
  {
  }

  lemma FourthOfMultiple(d: real, k: real, h: real)
    requires d == k * h
    ensures Fourth(d) == k * k * k * k * Fourth(h)
  {
    assert Square(d) == k * k * Square(h);
  }

  /** `term1 · h² · (n² − 3n + 3) = (k⁴ + k) · h⁴` when `term1 = n·k·h²`
      and `n = k + 1`. */
  lemma FourthTerm(term1: real, h: real, n: real, k: real, s2: real, f: real)
    requires s2 == Square(h) && f == Square(s2) && term1 == n * k * s2 && n == k + 1.0
    ensures term1 * h * h * (n * n - 3.0 * n + 3.0) == k * k * k * k * f + k * f
  {
    var quad := n * n - 3.0 * n + 3.0;
    assert term1 * h * h == n * k * f;
    assert (n * k * f) * quad == k * f * (n * quad);
    assert n * quad == k * k * k + 1.0;
  }

  /** The bookkeeping of `FourthStep` once every product is a single term. */
  lemma LinearFourth(t4: real, l4: real, m4: real, third: real, second: real, first: real,
                     count: real, moved: real, update: real)
    requires l4 == m4 - third + second - first + count && first == 0.0
    requires t4 == l4 + moved && update == moved + count
    ensures t4 == m4 + update + second - third
  {
  }

  /** The accumulator after the loop of `computeOnline` has read `s`. */
  function Accumulate(s: seq<real>): Accumulator
    decreases |s|
  {
    if s == [] then Start else Observe(Accumulate(s[..|s| - 1]), s[|s| - 1])
  }

  /** The same loop with the code's own higher-moment updates. */
  function AccumulateAsWritten(s: seq<real>): Accumulator
    decreases |s|
  {
    if s == [] then Start else ObserveAsWritten(AccumulateAsWritten(s[..|s| - 1]), s[|s| - 1])
  }

  /** After any prefix the accumulator summarises that prefix. */
  lemma {:induction false} AccumulateTracks(s: seq<real>)
    ensures Tracks(Accumulate(s), s)
    decreases |s|
  {
    if s != [] {
      var init, x := s[..|s| - 1], s[|s| - 1];
      AccumulateTracks(init);
      assert s == init + [x];
      ObserveTracks(Accumulate(init), init, x);
    }
  }

  /** Over exact reals the one-pass results are the two-pass ones: the mean
      is `sum / n` and `M2`, `M3`, `M4` are the sums of squared, cubed and
      fourth-power deviations from it. */
  lemma OnlineIsTwoPass(s: seq<real>)
    requires s != []
    ensures Accumulate(s).n == |s|
    ensures Accumulate(s).mean == Mean(s)
    ensures Accumulate(s).m2 == SumSquaredDeviations(s, Mean(s))
    ensures Accumulate(s).m3 == SumCubedDeviations(s, Mean(s))
    ensures Accumulate(s).m4 == SumFourthDeviations(s, Mean(s))
  {
    AccumulateTracks(s);
    CentreOfZeroDeviations(s, Accumulate(s).mean);
  }

  /** The first observation sets the mean to `x` and leaves every sum 0 (the
      code's `delta2` is 0 there), in both versions of the update. */
  lemma FirstObservation(x: real)
    ensures Accumulate([x]) == Accumulator(1, x, 0.0, 0.0, 0.0)
    ensures AccumulateAsWritten([x]) == Accumulator(1, x, 0.0, 0.0, 0.0)
  {
    assert [x][..0] == [];
    FirstObserve(x);
    FirstObserveAsWritten(x);
  }

  lemma FirstObserve(x: real)
    ensures Observe(Start, x) == Accumulator(1, x, 0.0, 0.0, 0.0)
  {
    assert (x - 0.0) / 1.0 == x;
    ZeroProduct(x - 0.0, x - (0.0 + x));
    ObserveFields(Start, x, 0.0, 1.0, x, 0.0);
    assert ThirdUpdate(0.0, 0.0, 0.0, x, 1.0) == 0.0;
    assert FourthUpdate(0.0, 0.0, 0.0, 0.0, x, 1.0) == 0.0;
  }

  lemma FirstObserveAsWritten(x: real)
    ensures ObserveAsWritten(Start, x) == Accumulator(1, x, 0.0, 0.0, 0.0)
  {
    ZeroProduct(x, 0.0);
    ObserveAsWrittenFields(Start, x, 0.0, 1.0, x, 0.0, 0.0);
    assert ThirdUpdate(0.0, 0.0, 0.0, 0.0, 1.0) == 0.0;
    assert FourthUpdate(0.0, 0.0, 0.0, 0.0, 0.0, 1.0) == 0.0;
  }

  /** The fields of `ObserveAsWritten(acc, x)` in terms of the old mean `a`,
      the new count `n`, the new mean, `delta2` and `term1 = delta · delta2`. */
  lemma ObserveAsWrittenFields(acc: Accumulator, x: real, a: real, n: real, mean: real, delta2: real, term1: real)
    requires a == acc.mean && n == (acc.n + 1) as real && mean == a + (x - a) / n
    requires delta2 == x - mean && term1 == (x - a) * delta2
    ensures ObserveAsWritten(acc, x).n == acc.n + 1
    ensures ObserveAsWritten(acc, x).mean == mean
    ensures ObserveAsWritten(acc, x).m2 == acc.m2 + term1
    ensures ObserveAsWritten(acc, x).m3 == ThirdUpdate(acc.m3, acc.m2, term1, delta2, n)
    ensures ObserveAsWritten(acc, x).m4 == FourthUpdate(acc.m4, acc.m3, acc.m2, term1, delta2, n)
  {
  }

  /** The code's `M3`/`M4` slip does not reach the count, the mean or `M2`,
      which never read `M3` or `M4`. */
  lemma {:induction false} AsWrittenKeepsMeanAndM2(s: seq<real>)
    ensures AccumulateAsWritten(s).n == Accumulate(s).n
    ensures AccumulateAsWritten(s).mean == Accumulate(s).mean
    ensures AccumulateAsWritten(s).m2 == Accumulate(s).m2
    decreases |s|
  {
    if s != [] {
      AsWrittenKeepsMeanAndM2(s[..|s| - 1]);
    }
  }

  /** The data `[0, 1, 3]`: the code's loop ends with `M3 = 40/9` and
      `M4 = 3109/72`, while the sums of cubed and fourth-power deviations
      from the mean `4/3` are `20/9` and `98/9` (which `Accumulate` gives, by
      `OnlineIsTwoPass`). */
  lemma AsWrittenCounterexample()
    ensures AccumulateAsWritten([0.0, 1.0, 3.0]).m3 == 40.0 / 9.0
    ensures AccumulateAsWritten([0.0, 1.0, 3.0]).m4 == 3109.0 / 72.0
    ensures Mean([0.0, 1.0, 3.0]) == 4.0 / 3.0
    ensures SumCubedDeviations([0.0, 1.0, 3.0], 4.0 / 3.0) == 20.0 / 9.0
    ensures SumFourthDeviations([0.0, 1.0, 3.0], 4.0 / 3.0) == 98.0 / 9.0
  {
    var s := [0.0, 1.0, 3.0];
    assert s[..2] == [0.0, 1.0] && s[..2][..1] == [0.0] && [0.0][..0] == [];
    FirstObservation(0.0);
    AsWrittenSecond();
    AsWrittenThird();
    assert Sum([0.0]) == 0.0 && Sum([0.0, 1.0]) == 1.0 && Sum(s) == 4.0;
    TwoPassSums(4.0 / 3.0);
  }

  lemma AsWrittenSecond()
    ensures ObserveAsWritten(Accumulator(1, 0.0, 0.0, 0.0, 0.0), 1.0) == Accumulator(2, 0.5, 0.5, 0.0, 0.125)
  {
    assert ThirdUpdate(0.0, 0.0, 0.5, 0.5, 2.0) == 0.0;
    assert FourthUpdate(0.0, 0.0, 0.0, 0.5, 0.5, 2.0) == 0.125;
  }

  lemma AsWrittenThird()
    ensures ObserveAsWritten(Accumulator(2, 0.5, 0.5, 0.0, 0.125), 3.0)
      == Accumulator(3, 4.0 / 3.0, 14.0 / 3.0, 40.0 / 9.0, 3109.0 / 72.0)
  {
    var mean := 0.5 + 2.5 / 3.0;
    assert mean == 4.0 / 3.0;
    assert 3.0 - mean == 5.0 / 3.0;
    assert 2.5 * (5.0 / 3.0) == 25.0 / 6.0;
    assert ThirdUpdate(0.0, 0.5, 25.0 / 6.0, 5.0 / 3.0, 3.0) == 40.0 / 9.0;
    assert FourthUpdate(0.125, 0.0, 0.5, 25.0 / 6.0, 5.0 / 3.0, 3.0) == 3109.0 / 72.0;
  }

  lemma TwoPassSums(c: real)
    requires c == 4.0 / 3.0
    ensures SumCubedDeviations([0.0, 1.0, 3.0], c) == 20.0 / 9.0
    ensures SumFourthDeviations([0.0, 1.0, 3.0], c) == 98.0 / 9.0
  {
    var s := [0.0, 1.0, 3.0];
    assert s[..2] == [0.0, 1.0] && s[..2][..1] == [0.0] && [0.0][..0] == [];
    assert Cube(0.0 - c) == -64.0 / 27.0 && Cube(1.0 - c) == -1.0 / 27.0 && Cube(3.0 - c) == 125.0 / 27.0;
    assert Fourth(0.0 - c) == 256.0 / 81.0 && Fourth(1.0 - c) == 1.0 / 81.0 && Fourth(3.0 - c) == 625.0 / 81.0;
  }
}
