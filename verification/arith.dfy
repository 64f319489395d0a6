/** Euclidean division and modular arithmetic facts the number-theory proofs
    build on. Every lemma here is about `int`, whose `/` and `%` agree with the
    JavaScript operators on the non-negative operands the RSA page uses. */
module Arith {

  lemma MulAtLeast(t: int, d: int)
    requires t >= 1 && d >= 0
    ensures t * d >= d
  {
    assert t * d == (t - 1) * d + d;
  }

  lemma MulNonNegative(a: int, b: int)
    requires a >= 0 && b >= 0
    ensures a * b >= 0
  {
  }

  lemma MulMonotone(a: int, b: int, c: int)
    requires 0 <= a <= b && c >= 0
    ensures a * c <= b * c
  {
    assert b * c - a * c == (b - a) * c;
    MulNonNegative(b - a, c);
  }

  lemma SquareMonotone(a: int, b: int)
    requires 0 <= a <= b
    ensures a * a <= b * b
  {
    MulMonotone(a, b, a);
    MulMonotone(a, b, b);
  }

  /** Quotient and remainder are unique. */
  lemma DivModUnique(x: int, d: int, q: int, r: int)
    requires d > 0 && x == q * d + r && 0 <= r < d
    ensures x / d == q && x % d == r
  {
    var Q, R := x / d, x % d;
    assert (q - Q) * d == R - r;
    if q - Q >= 1 {
      MulAtLeast(q - Q, d);
      assert false;
    } else if Q - q >= 1 {
      MulAtLeast(Q - q, d);
      assert false;
    }
  }

  lemma ModMultipleAdd(k: int, m: int, x: int)
    requires m > 0
    ensures (k * m + x) % m == x % m
  {
    DivModUnique(k * m + x, m, k + x / m, x % m);
  }

  lemma ModOfMultiple(k: int, m: int)
    requires m > 0
    ensures (k * m) % m == 0
  {
    ModMultipleAdd(k, m, 0);
  }

  lemma ModOfSmall(x: int, m: int)
    requires 0 <= x < m
    ensures x % m == x
  {
    DivModUnique(x, m, 0, x);
  }

  lemma DivModDecompose(x: int, d: int)
    requires d > 0
    ensures x == (x / d) * d + x % d && 0 <= x % d < d
  {
  }

  /** `d` divides `x` (for a positive `d`) exactly when `x` is a multiple of `d`. */
  lemma DividesAsMultiple(x: int, d: int)
    requires d > 0 && x % d == 0
    ensures x == d * (x / d)
  {
  }

  /** Any integer combination of multiples of `d` is a multiple of `d`. */
  lemma DividesCombination(d: int, x: int, y: int, c: int)
    requires d > 0 && x % d == 0 && y % d == 0
    ensures (c * x + y) % d == 0
  {
    var x', y' := x / d, y / d;
    assert x == x' * d && y == y' * d;
    assert c * x + y == (c * x' + y') * d;
    ModOfMultiple(c * x' + y', d);
  }

  lemma DividesProduct(d: int, x: int, c: int)
    requires d > 0 && x % d == 0
    ensures (c * x) % d == 0
  {
    DividesCombination(d, x, 0, c);
  }

  lemma DividesDifference(d: int, x: int, y: int)
    requires d > 0 && x % d == 0 && y % d == 0
    ensures (x - y) % d == 0
  {
    DividesCombination(d, y, x, -1);
  }

  /** A positive multiple of `d` is at least `d`. */
  lemma DivisorAtMost(d: int, x: int)
    requires d > 0 && x > 0 && x % d == 0
    ensures d <= x
  {
    var q := x / d;
    assert x == q * d;
    if q <= 0 {
      MulMonotone(0, -q, d);
      assert false;
    }
    MulAtLeast(q, d);
  }

  /** Two numbers are congruent modulo `m` exactly when their difference is a multiple of `m`. */
  lemma CongruentIffDifference(a: int, b: int, m: int)
    requires m > 0
    ensures a % m == b % m <==> (a - b) % m == 0
  {
    var qa, qb := a / m, b / m;
    assert a == qa * m + a % m && b == qb * m + b % m;
    assert a - b == (qa - qb) * m + (a % m - b % m);
    if a % m == b % m {
      ModOfMultiple(qa - qb, m);
    } else {
      ModMultipleAdd(qa - qb, m, a % m - b % m);
      if a % m > b % m {
        ModOfSmall(a % m - b % m, m);
      } else {
        ModMultipleAdd(1, m, a % m - b % m);
        assert (qa - qb) * m + (a % m - b % m) == (qa - qb - 1) * m + (m + a % m - b % m);
        ModMultipleAdd(qa - qb - 1, m, m + a % m - b % m);
        ModOfSmall(m + a % m - b % m, m);
      }
    }
  }

  lemma MulModLeft(a: int, b: int, m: int)
    requires m > 0
    ensures (a * b) % m == ((a % m) * b) % m
  {
    assert a == (a / m) * m + a % m;
    assert a * b == ((a / m) * b) * m + (a % m) * b;
    ModMultipleAdd((a / m) * b, m, (a % m) * b);
  }

  lemma MulModBoth(a: int, b: int, m: int)
    requires m > 0
    ensures (a * b) % m == ((a % m) * (b % m)) % m
  {
    MulModLeft(a, b, m);
    MulModLeft(b, a % m, m);
    assert (a % m) * b == b * (a % m);
    assert (b % m) * (a % m) == (a % m) * (b % m);
  }

  lemma ModMod(a: int, m: int)
    requires m > 0
    ensures (a % m) % m == a % m
  {
    ModOfSmall(a % m, m);
  }

  /** Natural-number powers, the reference for modular exponentiation. */
  function Pow(b: int, e: nat): int
    decreases e
  {
    if e == 0 then 1 else b * Pow(b, e - 1)
  }

  lemma {:induction false} PowNonNegative(b: int, e: nat)
    requires b >= 0
    ensures Pow(b, e) >= 0
  {
    if e > 0 {
      PowNonNegative(b, e - 1);
      MulNonNegative(b, Pow(b, e - 1));
    }
  }

  lemma {:induction false} PowAdd(b: int, x: nat, y: nat)
    ensures Pow(b, x + y) == Pow(b, x) * Pow(b, y)
    decreases x
  {
    if x > 0 {
      PowAdd(b, x - 1, y);
      assert Pow(b, x + y) == b * Pow(b, x - 1 + y);
    }
  }

  lemma {:induction false} PowMul(b: int, x: nat, y: nat)
    ensures Pow(b, x * y) == Pow(Pow(b, x), y)
    decreases y
  {
    if y > 0 {
      PowMul(b, x, y - 1);
      assert x * y == x + x * (y - 1);
      PowAdd(b, x, x * (y - 1));
    }
  }

  lemma {:induction false} PowSquare(b: int, k: nat)
    ensures Pow(b * b, k) == Pow(b, 2 * k)
  {
    PowMul(b, 2, k);
    assert Pow(b, 2) == b * b;
  }

  lemma {:induction false} PowMod(b: int, e: nat, m: int)
    requires m > 0
    ensures Pow(b % m, e) % m == Pow(b, e) % m
    decreases e
  {
    if e > 0 {
      PowMod(b, e - 1, m);
      calc {
        Pow(b % m, e) % m;
        ((b % m) * Pow(b % m, e - 1)) % m;
        { MulModBoth(b % m, Pow(b % m, e - 1), m); ModMod(b, m); }
        ((b % m) * (Pow(b % m, e - 1) % m)) % m;
        ((b % m) * (Pow(b, e - 1) % m)) % m;
        { MulModBoth(b, Pow(b, e - 1), m); }
        (b * Pow(b, e - 1)) % m;
      }
    }
  }
}
