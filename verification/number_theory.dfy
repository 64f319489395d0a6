/** The integer toolkit of the RSA page (hw3.js): trial-division primality,
    the list of small primes, Euclid's gcd, the extended-Euclid modular inverse
    and square-and-multiply modular exponentiation. */
module NumberTheory {
  import opened Arith

  /** The mathematical notion: at least 2 and no divisor strictly between 1 and itself. */
  ghost predicate Prime(n: int) {
    n >= 2 && forall k :: 2 <= k < n ==> n % k != 0
  }

  /** The trial-division loop of isPrime from the odd candidate `i` on:
      true when no odd `i' >= i` with `i' * i' <= n` divides `n`. */
  function NoOddFactorFrom(n: int, i: int): bool
    requires i >= 3
    decreases n - i
  {
    if i * i > n then true
    else if n % i == 0 then false
    else
      MulAtLeast(i, i);
      NoOddFactorFrom(n, i + 2)
  }

  /** No odd `k >= i` with `k * k <= n` divides `n`. */
  ghost predicate NoOddDivisorFrom(n: int, i: int) {
    forall k :: i <= k && k % 2 == 1 && k * k <= n ==> n % k != 0
  }

  lemma {:induction false} NoOddFactorFromMeaning(n: int, i: int)
    requires i >= 3 && i % 2 == 1
    ensures NoOddFactorFrom(n, i) <==> NoOddDivisorFrom(n, i)
    decreases n - i
  {
    if i * i > n {
      forall k | i <= k && k % 2 == 1
        ensures k * k > n
      {
        SquareMonotone(i, k);
      }
    } else if n % i != 0 {
      MulAtLeast(i, i);
      NoOddFactorFromMeaning(n, i + 2);
      if NoOddDivisorFrom(n, i + 2) {
        forall k | i <= k && k % 2 == 1 && k * k <= n
          ensures n % k != 0
        {
          if k != i {
            OddGap(i, k);
          }
        }
      }
    } else {
      assert !NoOddDivisorFrom(n, i) by {
        assert i <= i && i % 2 == 1 && i * i <= n;
      }
    }
  }

  lemma OddGap(i: int, k: int)
    requires i < k && i % 2 == 1 && k % 2 == 1
    ensures i + 2 <= k
  {
    assert i == 2 * (i / 2) + 1 && k == 2 * (k / 2) + 1;
  }

  /** isPrime(n): false below 2, true at 2, false for other even numbers,
      otherwise odd trial division while `i * i <= n`. */
  function IsPrime(n: int): (r: bool)
    ensures r <==> Prime(n)
  {
    NoOddFactorFromMeaning(n, 3);
    PrimeByTrialDivision(n);
    if n < 2 then false
    else if n == 2 then true
    else if n % 2 == 0 then false
    else NoOddFactorFrom(n, 3)
  }

  /** A composite number has a factor at least 2 whose square is at most the number. */
  lemma SmallFactor(n: int, k: int) returns (d: int)
    requires 2 <= k < n && n % k == 0
    ensures 2 <= d && d * d <= n && n % d == 0
  {
    var j := n / k;
    assert n == j * k;
    if j <= 1 {
      MulMonotone(j, 1, k);
      assert false;
    }
    if k * k <= n {
      d := k;
    } else {
      if k <= j {
        MulMonotone(k, j, k);
        assert false;
      }
      MulMonotone(j, k, j);
      ModOfMultiple(k, j);
      assert n == k * j;
      d := j;
    }
  }

  lemma EvenFactor(n: int, d: int)
    requires d > 0 && n % d == 0 && d % 2 == 0
    ensures n % 2 == 0
  {
    assert n == (n / d) * d;
    assert d == 2 * (d / 2);
    assert n == ((n / d) * (d / 2)) * 2;
    ModOfMultiple((n / d) * (d / 2), 2);
  }

  lemma PrimeByTrialDivision(n: int)
    ensures Prime(n) <==>
            n >= 2 && (n == 2 || (n % 2 != 0 && NoOddDivisorFrom(n, 3)))
  {
    if n >= 2 && n != 2 && n % 2 != 0 && NoOddDivisorFrom(n, 3) {
      forall k | 2 <= k < n
        ensures n % k != 0
      {
        if n % k == 0 {
          var d := SmallFactor(n, k);
          if d % 2 == 0 {
            EvenFactor(n, d);
          }
          assert false;
        }
      }
    }
    if Prime(n) && n > 2 {
      forall k | 3 <= k && k % 2 == 1 && k * k <= n
        ensures n % k != 0
      {
        MulAtLeast(k, k);
      }
    }
  }

  /** getSmallPrimes(limit): the primes in [from, limit], ascending. */
  function PrimesBetween(from: int, limit: int): (ps: seq<int>)
    decreases limit - from
    ensures forall i :: 0 <= i < |ps| ==> from <= ps[i] <= limit && Prime(ps[i])
    ensures forall i, j :: 0 <= i < j < |ps| ==> ps[i] < ps[j]
    ensures forall x :: from <= x <= limit && Prime(x) ==> x in ps
  {
    if from > limit then []
    else if IsPrime(from) then [from] + PrimesBetween(from + 1, limit)
    else PrimesBetween(from + 1, limit)
  }

  function SmallPrimes(limit: int): (ps: seq<int>)
    ensures forall i :: 0 <= i < |ps| ==> Prime(ps[i]) && ps[i] <= limit
    ensures forall i, j :: 0 <= i < j < |ps| ==> ps[i] < ps[j]
    ensures forall x :: x <= limit && Prime(x) ==> x in ps
  {
    PrimesBetween(2, limit)
  }

  /** gcd(a, b): Euclid's loop `(a, b) := (b, a % b)` until `b` is 0. */
  function Gcd(a: nat, b: nat): (g: nat)
    decreases b
    ensures b == 0 ==> g == a
    ensures g == 0 <==> a == 0 && b == 0
    ensures g > 0 ==> a % g == 0 && b % g == 0
    ensures forall d :: d > 0 && a % d == 0 && b % d == 0 ==> g % d == 0
  {
    if b == 0 then a
    else
      var g := Gcd(b, a % b);
      GcdStep(a, b, g);
      g
  }

  /** What one Euclid step transfers from `gcd(b, a % b)` back to `gcd(a, b)`. */
  lemma GcdStep(a: nat, b: nat, g: nat)
    requires b > 0
    requires g == 0 <==> a % b == 0 && b == 0
    requires g > 0 ==> b % g == 0 && (a % b) % g == 0
    requires forall d :: d > 0 && b % d == 0 && (a % b) % d == 0 ==> g % d == 0
    ensures g > 0
    ensures a % g == 0 && b % g == 0
    ensures forall d :: d > 0 && a % d == 0 && b % d == 0 ==> g % d == 0
  {
    assert a == (a / b) * b + a % b;
    DividesCombination(g, b, a % b, a / b);
    forall d | d > 0 && a % d == 0 && b % d == 0
      ensures g % d == 0
    {
      assert a % b == -(a / b) * b + a;
      DividesCombination(d, b, a, -(a / b));
    }
  }

  /** modInverse(e, phi): the extended Euclidean algorithm, then `old_s + phi`
      when the Bezout coefficient is negative. When `e` and `phi` are coprime
      the result is the inverse of `e` modulo `phi`, inside `[0, phi)`. */
  method ModInverse(e: nat, phi: nat) returns (d: int)
    requires e > 0
    ensures phi > 1 ==> 0 <= d < phi
    ensures phi > 1 && Gcd(e, phi) == 1 ==> (e * d) % phi == 1
  {
    var oldR: int, r: int := e, phi;
    var oldS: int, s: int := 1, 0;
    ghost var oldT: int, t: int := 0, 1;
    while r != 0
      invariant EuclidInvariant(e, phi, oldR, r, oldS, s, oldT, t)
      decreases r
    {
      var quotient := oldR / r;
      EuclidInvariantStep(e, phi, oldR, r, oldS, s, oldT, t, quotient);
      oldR, r := r, oldR - quotient * r;
      oldS, s := s, oldS - quotient * s;
      oldT, t := t, oldT - quotient * t;
    }
    d := if oldS < 0 then oldS + phi else oldS;
    if phi > 1 && Gcd(e, phi) == 1 {
      InverseFromBezout(e, phi, oldS, oldT, d);
    }
  }

  /** The facts the extended-Euclid loop keeps: the remainders share the gcd
      of the inputs, both are integer combinations of `e` and `phi` (`t` being
      the coefficient of `phi` the source does not track), and the tracked
      coefficients alternate in sign with `|s|·old_r + |old_s|·r = phi`. */
  ghost predicate EuclidInvariant(e: nat, phi: nat, oldR: int, r: int, oldS: int, s: int, oldT: int, t: int) {
    && 0 <= r && 0 < oldR
    && Gcd(oldR, r) == Gcd(e, phi)
    && oldR == oldS * e + oldT * phi
    && r == s * e + t * phi
    && Abs(s) * oldR + Abs(oldS) * r == phi
    && oldS * s <= 0
    && (phi > 1 ==> Abs(oldS) < phi)
    && (phi > 1 && oldS == 0 ==> Abs(s) < phi)
  }

  lemma EuclidInvariantStep(e: nat, phi: nat, oldR: int, r: int, oldS: int, s: int, oldT: int, t: int, q: int)
    requires EuclidInvariant(e, phi, oldR, r, oldS, s, oldT, t)
    requires r != 0 && q == oldR / r
    ensures 0 <= oldR - q * r < r
    ensures EuclidInvariant(e, phi, r, oldR - q * r, s, oldS - q * s, t, oldT - q * t)
  {
    assert 0 < r && 0 < oldR;
    var r' := oldR - q * r;
    RemainderStep(oldR, r, q);
    assert Gcd(oldR, r) == Gcd(r, r');
    EuclidStepCoefficients(oldR, r, oldS, s, q, phi);
    BezoutStep(oldR, r, oldS, s, oldT, t, q, e, phi);
  }

  /** `old_r - q * r` with `q = old_r / r` is the remainder of the division. */
  lemma RemainderStep(oldR: int, r: int, q: int)
    requires oldR >= 0 && r > 0 && q == oldR / r
    ensures q >= 0
    ensures oldR - q * r == oldR % r && 0 <= oldR - q * r < r
  {
    DivModDecompose(oldR, r);
  }

  lemma BezoutStep(oldR: int, r: int, oldS: int, s: int, oldT: int, t: int, q: int, e: int, phi: int)
    requires oldR == oldS * e + oldT * phi && r == s * e + t * phi
    ensures oldR - q * r == (oldS - q * s) * e + (oldT - q * t) * phi
  {
    assert q * r == (q * s) * e + (q * t) * phi;
    assert (oldS - q * s) * e == oldS * e - (q * s) * e;
    assert (oldT - q * t) * phi == oldT * phi - (q * t) * phi;
  }

  lemma InverseFromBezout(e: int, phi: int, oldS: int, oldT: int, d: int)
    requires phi > 1 && 1 == oldS * e + oldT * phi
    requires d == if oldS < 0 then oldS + phi else oldS
    ensures (e * d) % phi == 1
  {
    var k := if oldS < 0 then e - oldT else -oldT;
    assert e * d == 1 + k * phi by {
      if oldS < 0 {
        assert e * d == e * oldS + e * phi;
      }
    }
    ModMultipleAdd(k, phi, 1);
    ModOfSmall(1, phi);
  }

  function Abs(x: int): nat {
    if x < 0 then -x else x
  }

  /** One extended-Euclid step keeps the coefficient invariants:
      the coefficients alternate in sign and `|s|·old_r + |old_s|·r = phi`. */
  lemma EuclidStepCoefficients(oldR: int, r: int, oldS: int, s: int, q: int, phi: int)
    requires 0 < r && 0 < oldR && q >= 0
    requires Abs(s) * oldR + Abs(oldS) * r == phi
    requires oldS * s <= 0
    requires phi > 1 ==> Abs(oldS) < phi
    requires phi > 1 && oldS == 0 ==> Abs(s) < phi
    ensures Abs(oldS - q * s) * r + Abs(s) * (oldR - q * r) == phi
    ensures s * (oldS - q * s) <= 0
    ensures phi > 1 ==> Abs(s) < phi
    ensures phi > 1 && s == 0 ==> Abs(oldS - q * s) < phi
  {
    var a, b, a' := Abs(oldS), Abs(s), Abs(oldS - q * s);
    AlternatingAbs(oldS, s, q);
    assert a' == a + q * b;
    StepIdentity(a, b, q, r, oldR);
    assert a' * r + b * (oldR - q * r) == a * r + b * oldR;
    StepSign(oldS, s, q);
    if phi > 1 && oldS != 0 {
      StepBound(Abs(oldS), Abs(s), r, oldR, phi);
    }
  }

  lemma StepIdentity(a: int, b: int, q: int, r: int, oldR: int)
    ensures (a + q * b) * r + b * (oldR - q * r) == a * r + b * oldR
  {
    assert (a + q * b) * r == a * r + (q * b) * r;
    assert b * (oldR - q * r) == b * oldR - b * (q * r);
    assert (q * b) * r == b * (q * r);
  }

  lemma StepSign(oldS: int, s: int, q: int)
    requires q >= 0 && oldS * s <= 0
    ensures s * (oldS - q * s) <= 0
  {
    assert s * (oldS - q * s) == s * oldS - q * (s * s);
    MulNonNegative(q, s * s);
  }

  lemma StepBound(a: int, b: int, r: int, oldR: int, phi: int)
    requires a >= 1 && b >= 0 && r >= 1 && oldR >= 1
    requires b * oldR + a * r == phi
    ensures b < phi
  {
    MulAtLeast(a, r);
    MulAtLeast(oldR, b);
    assert b * oldR == oldR * b;
  }

  lemma AlternatingAbs(oldS: int, s: int, q: int)
    requires q >= 0 && oldS * s <= 0
    ensures Abs(oldS - q * s) == Abs(oldS) + q * Abs(s)
  {
    if s > 0 {
      if oldS > 0 {
        MulAtLeast(oldS, s);
        assert false;
      }
      MulNonNegative(q, s);
    } else if s < 0 {
      if oldS < 0 {
        MulAtLeast(-oldS, -s);
        assert false;
      }
      MulNonNegative(q, -s);
    }
  }

  /** The square-and-multiply loop of modPow, entered with accumulator
      `result`, running base `base` and remaining exponent `exp`. */
  function SquareMultiply(result: nat, base: nat, exp: nat, m: nat): (r: nat)
    requires m > 1 && result < m
    decreases exp
    ensures r < m
    ensures r == (result * Pow(base, exp)) % m
  {
    if exp == 0 then
      ModOfSmall(result, m);
      result
    else
      var result' := if exp % 2 == 1 then (result * base) % m else result;
      var r := SquareMultiply(result', (base * base) % m, exp / 2, m);
      SquareMultiplyStep(result, base, exp, m, result', r);
      r
  }

  lemma SquareMultiplyStep(result: nat, base: nat, exp: nat, m: nat, result': nat, r: nat)
    requires m > 1 && exp > 0
    requires result' == if exp % 2 == 1 then (result * base) % m else result
    requires r == (result' * Pow((base * base) % m, exp / 2)) % m
    ensures r == (result * Pow(base, exp)) % m
  {
    var k := exp / 2;
    var P := Pow(base * base, k);
    calc {
      r;
      (result' * Pow((base * base) % m, k)) % m;
      { MulModBoth(result', Pow((base * base) % m, k), m);
        PowMod(base * base, k, m);
        MulModBoth(result', P, m); }
      (result' * P) % m;
    }
    PowSquare(base, k);
    if exp % 2 == 1 {
      assert exp == 2 * k + 1;
      PowAdd(base, 2 * k, 1);
      assert Pow(base, 1) == base;
      calc {
        (result' * P) % m;
        { MulModLeft(result * base, P, m); }
        ((result * base) * P) % m;
        { assert (result * base) * P == result * (P * base); }
        (result * Pow(base, exp)) % m;
      }
    } else {
      assert exp == 2 * k;
    }
  }

  /** modPow(base, exp, mod): 0 when `mod` is 1, else square-and-multiply from
      `base % mod`; the result is `base^exp mod mod`. */
  function ModPow(base: nat, exp: nat, m: nat): (r: nat)
    requires m > 0
    ensures r < m
    ensures r == Pow(base, exp) % m
  {
    if m == 1 then 0
    else
      ModOfSmall(1, m);
      PowMod(base, exp, m);
      MulModLeft(1, Pow(base % m, exp), m);
      SquareMultiply(1, base % m, exp, m)
  }
}
