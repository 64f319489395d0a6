/** Why textbook RSA decrypts what it encrypts: Bezout's identity, Euclid's
    lemma, the binomial theorem, Fermat's little theorem and the Chinese
    remainder step for two distinct primes. These facts carry the round-trip
    property of the hw3.js key pair; the page itself only relies on them. */
module Fermat {
  import opened Arith
  import opened NumberTheory

  /** Bezout's identity: the gcd is an integer combination of its arguments. */
  lemma {:induction false} Bezout(a: nat, b: nat) returns (x: int, y: int)
    ensures x * a + y * b == Gcd(a, b)
    decreases b
  {
    if b == 0 {
      x, y := 1, 0;
    } else {
      var x', y' := Bezout(b, a % b);
      var q, r := a / b, a % b;
      DivModDecompose(a, b);
      assert Gcd(a, b) == Gcd(b, r);
      BezoutAlgebra(a, b, q, r, x', y', Gcd(a, b));
      x, y := y', x' - y' * q;
    }
  }

  /** One Euclid step back: coefficients for `(b, r)` give coefficients for
      `(a, b)` when `a = q·b + r`. */
  lemma BezoutAlgebra(a: int, b: int, q: int, r: int, x: int, y: int, g: int)
    requires a == q * b + r && x * b + y * r == g
    ensures y * a + (x - y * q) * b == g
  {
    assert y * a == y * (q * b) + y * r;
    assert (x - y * q) * b == x * b - (y * q) * b;
    assert y * (q * b) == (y * q) * b;
  }

  /** A prime shares no factor with a number it does not divide. */
  lemma CoprimeToPrime(p: nat, a: nat)
    requires Prime(p) && a % p != 0
    ensures Gcd(p, a) == 1
  {
    var g := Gcd(p, a);
    DivisorAtMost(g, p);
    if g != 1 {
      assert false;
    }
  }

  /** Euclid's lemma: a prime dividing a product divides one of its factors. */
  lemma EuclidLemma(p: nat, a: nat, b: int)
    requires Prime(p) && (a * b) % p == 0
    ensures a % p == 0 || b % p == 0
  {
    if a % p != 0 {
      CoprimeToPrime(p, a);
      var x, y := Bezout(p, a);
      assert b == (x * b) * p + y * (a * b) by {
        assert (x * p + y * a) * b == b;
      }
      ModOfMultiple(x * b, p);
      DividesCombination(p, a * b, (x * b) * p, y);
    }
  }

  /** Binomial coefficients by Pascal's rule. */
  function Choose(n: nat, k: nat): nat
    decreases n, k
  {
    if k == 0 then 1
    else if n == 0 then 0
    else Choose(n - 1, k - 1) + Choose(n - 1, k)
  }

  lemma {:induction false} ChooseAbove(n: nat, k: nat)
    requires k > n
    ensures Choose(n, k) == 0
    decreases n
  {
    if n > 0 {
      ChooseAbove(n - 1, k - 1);
      ChooseAbove(n - 1, k);
    }
  }

  /** The absorption identity `k·C(n, k) = n·C(n-1, k-1)`. */
  lemma {:induction false} Absorption(n: nat, k: nat)
    requires 1 <= k && 1 <= n
    ensures k * Choose(n, k) == n * Choose(n - 1, k - 1)
    decreases n
  {
    if n == 1 {
      if k > 1 {
        ChooseAbove(1, k);
        ChooseAbove(0, k - 1);
      }
    } else if k == 1 {
      OneAndSelf(n);
    } else {
      Absorption(n - 1, k);
      Absorption(n - 1, k - 1);
      AbsorptionAlgebra(n, k, Choose(n - 1, k - 1), Choose(n - 1, k),
                        Choose(n - 2, k - 2), Choose(n - 2, k - 1));
    }
  }

  lemma AbsorptionAlgebra(n: int, k: int, a: int, b: int, c: int, d: int)
    requires k * b == (n - 1) * d && (k - 1) * a == (n - 1) * c && a == c + d
    ensures k * (a + b) == n * a
  {
    assert k * (a + b) == k * a + k * b;
    assert k * a == (k - 1) * a + a;
    assert (n - 1) * c + (n - 1) * d == (n - 1) * a;
    assert n * a == (n - 1) * a + a;
  }

  lemma {:induction false} OneAndSelf(n: nat)
    ensures Choose(n, 1) == n
  {
    if n > 0 {
      OneAndSelf(n - 1);
    }
  }

  /** `p` divides every interior binomial coefficient `C(p, k)` of a prime `p`. */
  lemma PrimeDividesChoose(p: nat, k: nat)
    requires Prime(p) && 0 < k < p
    ensures Choose(p, k) % p == 0
  {
    var c, c' := Choose(p, k), Choose(p - 1, k - 1);
    Absorption(p, k);
    MultipleOfModulus(k * c, c', p);
    ModOfSmall(k, p);
    EuclidLemma(p, k, c);
  }

  lemma MultipleOfModulus(x: int, c: int, p: int)
    requires p > 0 && x == p * c
    ensures x % p == 0
  {
    assert x == c * p;
    ModOfMultiple(c, p);
  }

  /** The first `j` terms of the binomial expansion of `(a + 1)^n`. */
  function BinomialPrefix(n: nat, a: int, j: nat): int
    decreases j
  {
    if j == 0 then 0 else BinomialPrefix(n, a, j - 1) + Choose(n, j - 1) * Pow(a, j - 1)
  }

  lemma {:induction false} BinomialPrefixPascal(n: nat, a: int, j: nat)
    requires j >= 1
    ensures BinomialPrefix(n + 1, a, j) == BinomialPrefix(n, a, j) + a * BinomialPrefix(n, a, j - 1)
    decreases j
  {
    if j > 1 {
      BinomialPrefixPascal(n, a, j - 1);
      var lo, hi := Choose(n, j - 2), Choose(n, j - 1);
      var x, y := Pow(a, j - 2), Pow(a, j - 1);
      var s1, s2 := BinomialPrefix(n, a, j - 1), BinomialPrefix(n, a, j - 2);
      assert Choose(n + 1, j - 1) == lo + hi;
      assert y == a * x;
      assert BinomialPrefix(n + 1, a, j) == s1 + a * s2 + (lo + hi) * y;
      assert BinomialPrefix(n, a, j) == s1 + hi * y;
      assert BinomialPrefix(n, a, j - 1) == s2 + lo * x;
      PascalAlgebra(a, lo, hi, x, y, s1, s2);
    }
  }

  lemma PascalAlgebra(a: int, lo: int, hi: int, x: int, y: int, s1: int, s2: int)
    requires y == a * x
    ensures s1 + a * s2 + (lo + hi) * y == (s1 + hi * y) + a * (s2 + lo * x)
  {
    assert (lo + hi) * y == lo * y + hi * y;
    assert a * (s2 + lo * x) == a * s2 + lo * (a * x);
  }

  /** The binomial theorem for `(a + 1)^n`. */
  lemma {:induction false} BinomialTheorem(n: nat, a: int)
    ensures BinomialPrefix(n, a, n + 1) == Pow(a + 1, n)
  {
    if n > 0 {
      BinomialTheorem(n - 1, a);
      BinomialPrefixPascal(n - 1, a, n + 1);
      ChooseAbove(n - 1, n);
      assert BinomialPrefix(n - 1, a, n + 1) == BinomialPrefix(n - 1, a, n);
      assert Pow(a + 1, n) == (a + 1) * Pow(a + 1, n - 1);
    }
  }

  lemma {:induction false} InteriorTermsVanish(p: nat, a: int, j: nat)
    requires Prime(p) && 1 <= j <= p
    ensures (BinomialPrefix(p, a, j) - 1) % p == 0
    decreases j
  {
    if j > 1 {
      InteriorTermsVanish(p, a, j - 1);
      PrimeDividesChoose(p, j - 1);
      DividesProduct(p, Choose(p, j - 1), Pow(a, j - 1));
      assert BinomialPrefix(p, a, j) - 1
          == Pow(a, j - 1) * Choose(p, j - 1) + (BinomialPrefix(p, a, j - 1) - 1);
      DividesCombination(p, Choose(p, j - 1), BinomialPrefix(p, a, j - 1) - 1, Pow(a, j - 1));
    }
  }

  /** The "freshman's dream" modulo a prime: `(a + 1)^p ≡ a^p + 1`. */
  lemma FreshmansDream(p: nat, a: int)
    requires Prime(p)
    ensures (Pow(a + 1, p) - Pow(a, p) - 1) % p == 0
  {
    BinomialTheorem(p, a);
    InteriorTermsVanish(p, a, p);
    assert Choose(p, p) == 1 by {
      ChooseSelf(p);
    }
    assert BinomialPrefix(p, a, p + 1) == BinomialPrefix(p, a, p) + Pow(a, p);
  }

  lemma {:induction false} ChooseSelf(n: nat)
    ensures Choose(n, n) == 1
  {
    if n > 0 {
      ChooseSelf(n - 1);
      ChooseAbove(n - 1, n);
    }
  }

  /** Fermat's little theorem: `a^p ≡ a (mod p)` for every natural `a`. */
  lemma {:induction false} LittleTheorem(p: nat, a: nat)
    requires Prime(p)
    ensures Pow(a, p) % p == a % p
    decreases a
  {
    if a == 0 {
      assert Pow(0, p) == 0 * Pow(0, p - 1);
    } else {
      LittleTheorem(p, a - 1);
      FreshmansDream(p, a - 1);
      CongruentIffDifference(Pow(a - 1, p), a - 1, p);
      assert Pow(a, p) - a == (Pow(a, p) - Pow(a - 1, p) - 1) + (Pow(a - 1, p) - (a - 1));
      DividesCombination(p, Pow(a, p) - Pow(a - 1, p) - 1, Pow(a - 1, p) - (a - 1), 1);
      CongruentIffDifference(Pow(a, p), a, p);
    }
  }

  /** Iterating Fermat: `a^(1 + t·(p-1)) ≡ a (mod p)`, with no coprimality needed. */
  lemma {:induction false} LittleTheoremIterated(p: nat, a: nat, t: nat)
    requires Prime(p)
    ensures Pow(a, 1 + t * (p - 1)) % p == a % p
    decreases t
  {
    if t == 0 {
      assert Pow(a, 1) == a * Pow(a, 0);
    } else {
      LittleTheoremIterated(p, a, t - 1);
      var x := (t - 1) * (p - 1);
      assert 1 + t * (p - 1) == x + p;
      PowAdd(a, x, p);
      PowAdd(a, x, 1);
      assert Pow(a, 1) == a * Pow(a, 0);
      LittleTheorem(p, a);
      calc {
        Pow(a, x + p) % p;
        (Pow(a, x) * Pow(a, p)) % p;
        { MulModBoth(Pow(a, x), Pow(a, p), p); MulModBoth(Pow(a, x), a, p); }
        (Pow(a, x) * a) % p;
        Pow(a, 1 + x) % p;
      }
    }
  }

  /** Two distinct primes that both divide `z` divide it together. */
  lemma ChineseRemainder(p: nat, q: nat, z: int)
    requires Prime(p) && Prime(q) && p != q
    requires z % p == 0 && z % q == 0
    ensures z % (p * q) == 0
  {
    var w := z / p;
    assert z == p * w;
    EuclidLemma(q, p, w);
    if p % q == 0 {
      DivisorAtMost(q, p);
      assert false;
    }
    var v := w / q;
    assert w == q * v;
    assert z == v * (p * q);
    ModOfMultiple(v, p * q);
  }

  /** The RSA identity: for distinct primes `p`, `q` and exponents with
      `e·d ≡ 1 (mod (p-1)(q-1))`, raising any `m < p·q` to `e·d` gives `m` back. */
  lemma RsaIdentity(p: nat, q: nat, e: nat, d: nat, m: nat)
    requires Prime(p) && Prime(q) && p != q
    requires (p - 1) * (q - 1) > 0 && (e * d) % ((p - 1) * (q - 1)) == 1
    requires m < p * q
    ensures Pow(m, e * d) % (p * q) == m
  {
    var phi := (p - 1) * (q - 1);
    var k := (e * d) / phi;
    DivModDecompose(e * d, phi);
    assert e * d == 1 + (k * (q - 1)) * (p - 1);
    assert e * d == 1 + (k * (p - 1)) * (q - 1);
    assert k >= 0 by {
      if k < 0 {
        MulMonotone(0, -k, phi);
        assert false;
      }
    }
    MulNonNegative(k, q - 1);
    MulNonNegative(k, p - 1);
    LittleTheoremIterated(p, m, k * (q - 1));
    LittleTheoremIterated(q, m, k * (p - 1));
    CongruentIffDifference(Pow(m, e * d), m, p);
    CongruentIffDifference(Pow(m, e * d), m, q);
    ChineseRemainder(p, q, Pow(m, e * d) - m);
    CongruentIffDifference(Pow(m, e * d), m, p * q);
    ModOfSmall(m, p * q);
  }
}
