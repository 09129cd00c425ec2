/** Number theory behind the cipher's correctness: Euclid's lemma, binomial
    coefficients, Fermat's little theorem and the Chinese remainder step for
    two distinct primes. The program itself never checks any of this; it is
    what makes `b^d mod n` undo `c^e mod n` for the keys `genKeys` derives. */
module Primes {
  import opened Arith
  import opened Euclid

  /** `p` is a prime: above 1, with no divisor strictly between 1 and `p`. */
  ghost predicate IsPrime(p: int) {
    p > 1 && forall d :: 1 < d < p ==> !Divides(d, p)
  }

  /** The only divisor above 1 of a prime is the prime itself. */
  lemma PrimeOnlyDivisor(p: int, d: int)
    requires IsPrime(p) && d > 1
    ensures Divides(d, p) ==> d == p
  {
    if Divides(d, p) {
      DivisorAtMost(d, p);
    }
  }

  /** A number that a prime does not divide is coprime to it. */
  lemma PrimeCoprime(p: int, a: nat)
    requires IsPrime(p) && !Divides(p, a)
    ensures ExtGcd(a, p).g == 1
  {
    forall d | d > 1 && Divides(d, a)
      ensures !Divides(d, p)
    {
      PrimeOnlyDivisor(p, d);
    }
    assert Coprime(a, p);
    GcdOneIffCoprime(a, p);
  }

  /** If `a*x + p*y == 1` and `p` divides `a*b`, then `p` divides `b`. */
  lemma BezoutCancel(p: int, a: int, b: int, x: int, y: int)
    requires a * x + p * y == 1 && Divides(p, a * b)
    ensures Divides(p, b)
  {
    DividesMultiple(p, 1);
    DividesCombination(p, a * b, p, x, b * y);
    assert (a * b) * x + p * (b * y) == b * (a * x + p * y);
  }

  /** Euclid's lemma: a prime dividing a product divides one of its factors. */
  lemma PrimeDividesProduct(p: int, a: nat, b: int)
    requires IsPrime(p) && Divides(p, a * b)
    ensures Divides(p, a) || Divides(p, b)
  {
    if !Divides(p, a) {
      PrimeCoprime(p, a);
      var r := ExtGcd(a, p);
      BezoutCancel(p, a, b, r.x, r.y);
    }
  }

  /** A number strictly between 0 and `p` is not a multiple of `p`. */
  lemma NotMultipleBelow(p: int, k: int)
    requires 0 < k < p
    ensures !Divides(p, k)
  {
    DivModUnique(k, p, 0, k);
  }

  /** Powers of the same base multiply by adding exponents. */
  lemma {:induction false} PowAdd(b: nat, i: nat, j: nat)
    ensures Pow(b, i + j) == Pow(b, i) * Pow(b, j)
    decreases i
  {
    if i > 0 {
      PowAdd(b, i - 1, j);
      assert Pow(b, i + j) == b * Pow(b, i - 1 + j);
      MulAssociates(b, Pow(b, i - 1), Pow(b, j));
    }
  }


  /** A power of a power multiplies the exponents. */
  lemma {:induction false} PowMul(b: nat, i: nat, j: nat)
    ensures Pow(b, i * j) == Pow(Pow(b, i), j)
    decreases j
  {
    if j > 0 {
      PowMul(b, i, j - 1);
      assert i * j == i + i * (j - 1);
      PowAdd(b, i, i * (j - 1));
    }
  }

  lemma {:induction false} PowPositive(b: nat, e: nat)
    requires b > 0
    ensures Pow(b, e) > 0
    decreases e
  {
    if e > 0 {
      PowPositive(b, e - 1);
    }
  }

  /** A number congruent to 1 has every power congruent to 1. */
  lemma {:induction false} PowCongruentOne(m: int, u: nat, t: nat)
    requires Divides(m, u - 1)
    ensures Divides(m, Pow(u, t) - 1)
    decreases t
  {
    if t == 0 {
      assert Pow(u, 0) - 1 == 0;
      DividesMultiple(m, 0);
    } else {
      PowCongruentOne(m, u, t - 1);
      var w: int := Pow(u, t - 1);
      DividesCombination(m, w - 1, u - 1, u, 1);
      NextPowerAlgebra(u, w);
    }
  }

  lemma NextPowerAlgebra(u: int, w: int)
    ensures (w - 1) * u + (u - 1) * 1 == u * w - 1
  {
  }

  /** Binomial coefficient `n` choose `k`, by Pascal's rule. */
  function Binom(n: nat, k: nat): nat
    decreases n
  {
    if k == 0 then 1 else if n == 0 then 0 else Binom(n - 1, k - 1) + Binom(n - 1, k)
  }

  lemma {:induction false} BinomOne(n: nat)
    ensures Binom(n, 1) == n
    decreases n
  {
    if n > 0 {
      BinomOne(n - 1);
    }
  }

  lemma {:induction false} BinomAbove(n: nat, k: nat)
    requires k > n
    ensures Binom(n, k) == 0
    decreases n
  {
    if n > 0 {
      BinomAbove(n - 1, k - 1);
      BinomAbove(n - 1, k);
    }
  }

  lemma {:induction false} BinomAll(n: nat)
    ensures Binom(n, n) == 1
    decreases n
  {
    if n > 0 {
      BinomAll(n - 1);
      BinomAbove(n - 1, n);
    }
  }

  /** The absorption identity `k * C(n, k) == n * C(n-1, k-1)`. */
  lemma {:induction false} BinomAbsorb(n: nat, k: nat)
    requires n >= 1 && k >= 1
    ensures k * Binom(n, k) == n * Binom(n - 1, k - 1)
    decreases n
  {
    if k == 1 {
      BinomOne(n);
    } else if n == 1 {
      assert Binom(1, k) == Binom(0, k - 1) + Binom(0, k);
    } else {
      BinomAbsorb(n - 1, k - 1);
      BinomAbsorb(n - 1, k);
      AbsorbAlgebra(n, k, Binom(n - 1, k - 1), Binom(n - 1, k), Binom(n - 2, k - 2), Binom(n - 2, k - 1));
    }
  }

  lemma AbsorbAlgebra(n: int, k: int, b1: int, b2: int, c1: int, c2: int)
    requires (k - 1) * b1 == (n - 1) * c1 && k * b2 == (n - 1) * c2 && b1 == c1 + c2
    ensures k * (b1 + b2) == n * b1
  {
    calc {
      k * (b1 + b2);
      (k - 1) * b1 + b1 + k * b2;
      (n - 1) * c1 + (n - 1) * c2 + b1;
      (n - 1) * (c1 + c2) + b1;
      n * b1;
    }
  }

  /** A prime divides every binomial coefficient of its own row except the
      two outer ones. */
  lemma PrimeDividesBinom(p: int, k: nat)
    requires IsPrime(p) && 0 < k < p
    ensures Divides(p, Binom(p, k))
  {
    BinomAbsorb(p, k);
    DividesMultiple(p, Binom(p - 1, k - 1));
    assert Divides(p, k * Binom(p, k));
    NotMultipleBelow(p, k);
    PrimeDividesProduct(p, k, Binom(p, k));
  }

  /** The first `j` terms of the binomial expansion of `(a + 1)^n`:
      the sum of `C(n, i) * a^i` for `i < j`. */
  function BinomSum(a: nat, n: nat, j: nat): nat
    decreases j
  {
    if j == 0 then 0 else BinomSum(a, n, j - 1) + Binom(n, j - 1) * Pow(a, j - 1)
  }

  /** Pascal's rule carried through partial sums. */
  lemma {:induction false} BinomSumStep(a: nat, n: nat, j: nat)
    ensures BinomSum(a, n + 1, j + 1) == a * BinomSum(a, n, j) + BinomSum(a, n, j + 1)
    decreases j
  {
    if j > 0 {
      BinomSumStep(a, n, j - 1);
      StepAlgebra(a, BinomSum(a, n, j - 1), BinomSum(a, n, j), Binom(n, j - 1), Binom(n, j), Pow(a, j - 1), Pow(a, j));
    }
  }

  lemma StepAlgebra(a: int, s0: int, s1: int, b0: int, b1: int, w0: int, w1: int)
    requires w1 == a * w0 && s1 == s0 + b0 * w0
    ensures a * s0 + s1 + (b0 + b1) * w1 == a * s1 + (s1 + b1 * w1)
  {
    calc {
      a * s0 + s1 + (b0 + b1) * w1;
      a * s0 + s1 + b0 * (a * w0) + b1 * w1;
      a * (s0 + b0 * w0) + s1 + b1 * w1;
    }
  }

  lemma SuccessorTimes(a: int, s: int)
    ensures (a + 1) * s == a * s + s
  {
  }

  /** The binomial theorem for `(a + 1)^n`. */
  lemma {:induction false} BinomialTheorem(a: nat, n: nat)
    ensures Pow(a + 1, n) == BinomSum(a, n, n + 1)
    decreases n
  {
    if n > 0 {
      var prev := BinomSum(a, n - 1, n);
      BinomialTheorem(a, n - 1);
      assert Pow(a + 1, n) == (a + 1) * prev;
      BinomSumStep(a, n - 1, n);
      BinomAbove(n - 1, n);
      assert BinomSum(a, n - 1, n + 1) == prev + 0 * Pow(a, n);
      SuccessorTimes(a, prev);
    }
  }

  /** All terms of the expansion of `(a + 1)^p` but the first and last are
      multiples of the prime `p`. */
  lemma {:induction false} InnerTermsMultiple(a: nat, p: int, j: nat)
    requires IsPrime(p) && 1 <= j <= p
    ensures Divides(p, BinomSum(a, p, j) - 1)
    decreases j
  {
    if j == 1 {
      DividesMultiple(p, 0);
    } else {
      InnerTermsMultiple(a, p, j - 1);
      PrimeDividesBinom(p, j - 1);
      DividesMultiple(p, 0);
      DividesCombination(p, Binom(p, j - 1), 0, Pow(a, j - 1), 0);
      DividesCombination(p, BinomSum(a, p, j - 1) - 1, Binom(p, j - 1) * Pow(a, j - 1), 1, 1);
    }
  }

  /** Fermat's little theorem: `p` divides `a^p - a` for every prime `p`. */
  lemma {:induction false} Fermat(p: int, a: nat)
    requires IsPrime(p)
    ensures Divides(p, Pow(a, p) - a)
    decreases a
  {
    if a == 0 {
      assert Pow(0, p) == 0 * Pow(0, p - 1);
      DividesMultiple(p, 0);
    } else {
      Fermat(p, a - 1);
      BinomialTheorem(a - 1, p);
      BinomAll(p);
      InnerTermsMultiple(a - 1, p, p);
      var s := BinomSum(a - 1, p, p);
      assert Pow(a, p) == s + Pow(a - 1, p);
      DividesCombination(p, s - 1, Pow(a - 1, p) - (a - 1), 1, 1);
    }
  }

  /** Fermat's theorem in its usual form: for `a` not a multiple of `p`,
      `a^(p-1)` is congruent to 1. */
  lemma FermatCoprime(p: int, a: nat)
    requires IsPrime(p) && !Divides(p, a)
    ensures Divides(p, Pow(a, p - 1) - 1)
  {
    Fermat(p, a);
    DividesMultiple(p, 0);
    PowPositive(a, p - 1);
    assert Pow(a, p) - a == a * (Pow(a, p - 1) - 1);
    PrimeDividesProduct(p, a, Pow(a, p - 1) - 1);
  }

  /** `m^e` is congruent to `m` modulo a prime `p` whenever `e - 1` is a
      multiple of `p - 1`, whether or not `p` divides `m`. */
  lemma PowCongruentPrime(p: int, m: nat, e: nat)
    requires IsPrime(p) && e >= 1 && Divides(p - 1, e - 1)
    ensures Divides(p, Pow(m, e) - m)
  {
    PowSucc(m, e);
    if Divides(p, m) {
      DividesCombination(p, m, m, Pow(m, e - 1), -1);
    } else {
      FermatCoprime(p, m);
      PowMulCongruent(p, m, p - 1, e - 1);
      TimesCongruent(p, m, Pow(m, e - 1));
    }
  }

  lemma PowSucc(b: nat, e: nat)
    requires e >= 1
    ensures Pow(b, e) == b * Pow(b, e - 1)
  {
  }

  /** If `m^j` is congruent to 1, so is `m^k` for every multiple `k` of `j`. */
  lemma PowMulCongruent(p: int, m: nat, j: nat, k: nat)
    requires Divides(p, Pow(m, j) - 1) && Divides(j, k)
    ensures Divides(p, Pow(m, k) - 1)
  {
    if j != 0 {
      DividesWitness(j, k);
      var t := k / j;
      QuotientNat(k, j);
      PowCongruentOne(p, Pow(m, j), t);
      PowMul(m, j, t);
    }
  }

  lemma QuotientNat(k: nat, j: nat)
    requires j > 0
    ensures k / j >= 0
  {
  }

  /** Multiplying a number congruent to 1 by `m` gives one congruent to `m`. */
  lemma TimesCongruent(p: int, m: int, x: int)
    requires Divides(p, x - 1)
    ensures Divides(p, m * x - m)
  {
    DividesMultiple(p, 0);
    DividesCombination(p, x - 1, 0, m, 0);
    assert (x - 1) * m + 0 * 0 == m * x - m;
  }

  /** A number that both of two distinct primes divide is a multiple of their
      product. */
  lemma DistinctPrimesDivide(p: int, q: int, x: int)
    requires IsPrime(p) && IsPrime(q) && p != q
    requires Divides(p, x) && Divides(q, x)
    ensures Divides(p * q, x)
  {
    DividesWitness(p, x);
    var s := x / p;
    PrimeDividesProduct(q, p, s);
    PrimeOnlyDivisor(p, q);
    DividesWitness(q, s);
    var r := s / q;
    assert x == (p * q) * r;
    DividesMultiple(p * q, r);
  }
}
