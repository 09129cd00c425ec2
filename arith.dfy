/** Integer facts shared by the arithmetic core: divisibility, Euclidean
    division (which both Dafny's `/`, `%` and Go's `big.Int.Div`, `big.Int.Mod`
    implement) and natural powers. */
module Arith {

  /** `d` divides `n`. */
  predicate Divides(d: int, n: int) {
    if d == 0 then n == 0 else n % d == 0
  }

  /** Euclidean division is unique: any decomposition with a remainder in
      range is the one `/` and `%` compute. */
  lemma DivModUnique(n: int, m: int, q: int, r: int)
    requires m > 0 && n == m * q + r && 0 <= r < m
    ensures n / m == q && n % m == r
  {
    var q', r' := n / m, n % m;
    assert m * (q - q') == r' - r;
    SmallMultipleIsZero(m, q - q');
  }

  lemma MulAtLeast(m: int, k: int)
    requires m > 0 && k >= 1
    ensures m * k >= m
  {
  }

  /** The only multiple of `m` strictly between `-m` and `m` is zero. */
  lemma SmallMultipleIsZero(m: int, k: int)
    requires m > 0 && -m < m * k < m
    ensures k == 0
  {
    assert m * (-k) == -(m * k);
    if k >= 1 {
      MulAtLeast(m, k);
    } else if k <= -1 {
      MulAtLeast(m, -k);
    }
  }

  lemma DividesMultiple(d: int, k: int)
    ensures Divides(d, d * k)
  {
    if d > 0 {
      DivModUnique(d * k, d, k, 0);
    } else if d < 0 {
      DivModUnique(d * k, -d, -k, 0);
      assert (d * k) % d == (d * k) % (-d);
    }
  }

  lemma DividesWitness(d: int, n: int)
    requires Divides(d, n)
    ensures d != 0 ==> n == d * (n / d)
    ensures d == 0 ==> n == 0
  {
  }

  /** A common divisor of `a` and `b` divides every integer combination of them. */
  lemma DividesCombination(d: int, a: int, b: int, x: int, y: int)
    requires Divides(d, a) && Divides(d, b)
    ensures Divides(d, a * x + b * y)
  {
    if d != 0 {
      var ka, kb := a / d, b / d;
      DividesWitness(d, a);
      DividesWitness(d, b);
      assert a * x + b * y == d * (ka * x + kb * y);
      DividesMultiple(d, ka * x + kb * y);
    }
  }

  /** `b` to the power `e`. */
  function Pow(b: nat, e: nat): nat
    decreases e
  {
    if e == 0 then 1 else b * Pow(b, e - 1)
  }

  lemma MulAssociates(x: int, y: int, z: int)
    ensures x * (y * z) == (x * y) * z
  {
  }

  /** A divisor of a product's multiple divides by each factor. */
  lemma DividesFactors(a: int, b: int, n: int)
    requires Divides(a * b, n)
    ensures Divides(a, n) && Divides(b, n)
  {
    DividesWitness(a * b, n);
    if a * b != 0 {
      var c := n / (a * b);
      assert n == a * (b * c) == b * (a * c);
      DividesMultiple(a, b * c);
      DividesMultiple(b, a * c);
    }
  }

  /** A number congruent to 1 modulo some `d > 1` is positive. */
  lemma DividesMinusOne(d: int, n: nat)
    requires d > 1 && Divides(d, n - 1)
    ensures n >= 1
  {
    if n == 0 {
      DivModUnique(-1, d, -1, d - 1);
    }
  }

  /** Adding a multiple of `m` does not change the remainder modulo `m`. */
  lemma ModAddMultiple(m: int, k: int, t: int)
    requires m > 0
    ensures (m * k + t) % m == t % m
  {
    assert m * k + t == m * (k + t / m) + t % m;
    DivModUnique(m * k + t, m, k + t / m, t % m);
  }

  /** Reducing a factor modulo `m` before multiplying does not change the
      product's remainder. */
  lemma ModMulLeft(a: int, c: int, m: int)
    requires m > 0
    ensures (a % m * c) % m == (a * c) % m
  {
    var q := a / m;
    assert a * c == m * (q * c) + (a % m) * c;
    ModAddMultiple(m, q * c, (a % m) * c);
  }

  /** For a modulus above 1, `m | a - 1` means `a mod m == 1`. */
  lemma CongruentOne(a: int, m: int)
    requires m > 1 && Divides(m, a - 1)
    ensures a % m == 1
  {
    DividesWitness(m, a - 1);
    DivModUnique(a, m, (a - 1) / m, 1);
  }

  /** Dividing by `m` and then by `n` is dividing by `m * n`. */
  lemma DivDiv(x: nat, m: nat, n: nat)
    requires m > 0 && n > 0
    ensures x / m / n == x / (m * n)
    ensures x % (m * n) == m * (x / m % n) + x % m
  {
    var q1, r1 := x / m, x % m;
    var q2, r2 := q1 / n, q1 % n;
    assert x == m * q1 + r1;
    assert q1 == n * q2 + r2;
    assert x == (m * n) * q2 + (m * r2 + r1);
    assert m * r2 <= m * (n - 1);
    DivModUnique(x, m * n, q2, m * r2 + r1);
  }
}
