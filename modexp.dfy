/** `rsa(base, exp, mod)` (main.go:60-62) is `big.Int.Exp`; this module
    states what it computes and implements it by square-and-multiply. */
module ModExp {
  import opened Arith

  /** Reduction as `big.Int.Exp` applies it: modulo `m`, or not at all when
      `m` is zero. */
  function Reduce(x: nat, m: nat): nat {
    if m == 0 then x else x % m
  }

  /** `big.Int.Exp(base, exp, mod)` for a non-negative base and exponent:
      `base^exp mod mod`, and the plain power when `mod` is zero. */
  function Rsa(base: nat, exp: nat, mod: nat): (r: nat)
    ensures mod > 0 ==> r < mod
    ensures mod > 0 ==> Divides(mod, Pow(base, exp) - r)
  {
    RemainderCongruent(Pow(base, exp), mod);
    Reduce(Pow(base, exp), mod)
  }

  lemma RemainderCongruent(p: nat, m: nat)
    ensures m > 0 ==> Divides(m, p - Reduce(p, m))
  {
    if m > 0 {
      assert p - p % m == m * (p / m);
      DividesMultiple(m, p / m);
    }
  }

  lemma ReduceMulLeft(a: nat, c: nat, m: nat)
    ensures Reduce(Reduce(a, m) * c, m) == Reduce(a * c, m)
  {
    if m > 0 {
      ModMulLeft(a, c, m);
    }
  }

  lemma ReduceMulRight(a: nat, c: nat, m: nat)
    ensures Reduce(a * Reduce(c, m), m) == Reduce(a * c, m)
  {
    ReduceMulLeft(c, a, m);
    assert a * Reduce(c, m) == Reduce(c, m) * a;
    assert a * c == c * a;
  }

  lemma {:induction false} PowReduce(b: nat, e: nat, m: nat)
    ensures Reduce(Pow(Reduce(b, m), e), m) == Reduce(Pow(b, e), m)
  {
    if e > 0 {
      var rb := Reduce(b, m);
      var p1, p2 := Pow(rb, e - 1), Pow(b, e - 1);
      assert Pow(rb, e) == rb * p1;
      assert Pow(b, e) == b * p2;
      PowReduce(b, e - 1, m);
      assert Reduce(p1, m) == Reduce(p2, m);
      ReduceMulRight(rb, p1, m);
      ReduceMulRight(rb, p2, m);
      ReduceMulLeft(b, p2, m);
    }
  }

  lemma {:induction false} PowSquare(x: nat, j: nat)
    ensures Pow(x, 2 * j) == Pow(x * x, j)
  {
    if j > 0 {
      PowSquare(x, j - 1);
      assert Pow(x, 2 * j) == x * (x * Pow(x, 2 * (j - 1)));
    }
  }

  /** What the loop still has to multiply in: `r * x^k`, reduced. */
  function Pending(r: nat, x: nat, k: nat, m: nat): nat {
    Reduce(r * Pow(x, k), m)
  }

  /** One round of the loop leaves the pending value unchanged. */
  lemma SquareStep(r: nat, x: nat, k: nat, m: nat)
    requires k > 0
    ensures Pending(if k % 2 == 1 then Reduce(r * x, m) else r, Reduce(x * x, m), k / 2, m) == Pending(r, x, k, m)
  {
    var j := k / 2;
    if k % 2 == 1 {
      OddStep(r, x, j, m);
    } else {
      EvenStep(r, x, j, m);
    }
  }

  /** Squaring the reduced base halves the exponent. */
  lemma PowHalf(x: nat, j: nat, m: nat)
    ensures Reduce(Pow(Reduce(x * x, m), j), m) == Reduce(Pow(x, 2 * j), m)
  {
    PowSquare(x, j);
    PowReduce(x * x, j, m);
  }

  /** Multiplying congruent numbers by the same factor keeps them congruent. */
  lemma MulCongruent(a: nat, u: nat, v: nat, m: nat)
    requires Reduce(u, m) == Reduce(v, m)
    ensures Reduce(a * u, m) == Reduce(a * v, m)
  {
    ReduceMulRight(a, u, m);
    ReduceMulRight(a, v, m);
  }

  lemma EvenStep(r: nat, x: nat, j: nat, m: nat)
    ensures Pending(r, Reduce(x * x, m), j, m) == Pending(r, x, 2 * j, m)
  {
    PowHalf(x, j, m);
    MulCongruent(r, Pow(Reduce(x * x, m), j), Pow(x, 2 * j), m);
  }

  lemma OddStep(r: nat, x: nat, j: nat, m: nat)
    ensures Pending(Reduce(r * x, m), Reduce(x * x, m), j, m) == Pending(r, x, 2 * j + 1, m)
  {
    var py, px := Pow(Reduce(x * x, m), j), Pow(x, 2 * j);
    PowHalf(x, j, m);
    MulCongruent(x, py, px, m);
    MulCongruent(r, x * py, x * px, m);
    ReduceMulLeft(r * x, py, m);
    MulAssociates(r, x, py);
    assert Pow(x, 2 * j + 1) == x * px;
  }

  /** Before the loop, everything is still pending. */
  lemma PendingStart(base: nat, exp: nat, mod: nat)
    ensures Pending(Reduce(1, mod), Reduce(base, mod), exp, mod) == Rsa(base, exp, mod)
  {
    var p := Pow(Reduce(base, mod), exp);
    PowReduce(base, exp, mod);
    ReduceMulLeft(1, p, mod);
    assert 1 * p == p;
  }

  /** With the exponent used up, nothing is pending but `r` itself. */
  lemma PendingDone(r: nat, x: nat, m: nat)
    requires m > 0 ==> r < m
    ensures Pending(r, x, 0, m) == r
  {
    assert Pow(x, 0) == 1;
    assert r * 1 == r;
    if m > 0 {
      DivModUnique(r, m, 0, r);
    }
  }

  /** Square-and-multiply: scans the exponent from its least significant bit,
      squaring the base and multiplying it in at every set bit. */
  method ModPow(base: nat, exp: nat, mod: nat) returns (r: nat)
    ensures r == Rsa(base, exp, mod)
    ensures mod > 0 ==> r < mod
  {
    var x := Reduce(base, mod);
    var k := exp;
    r := Reduce(1, mod);
    PendingStart(base, exp, mod);
    while k > 0
      invariant Pending(r, x, k, mod) == Rsa(base, exp, mod)
      invariant mod > 0 ==> r < mod
      decreases k
    {
      SquareStep(r, x, k, mod);
      if k % 2 == 1 {
        r := Reduce(r * x, mod);
      }
      x := Reduce(x * x, mod);
      k := k / 2;
    }
    PendingDone(r, x, mod);
  }
}
