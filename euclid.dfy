/** The extended Euclidean algorithm and the modular inverse built on it
    (main.go:26-52). Go's `big.Int.Div` and `big.Int.Mod` are Euclidean, as
    Dafny's `/` and `%` on `int` are, so the model works on all integers. */
module Euclid {
  import opened Arith
  import opened Results

  function Abs(a: int): nat {
    if a < 0 then -a else a
  }

  /** The gcd `g` together with Bézout coefficients `x`, `y`. */
  datatype Bezout = Bezout(g: int, x: int, y: int)

  /** The recursion of `gcd`: the base case `a = 0` gives `(b, 0, 1)`, and
      otherwise the result for `(b mod a, a)` is turned into one for `(a, b)`.
      It terminates because `b mod a` is smaller than `|a|`. */
  function ExtGcd(a: int, b: int): (r: Bezout)
    ensures a * r.x + b * r.y == r.g
    decreases Abs(a)
  {
    if a == 0 then Bezout(b, 0, 1)
    else
      var r1 := ExtGcd(b % a, a);
      var q := b / a;
      assert b == a * q + b % a;
      assert a * (r1.y - q * r1.x) + b * r1.x == a * r1.y + (b - a * q) * r1.x;
      Bezout(r1.g, r1.y - q * r1.x, r1.x)
  }

  /** `gcd(a, b, x, y)`: the result is returned, the coefficients are written
      through the out-parameters `x` and `y`. */
  method Gcd(a: int, b: int) returns (g: int, x: int, y: int)
    ensures a * x + b * y == g
    ensures Bezout(g, x, y) == ExtGcd(a, b)
    ensures a == 0 ==> g == b && x == 0 && y == 1
    decreases Abs(a)
  {
    if a == 0 {
      x := 0;
      y := 1;
      return b, x, y;
    }
    var x1, y1;
    var temp := b % a;
    g, x1, y1 := Gcd(temp, a);
    x := y1;
    x := x - (b / a) * x1;
    y := x1;
    assert Bezout(g, x, y) == ExtGcd(a, b);
  }

  /** The result of `ExtGcd` divides both arguments. */
  lemma {:induction false} GcdDividesBoth(a: int, b: int)
    ensures Divides(ExtGcd(a, b).g, a) && Divides(ExtGcd(a, b).g, b)
    decreases Abs(a)
  {
    var g := ExtGcd(a, b).g;
    if a == 0 {
      DividesMultiple(b, 0);
      DividesMultiple(b, 1);
    } else {
      GcdDividesBoth(b % a, a);
      assert b == a * (b / a) + (b % a) * 1;
      DividesCombination(g, a, b % a, b / a, 1);
    }
  }

  /** Every common divisor of `a` and `b` divides the result of `ExtGcd`. */
  lemma GcdGreatest(a: int, b: int, d: int)
    requires Divides(d, a) && Divides(d, b)
    ensures Divides(d, ExtGcd(a, b).g)
  {
    var r := ExtGcd(a, b);
    DividesCombination(d, a, b, r.x, r.y);
  }

  /** On non-negative arguments the result is non-negative, and zero only
      for `gcd(0, 0)`. */
  lemma {:induction false} GcdNonNegative(a: int, b: int)
    requires a >= 0 && b >= 0
    ensures ExtGcd(a, b).g >= 0
    ensures ExtGcd(a, b).g == 0 <==> a == 0 && b == 0
    decreases a
  {
    if a != 0 {
      GcdNonNegative(b % a, a);
    }
  }

  lemma DivisorAtMost(d: int, n: int)
    requires d > 0 && n > 0 && Divides(d, n)
    ensures d <= n
  {
    DividesWitness(d, n);
    MulAtLeast(d, n / d);
  }

  /** `g` is the greatest common divisor of `a` and `b`: a non-negative common
      divisor that every common divisor divides. */
  ghost predicate IsGcd(g: int, a: int, b: int) {
    && g >= 0
    && Divides(g, a) && Divides(g, b)
    && forall d :: Divides(d, a) && Divides(d, b) ==> Divides(d, g)
  }

  /** For non-negative arguments `ExtGcd` computes the greatest common divisor,
      greatest also in the order of the integers. */
  lemma ExtGcdIsGcd(a: int, b: int)
    requires a >= 0 && b >= 0
    ensures IsGcd(ExtGcd(a, b).g, a, b)
    ensures forall d :: d > 0 && Divides(d, a) && Divides(d, b) && (a != 0 || b != 0) ==> d <= ExtGcd(a, b).g
  {
    var g := ExtGcd(a, b).g;
    GcdNonNegative(a, b);
    GcdDividesBoth(a, b);
    forall d | Divides(d, a) && Divides(d, b)
      ensures Divides(d, g)
    {
      GcdGreatest(a, b, d);
    }
    forall d | d > 0 && Divides(d, a) && Divides(d, b) && (a != 0 || b != 0)
      ensures d <= g
    {
      GcdGreatest(a, b, d);
      DivisorAtMost(d, g);
    }
  }

  /** No integer greater than 1 divides both `a` and `b`. */
  ghost predicate Coprime(a: int, b: int) {
    forall d :: d > 1 && Divides(d, a) ==> !Divides(d, b)
  }

  /** The test `gcd(...) == 1` that `reverseModulo` and the key search rely
      on decides coprimality, in both directions. */
  lemma GcdOneIffCoprime(a: int, b: int)
    requires a >= 0 && b >= 0
    ensures ExtGcd(a, b).g == 1 <==> Coprime(a, b)
  {
    var g := ExtGcd(a, b).g;
    ExtGcdIsGcd(a, b);
    if g == 1 {
      forall d | d > 1 && Divides(d, a)
        ensures !Divides(d, b)
      {
        if Divides(d, b) {
          DivisorAtMost(d, 1);
        }
      }
    } else if g == 0 {
      DividesMultiple(2, 0);
      assert Divides(2, a) && Divides(2, b);
    } else {
      assert g > 1 && Divides(g, a) && Divides(g, b);
    }
  }

  lemma GcdWithZero(a: int)
    ensures ExtGcd(a, 0).g == a
  {
    if a != 0 {
      assert 0 % a == 0;
      assert ExtGcd(0, a).g == a;
    }
  }

  /** Reducing a Bézout coefficient modulo `b` gives an inverse of `a`. */
  lemma BezoutInverse(a: int, b: int, x: int, y: int, m: int)
    requires b != 0 && a * x + b * y == 1 && m == x % b
    ensures 0 <= m < Abs(b) && Divides(b, a * m - 1)
  {
    var q := x / b;
    assert x % b == x - b * q;
    assert a * (x - b * q) - 1 == b * (-y - a * q);
    DividesMultiple(b, -y - a * q);
  }

  /** `reverseModulo(a, b)`: fails with "not coprime" unless the gcd is 1,
      otherwise returns the Bézout coefficient of `a` reduced into
      `[0, |b|)`. Go's `big.Int.Mod` panics on a zero modulus, which happens
      for `reverseModulo(1, 0)`. The correction `x += b` for a negative
      remainder is kept as written; it never fires, because the Euclidean
      remainder is never negative. */
  function ReverseModulo(a: int, b: int): (r: Result<int>)
    ensures r.Ok? <==> ExtGcd(a, b).g == 1 && b != 0
    ensures r.Ok? ==> 0 <= r.value < Abs(b) && Divides(b, a * r.value - 1)
  {
    var r := ExtGcd(a, b);
    if r.g != 1 then
      Err(NotCoprime)
    else if b == 0 then
      Err(ZeroModulus)
    else
      var m := r.x % b;
      BezoutInverse(a, b, r.x, r.y, m);
      var d := if m < 0 then m + b else m;
      assert d == m;
      Ok(d)
  }

  /** `reverseModulo` reports "not coprime" exactly when the gcd is not 1. */
  lemma ReverseModuloNotCoprime(a: int, b: int)
    ensures ReverseModulo(a, b) == Err(NotCoprime) <==> ExtGcd(a, b).g != 1
  {
  }

  /** `reverseModulo` reaches the zero modulus exactly for
      `reverseModulo(1, 0)`. */
  lemma ReverseModuloZeroModulus(a: int, b: int)
    ensures ReverseModulo(a, b) == Err(ZeroModulus) <==> a == 1 && b == 0
  {
    if b == 0 {
      if a == 1 {
        ZeroModulusCase();
      } else {
        GcdWithZero(a);
      }
    }
  }

  /** `reverseModulo(1, 0)` reaches the zero modulus. */
  lemma ZeroModulusCase()
    ensures ReverseModulo(1, 0) == Err(ZeroModulus)
  {
    GcdWithZero(1);
  }

  /** An inverse of `a` modulo `b` in `[0, |b|)` is unique, so the one
      `ReverseModulo` returns is the inverse. */
  lemma InverseUnique(a: int, b: int, d1: int, d2: int)
    requires b != 0
    requires 0 <= d1 < Abs(b) && Divides(b, a * d1 - 1)
    requires 0 <= d2 < Abs(b) && Divides(b, a * d2 - 1)
    ensures d1 == d2
  {
    var k1, k2 := (a * d1 - 1) / b, (a * d2 - 1) / b;
    DividesWitness(b, a * d1 - 1);
    DividesWitness(b, a * d2 - 1);
    assert d1 - d2 == d2 * (a * d1 - 1) - d1 * (a * d2 - 1);
    var k := d2 * k1 - d1 * k2;
    assert d1 - d2 == b * k;
    var bb := Abs(b);
    var kk := if b < 0 then -k else k;
    assert d1 - d2 == bb * kk;
    SmallMultipleIsZero(bb, kk);
  }

  /** For a non-negative `a` and a positive `b`, `ReverseModulo` succeeds
      exactly when the two are coprime. */
  lemma ReverseModuloSucceedsIffCoprime(a: int, b: int)
    requires a >= 0 && b > 0
    ensures ReverseModulo(a, b).Ok? <==> Coprime(a, b)
  {
    GcdOneIffCoprime(a, b);
  }
}
