/** Key derivation (main.go:54-58 and 80-101) from two primes `p` and `q`,
    which the program draws with `crypto/rand.Prime` and the model takes as
    parameters. */
module KeyGen {
  import opened Arith
  import opened Euclid
  import opened ModExp

  /** `(d, n, e)` in the order `genKeys` returns them. */
  datatype KeyPair = KeyPair(d: nat, n: nat, e: nat)

  /** `eulerFunction(p, q)`: Euler's totient of `p*q` for distinct primes. */
  function EulerFunction(p: int, q: int): (phi: int)
    ensures p > 1 && q > 1 ==> 1 <= phi < p * q
  {
    if p > 1 && q > 1 then
      MulAtLeast(p - 1, q - 1);
      assert p * q == (p - 1) * (q - 1) + p + q - 1;
      (p - 1) * (q - 1)
    else
      (p - 1) * (q - 1)
  }

  /** `phi + 1` is coprime to `phi`, so the search for `e` stops at the
      latest there. */
  lemma SuccessorCoprime(phi: int)
    requires phi >= 1
    ensures ExtGcd(phi + 1, phi).g == 1
  {
    forall d | d > 1 && Divides(d, phi + 1)
      ensures !Divides(d, phi)
    {
      if Divides(d, phi) {
        DividesCombination(d, phi + 1, phi, 1, -1);
        DivisorAtMost(d, 1);
      }
    }
    GcdOneIffCoprime(phi + 1, phi);
  }

  /** `genKeys` with `p` and `q` given: `n = p*q`, `e` is found by counting
      up from 2 until `gcd(e, phi) == 1`, and `d` is the inverse of `e`
      modulo `phi`. The `log.Fatal` after `reverseModulo` is unreachable: the
      search leaves `e` coprime to `phi`, so `ReverseModulo` succeeds. */
  method GenKeys(p: int, q: int) returns (keys: KeyPair)
    requires p > 1 && q > 1
    ensures keys.n == p * q
    ensures 2 <= keys.e <= EulerFunction(p, q) + 1
    ensures ExtGcd(keys.e, EulerFunction(p, q)).g == 1 && Coprime(keys.e, EulerFunction(p, q))
    ensures forall k :: 2 <= k < keys.e ==> !Coprime(k, EulerFunction(p, q))
    ensures 0 <= keys.d < EulerFunction(p, q)
    ensures Divides(EulerFunction(p, q), keys.e * keys.d - 1)
    ensures EulerFunction(p, q) > 1 ==> (keys.e * keys.d) % EulerFunction(p, q) == 1
  {
    var n := p * q;
    var euler := EulerFunction(p, q);
    var e := 2;
    var temp1, temp2;
    SuccessorCoprime(euler);
    var g;
    g, temp1, temp2 := Gcd(e, euler);
    while g != 1
      invariant 2 <= e <= euler + 1
      invariant g == ExtGcd(e, euler).g
      invariant forall k :: 2 <= k < e ==> ExtGcd(k, euler).g != 1
      decreases euler + 1 - e
    {
      e := e + 1;
      g, temp1, temp2 := Gcd(e, euler);
    }
    var d := ReverseModulo(e, euler).value;
    forall k | 2 <= k < e
      ensures !Coprime(k, euler)
    {
      GcdOneIffCoprime(k, euler);
    }
    GcdOneIffCoprime(e, euler);
    if euler > 1 {
      CongruentOne(e * d, euler);
    }
    keys := KeyPair(d, n, e);
  }

  /** The search for `p = 61`, `q = 53`: `phi = 3120` is divisible by 2, 3,
      4, 5 and 6, and 7 is coprime to it. */
  lemma ExampleSearch()
    ensures EulerFunction(61, 53) == 3120
    ensures ExtGcd(7, 3120).g == 1
    ensures forall k :: 2 <= k < 7 ==> !Coprime(k, 3120)
  {
    forall k | 2 <= k < 7
      ensures !Coprime(k, 3120)
    {
      assert 3120 == k * (3120 / k);
      DividesMultiple(k, 3120 / k);
      DividesMultiple(k, 0);
    }
  }

  /** The keys for `p = 61`, `q = 53`: `e = 7`, and `d = 1783` because
      `7 * 1783 = 4 * 3120 + 1`. */
  method ExampleKeys() returns (keys: KeyPair)
    ensures keys == KeyPair(1783, 3233, 7)
    ensures Rsa(65, keys.e, keys.n) == 1317
  {
    keys := GenKeys(61, 53);
    ExampleDerivation(keys.e, keys.d);
    ExampleCipher();
  }

  /** What `GenKeys(61, 53)` promises determines its result. */
  lemma ExampleDerivation(e: int, d: int)
    requires 2 <= e && Coprime(e, EulerFunction(61, 53))
    requires forall k :: 2 <= k < e ==> !Coprime(k, EulerFunction(61, 53))
    requires 0 <= d < EulerFunction(61, 53)
    requires Divides(EulerFunction(61, 53), e * d - 1)
    ensures e == 7 && d == 1783
  {
    ExampleSearch();
    GcdOneIffCoprime(7, 3120);
    assert e == 7;
    assert e * d == 7 * d;
    DividesMultiple(3120, 4);
    assert 7 * 1783 - 1 == 3120 * 4;
    InverseUnique(7, 3120, d, 1783);
  }

  /** `65^7 mod 3233 = 1317`. */
  lemma ExampleCipher()
    ensures Rsa(65, 7, 3233) == 1317
  {
    assert Pow(65, 7) == 4902227890625;
  }
}
