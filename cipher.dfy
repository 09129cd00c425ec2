/** Encryption and decryption of a text (main.go:118-138). A text is its
    sequence of Unicode code points; each one is enciphered on its own. */
module Cipher {
  import opened BigBytes
  import opened Results
  import opened ModExp
  import opened Framing
  import opened Arith
  import opened Primes
  import opened KeyGen
  import Base64

  /** Each value of `xs`, in order, raised to `exp` modulo `n` by `rsa`. */
  function PowEach(xs: seq<nat>, exp: nat, n: nat): (r: seq<nat>)
    ensures |r| == |xs|
    ensures n > 0 ==> forall i :: 0 <= i < |r| ==> r[i] < n
  {
    seq(|xs|, i requires 0 <= i < |xs| => Rsa(xs[i], exp, n))
  }

  /** The text `encryptingRSA` returns. */
  function Encrypt(e: nat, n: nat, text: seq<nat>): string {
    Base64.Encode(Frames(PowEach(text, e, n)))
  }

  /** The code points `decryptingRSA` returns, or the failure that makes it
      call `log.Fatal`. */
  function Decrypt(d: nat, n: nat, en: string): Result<seq<nat>> {
    match WireDecode(en)
    case Err(err) => Err(err)
    case Ok(blocks) => Ok(PowEach(blocks, d, n))
  }

  /** `encryptingRSA(e, n, text)`. */
  method EncryptingRsa(e: nat, n: nat, text: seq<nat>) returns (s: string)
    ensures s == Encrypt(e, n, text)
  {
    var en: seq<nat> := [];
    for i := 0 to |text|
      invariant |en| == i
      invariant forall j :: 0 <= j < i ==> en[j] == Rsa(text[j], e, n)
    {
      var t := text[i];
      var c := ModPow(t, e, n);
      en := en + [c];
    }
    assert en == PowEach(text, e, n);
    s := EncryptToBase64(en);
  }

  /** `decryptingRSA(d, n, en)`; a decoding failure is returned instead of
      ending the process. */
  method DecryptingRsa(d: nat, n: nat, en: string) returns (r: Result<seq<nat>>)
    ensures r == Decrypt(d, n, en)
  {
    var decoded := DecryptFromBase64(en);
    if decoded.Err? {
      return Err(decoded.error);
    }
    var ta := decoded.value;
    var de: seq<nat> := [];
    for i := 0 to |ta|
      invariant |de| == i
      invariant forall j :: 0 <= j < i ==> de[j] == Rsa(ta[j], d, n)
    {
      var m := ModPow(ta[i], d, n);
      de := de + [m];
    }
    assert de == PowEach(ta, d, n);
    r := Ok(de);
  }

  /** Blocks below `n` fit the length field whenever `n` does. */
  lemma BelowModulusEncodable(xs: seq<nat>, n: nat)
    requires |Bytes(n)| < LengthLimit
    requires forall i :: 0 <= i < |xs| ==> xs[i] < n
    ensures Encodable(xs)
  {
    forall i | 0 <= i < |xs|
      ensures |Bytes(xs[i])| < LengthLimit
    {
      BytesLengthMonotone(xs[i], n);
    }
  }

  /** The encrypted text decodes to the enciphered code points: one block
      per code point, in text order. */
  lemma EncryptDecodes(e: nat, n: nat, text: seq<nat>)
    requires n > 0 && |Bytes(n)| < LengthLimit
    ensures WireDecode(Encrypt(e, n, text)) == Ok(PowEach(text, e, n))
  {
    BelowModulusEncodable(PowEach(text, e, n), n);
    WireRoundTrip(PowEach(text, e, n));
  }

  /** Decrypting an encrypted text applies `b^d mod n` to each block `c^e
      mod n`, in text order. */
  lemma DecryptEncrypt(e: nat, d: nat, n: nat, text: seq<nat>)
    requires n > 0 && |Bytes(n)| < LengthLimit
    ensures Decrypt(d, n, Encrypt(e, n, text)) == Ok(PowEach(PowEach(text, e, n), d, n))
  {
    EncryptDecodes(e, n, text);
  }

  /** The empty text encrypts to the empty string, which decrypts to the
      empty text. */
  lemma EmptyText(e: nat, d: nat, n: nat)
    ensures Encrypt(e, n, []) == ""
    ensures Decrypt(d, n, "") == Ok([])
  {
    assert PowEach([], e, n) == [];
    assert Base64.Strip("") == "";
    assert Base64.Decode("") == Ok([]);
    assert ParseFrames([]) == Ok([]);
    assert WireDecode("") == Ok([]);
    assert PowEach([], d, n) == [];
  }

  /** The totient of two distinct primes exceeds 1. */
  lemma TotientAboveOne(p: int, q: int)
    requires IsPrime(p) && IsPrime(q) && p != q
    ensures EulerFunction(p, q) > 1
  {
    if p == 2 {
      assert EulerFunction(p, q) == q - 1;
    } else {
      MulAtLeast(p - 1, q - 1);
    }
  }

  /** RSA correctness: for `n = p*q` with distinct primes `p`, `q` and `e*d`
      congruent to 1 modulo the totient, `(m^e mod n)^d mod n == m` for every
      `m < n`. */
  lemma RsaInverse(p: nat, q: nat, e: nat, d: nat, m: nat)
    requires IsPrime(p) && IsPrime(q) && p != q
    requires Divides(EulerFunction(p, q), e * d - 1)
    requires m < p * q
    ensures Rsa(Rsa(m, e, p * q), d, p * q) == m
  {
    var n, phi, ed := p * q, EulerFunction(p, q), e * d;
    TotientAboveOne(p, q);
    DividesFactors(p - 1, q - 1, ed - 1);
    DividesMinusOne(phi, ed);
    PowCongruentPrime(p, m, ed);
    PowCongruentPrime(q, m, ed);
    DistinctPrimesDivide(p, q, Pow(m, ed) - m);
    DividesWitness(n, Pow(m, ed) - m);
    DivModUnique(Pow(m, ed), n, (Pow(m, ed) - m) / n, m);
    PowReduce(Pow(m, e), d, n);
    PowMul(m, e, d);
  }

  /** Deciphering every enciphered value gives it back, for values below
      `n = p*q`. */
  lemma InverseEach(p: nat, q: nat, n: nat, e: nat, d: nat, xs: seq<nat>)
    requires IsPrime(p) && IsPrime(q) && p != q && n == p * q
    requires Divides(EulerFunction(p, q), e * d - 1)
    requires forall i :: 0 <= i < |xs| ==> xs[i] < n
    ensures PowEach(PowEach(xs, e, n), d, n) == xs
  {
    var r := PowEach(PowEach(xs, e, n), d, n);
    forall i | 0 <= i < |xs|
      ensures r[i] == xs[i]
    {
      RsaInverse(p, q, e, d, xs[i]);
    }
  }

  /** Decrypting an encrypted text gives the text back, for keys that
      `GenKeys` derives from two distinct primes, whenever every code point is
      below `n` and the length of `n` in bytes fits the length field. */
  lemma RoundTrip(p: nat, q: nat, keys: KeyPair, text: seq<nat>)
    requires IsPrime(p) && IsPrime(q) && p != q
    requires keys.n == p * q && Divides(EulerFunction(p, q), keys.e * keys.d - 1)
    requires |Bytes(keys.n)| < LengthLimit
    requires forall i :: 0 <= i < |text| ==> text[i] < keys.n
    ensures Decrypt(keys.d, keys.n, Encrypt(keys.e, keys.n, text)) == Ok(text)
  {
    MulAtLeast(p, q);
    InverseEach(p, q, keys.n, keys.e, keys.d, text);
    DecryptEncrypt(keys.e, keys.d, keys.n, text);
  }

  lemma SmallPrimes()
    ensures IsPrime(61) && IsPrime(53)
  {
    forall d | 1 < d < 61
      ensures !Divides(d, 61)
    {
      DivModUnique(61, d, 61 / d, 61 % d);
    }
    forall d | 1 < d < 53
      ensures !Divides(d, 53)
    {
      DivModUnique(53, d, 53 / d, 53 % d);
    }
  }

  /** Decrypting the example ciphertext: `1317^1783 mod 3233 = 65`. */
  lemma ExampleDecrypt()
    ensures Rsa(1317, 1783, 3233) == 65
  {
    SmallPrimes();
    KeyGen.ExampleCipher();
    DividesMultiple(3120, 4);
    RsaInverse(61, 53, 7, 1783, 65);
  }
}
