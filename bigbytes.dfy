/** The two conversions between natural numbers and bytes that the framing
    uses: `big.Int.Bytes` (main.go:67) and `big.Int.SetBytes` (main.go:112). */
module BigBytes {
  import opened Arith

  newtype byte = x: int | 0 <= x < 256

  /** `x.Bytes()`: the minimal big-endian magnitude of `x`; zero has no bytes
      and a non-empty result never starts with a zero byte. */
  function Bytes(x: nat): (bs: seq<byte>)
    ensures bs == [] <==> x == 0
    ensures bs != [] ==> bs[0] != 0
    decreases x
  {
    if x == 0 then [] else Bytes(x / 256) + [(x % 256) as byte]
  }

  /** `new(big.Int).SetBytes(bs)`: `bs` read as a big-endian unsigned number. */
  function SetBytes(bs: seq<byte>): (x: nat)
    ensures x < Pow(256, |bs|)
    decreases |bs|
  {
    if bs == [] then 0 else SetBytes(bs[..|bs| - 1]) * 256 + bs[|bs| - 1] as nat
  }

  /** Reading back the bytes of `x` gives `x`. */
  lemma {:induction false} SetBytesOfBytes(x: nat)
    ensures SetBytes(Bytes(x)) == x
    decreases x
  {
    if x != 0 {
      var bs := Bytes(x);
      assert bs[..|bs| - 1] == Bytes(x / 256);
      SetBytesOfBytes(x / 256);
    }
  }

  /** Conversely, a byte string without a leading zero is the minimal
      encoding of the number it denotes. */
  lemma {:induction false} BytesOfSetBytes(bs: seq<byte>)
    requires bs == [] || bs[0] != 0
    ensures Bytes(SetBytes(bs)) == bs
    decreases |bs|
  {
    if bs != [] {
      var init, last := bs[..|bs| - 1], bs[|bs| - 1];
      var v := SetBytes(init);
      if init != [] {
        BytesOfSetBytes(init);
      }
      var x := v * 256 + last as nat;
      assert x != 0;
      assert x / 256 == v && x % 256 == last as nat;
      assert bs == init + [last];
    }
  }

  /** A larger number never has a shorter encoding. */
  lemma {:induction false} BytesLengthMonotone(x: nat, y: nat)
    requires x <= y
    ensures |Bytes(x)| <= |Bytes(y)|
    decreases y
  {
    if x != 0 {
      BytesLengthMonotone(x / 256, y / 256);
    }
  }
}
