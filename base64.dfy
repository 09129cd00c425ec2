/** `base64.StdEncoding` as main.go:77 and main.go:104 use it: the standard
    alphabet with `=` padding (section 4 of RFC 4648). Decoding follows Go's
    non-strict decoder: `\r` and `\n` are skipped wherever they occur, and
    the unused low bits of the last character before padding are ignored. */
module Base64 {
  import opened BigBytes
  import opened Results

  /** The character for a 6-bit value: `A`-`Z`, `a`-`z`, `0`-`9`, `+`, `/`. */
  function Char(v: nat): char
    requires v < 64
  {
    if v < 26 then ('A' as int + v) as char
    else if v < 52 then ('a' as int + (v - 26)) as char
    else if v < 62 then ('0' as int + (v - 52)) as char
    else if v == 62 then '+'
    else '/'
  }

  /** The 6-bit value of an alphabet character, or -1 for any other. */
  function Index(c: char): (v: int)
    ensures -1 <= v < 64
    ensures v >= 0 ==> Char(v) == c
  {
    if 'A' <= c <= 'Z' then c as int - 'A' as int
    else if 'a' <= c <= 'z' then c as int - 'a' as int + 26
    else if '0' <= c <= '9' then c as int - '0' as int + 52
    else if c == '+' then 62
    else if c == '/' then 63
    else -1
  }

  lemma IndexOfChar(v: nat)
    requires v < 64
    ensures Index(Char(v)) == v
  {
  }

  /** The four characters for a group of three bytes. */
  function Quad(x: byte, y: byte, z: byte): string {
    var b0, b1, b2 := x as nat, y as nat, z as nat;
    [Char(b0 / 4), Char(b0 % 4 * 16 + b1 / 16), Char(b1 % 16 * 4 + b2 / 64), Char(b2 % 64)]
  }

  /** A final group of one byte, padded with `==`. */
  function Pad1(x: byte): string {
    var b0 := x as nat;
    [Char(b0 / 4), Char(b0 % 4 * 16), '=', '=']
  }

  /** A final group of two bytes, padded with `=`. */
  function Pad2(x: byte, y: byte): string {
    var b0, b1 := x as nat, y as nat;
    [Char(b0 / 4), Char(b0 % 4 * 16 + b1 / 16), Char(b1 % 16 * 4), '=']
  }

  /** Groups of three bytes become four characters; a final group of one or
      two bytes is padded. */
  function Encode(bs: seq<byte>): (s: string)
    ensures |s| == 4 * ((|bs| + 2) / 3)
    decreases |bs|
  {
    if |bs| == 0 then ""
    else if |bs| == 1 then Pad1(bs[0])
    else if |bs| == 2 then Pad2(bs[0], bs[1])
    else
      GroupCount(|bs|);
      Quad(bs[0], bs[1], bs[2]) + Encode(bs[3..])
  }

  lemma GroupCount(n: nat)
    requires n >= 3
    ensures (n + 2) / 3 == (n - 3 + 2) / 3 + 1
  {
  }

  predicate IsNewline(c: char) {
    c == '\r' || c == '\n'
  }

  /** The text with every `\r` and `\n` removed. */
  function Strip(s: string): (t: string)
    ensures |t| <= |s|
    ensures forall i :: 0 <= i < |t| ==> !IsNewline(t[i])
    decreases |s|
  {
    if s == [] then []
    else if IsNewline(s[0]) then Strip(s[1..])
    else [s[0]] + Strip(s[1..])
  }

  function Byte0(v0: nat, v1: nat): byte
    requires v0 < 64 && v1 < 64
  {
    (v0 * 4 + v1 / 16) as byte
  }

  function Byte1(v1: nat, v2: nat): byte
    requires v1 < 64 && v2 < 64
  {
    (v1 % 16 * 16 + v2 / 4) as byte
  }

  function Byte2(v2: nat, v3: nat): byte
    requires v2 < 64 && v3 < 64
  {
    (v2 % 4 * 64 + v3) as byte
  }

  /** Decodes quanta of four characters; padding may only end the text. */
  function DecodeQuanta(t: string): (r: Result<seq<byte>>)
    ensures r.Ok? ==> |r.value| <= DecodedLen(|t|)
    decreases |t|
  {
    if t == [] then Ok([])
    else if |t| < 4 then Err(MalformedBase64)
    else
      var v0, v1, v2, v3 := Index(t[0]), Index(t[1]), Index(t[2]), Index(t[3]);
      if v0 < 0 || v1 < 0 then Err(MalformedBase64)
      else if t[2] == '=' then
        if t[3] == '=' && |t| == 4 then Ok([Byte0(v0, v1)]) else Err(MalformedBase64)
      else if v2 < 0 then Err(MalformedBase64)
      else if t[3] == '=' then
        if |t| == 4 then Ok([Byte0(v0, v1), Byte1(v1, v2)]) else Err(MalformedBase64)
      else if v3 < 0 then Err(MalformedBase64)
      else
        assert DecodedLen(|t| - 4) + 3 == DecodedLen(|t|);
        match DecodeQuanta(t[4..])
        case Err(e) => Err(e)
        case Ok(rest) => Ok([Byte0(v0, v1), Byte1(v1, v2), Byte2(v2, v3)] + rest)
  }

  /** `base64.StdEncoding.DecodeString`: the decoded bytes fit the buffer
      of `DecodedLen(|s|)` bytes it allocates. */
  function Decode(s: string): (r: Result<seq<byte>>)
    ensures r.Ok? ==> |r.value| <= DecodedLen(|s|)
  {
    DecodedLenMonotone(|Strip(s)|, |s|);
    DecodeQuanta(Strip(s))
  }

  lemma DecodedLenMonotone(m: nat, n: nat)
    requires m <= n
    ensures DecodedLen(m) <= DecodedLen(n)
  {
    assert m / 4 <= n / 4;
  }

  /** A character that is not a newline survives stripping. */
  lemma StripCons(c: char, q: string)
    requires !IsNewline(c)
    ensures Strip([c] + q) == [c] + Strip(q)
  {
    assert ([c] + q)[1..] == q;
  }

  /** Stripping a prefix free of newlines keeps it. */
  lemma {:induction false} StripPrefix(p: string, q: string)
    requires forall i :: 0 <= i < |p| ==> !IsNewline(p[i])
    ensures Strip(p + q) == p + Strip(q)
    decreases |p|
  {
    if p != [] {
      var r := p[1..];
      StripPrefix(r, q);
      StripCons(p[0], r + q);
      ConsSplit(p, q);
      ConsSplit(p, Strip(q));
    } else {
      EmptyPrefix(q);
      EmptyPrefix(Strip(q));
    }
  }

  lemma EmptyPrefix<T>(s: seq<T>)
    ensures [] + s == s
  {
  }

  lemma ConsSplit<T>(p: seq<T>, q: seq<T>)
    requires p != []
    ensures p + q == [p[0]] + (p[1..] + q)
  {
  }

  /** Alphabet characters are neither newlines nor padding. */
  lemma CharPlain(v: nat)
    requires v < 64
    ensures !IsNewline(Char(v)) && Char(v) != '='
  {
    IndexOfChar(v);
  }

  /** The characters of a group are neither newlines nor padding, except
      for the padding itself. */
  lemma GroupsPlain(x: byte, y: byte, z: byte)
    ensures var q := Quad(x, y, z); |q| == 4 && forall i :: 0 <= i < 4 ==> !IsNewline(q[i])
    ensures var q := Pad1(x); |q| == 4 && forall i :: 0 <= i < 4 ==> !IsNewline(q[i])
    ensures var q := Pad2(x, y); |q| == 4 && forall i :: 0 <= i < 4 ==> !IsNewline(q[i])
  {
    var b0, b1, b2 := x as nat, y as nat, z as nat;
    CharPlain(b0 / 4);
    CharPlain(b0 % 4 * 16);
    CharPlain(b0 % 4 * 16 + b1 / 16);
    CharPlain(b1 % 16 * 4);
    CharPlain(b1 % 16 * 4 + b2 / 64);
    CharPlain(b2 % 64);
  }

  lemma AppendEmpty<T>(s: seq<T>)
    ensures s + [] == s
  {
  }

  /** Encoded text holds no newline, so stripping leaves it unchanged. */
  lemma {:induction false} StripEncode(bs: seq<byte>)
    ensures Strip(Encode(bs)) == Encode(bs)
    decreases |bs|
  {
    if |bs| >= 3 {
      EncodeGroup(bs);
      GroupsPlain(bs[0], bs[1], bs[2]);
      StripPrefix(Quad(bs[0], bs[1], bs[2]), Encode(bs[3..]));
      StripEncode(bs[3..]);
    } else if |bs| > 0 {
      var g := Encode(bs);
      GroupsPlain(bs[0], if |bs| == 2 then bs[1] else 0, 0);
      assert g == if |bs| == 1 then Pad1(bs[0]) else Pad2(bs[0], bs[1]);
      StripPrefix(g, "");
      AppendEmpty(g);
    }
  }

  lemma DecodeOneByte(x: byte)
    ensures DecodeQuanta(Pad1(x)) == Ok([x])
  {
    var b0 := x as nat;
    IndexOfChar(b0 / 4);
    IndexOfChar(b0 % 4 * 16);
    assert Byte0(b0 / 4, b0 % 4 * 16) == x;
  }

  lemma DecodeTwoBytes(x: byte, y: byte)
    ensures DecodeQuanta(Pad2(x, y)) == Ok([x, y])
  {
    var b0, b1 := x as nat, y as nat;
    IndexOfChar(b0 / 4);
    CharPlain(b0 % 4 * 16 + b1 / 16);
    CharPlain(b1 % 16 * 4);
    IndexOfChar(b0 % 4 * 16 + b1 / 16);
    IndexOfChar(b1 % 16 * 4);
    assert Byte0(b0 / 4, b0 % 4 * 16 + b1 / 16) == x;
    assert Byte1(b0 % 4 * 16 + b1 / 16, b1 % 16 * 4) == y;
  }

  /** A full group in front of text that decodes to `r` decodes to its
      three bytes followed by `r`. */
  lemma DecodeThreeBytes(x: byte, y: byte, z: byte, rest: string, r: seq<byte>)
    requires DecodeQuanta(rest) == Ok(r)
    ensures DecodeQuanta(Quad(x, y, z) + rest) == Ok([x, y, z] + r)
  {
    var b0, b1, b2 := x as nat, y as nat, z as nat;
    var v0, v1, v2, v3 := b0 / 4, b0 % 4 * 16 + b1 / 16, b1 % 16 * 4 + b2 / 64, b2 % 64;
    IndexOfChar(v0);
    IndexOfChar(v1);
    IndexOfChar(v2);
    IndexOfChar(v3);
    CharPlain(v2);
    CharPlain(v3);
    assert Byte0(v0, v1) == x;
    assert Byte1(v1, v2) == y;
    assert Byte2(v2, v3) == z;
    var t := Quad(x, y, z) + rest;
    assert t[..4] == [Char(v0), Char(v1), Char(v2), Char(v3)];
    assert t[4..] == rest;
  }

  lemma OneElement<T>(bs: seq<T>)
    requires |bs| == 1
    ensures bs == [bs[0]]
  {
  }

  lemma TwoElements<T>(bs: seq<T>)
    requires |bs| == 2
    ensures bs == [bs[0], bs[1]]
  {
  }

  /** A final group of one or two bytes decodes to itself. */
  lemma DecodeShortGroup(bs: seq<byte>)
    requires 1 <= |bs| <= 2
    ensures DecodeQuanta(Encode(bs)) == Ok(bs)
  {
    if |bs| == 1 {
      assert Encode(bs) == Pad1(bs[0]);
      DecodeOneByte(bs[0]);
      OneElement(bs);
    } else {
      assert Encode(bs) == Pad2(bs[0], bs[1]);
      DecodeTwoBytes(bs[0], bs[1]);
      TwoElements(bs);
    }
  }

  /** Three or more bytes encode as a full group followed by the rest. */
  lemma EncodeGroup(bs: seq<byte>)
    requires |bs| >= 3
    ensures Encode(bs) == Quad(bs[0], bs[1], bs[2]) + Encode(bs[3..])
  {
  }

  lemma GroupSplit<T>(bs: seq<T>)
    requires |bs| >= 3
    ensures [bs[0], bs[1], bs[2]] + bs[3..] == bs
  {
  }

  /** A full group in front of text that decodes to the remaining bytes. */
  lemma DecodeGroupStep(bs: seq<byte>)
    requires |bs| >= 3 && DecodeQuanta(Encode(bs[3..])) == Ok(bs[3..])
    ensures DecodeQuanta(Encode(bs)) == Ok(bs)
  {
    EncodeGroup(bs);
    DecodeThreeBytes(bs[0], bs[1], bs[2], Encode(bs[3..]), bs[3..]);
    GroupSplit(bs);
  }

  /** Decoding what was encoded gives back the bytes. */
  lemma {:induction false} DecodeQuantaEncode(bs: seq<byte>)
    ensures DecodeQuanta(Encode(bs)) == Ok(bs)
    decreases |bs|
  {
    if 1 <= |bs| <= 2 {
      DecodeShortGroup(bs);
    } else if |bs| >= 3 {
      DecodeQuantaEncode(bs[3..]);
      DecodeGroupStep(bs);
    }
  }

  /** The round trip through `EncodeToString` and `DecodeString`. */
  lemma DecodeEncode(bs: seq<byte>)
    ensures Decode(Encode(bs)) == Ok(bs)
  {
    StripEncode(bs);
    DecodeQuantaEncode(bs);
  }

  /** The size of the buffer `DecodeString` allocates for a padded text of
      `n` characters: three bytes per four characters. */
  function DecodedLen(n: nat): nat {
    n / 4 * 3
  }

  /** The buffer for an encoding holds the bytes and at most two more. */
  lemma DecodedLenCovers(bs: seq<byte>)
    ensures |bs| <= DecodedLen(|Encode(bs)|) <= |bs| + 2
  {
    var k := (|bs| + 2) / 3;
    assert 4 * k / 4 == k;
  }

  /** Eight characters without padding bits set: five zero bytes. */
  lemma DecodeExample()
    ensures Decode("AAAAAAA=") == Ok([0, 0, 0, 0, 0])
  {
    var five: seq<byte> := [0, 0, 0, 0, 0];
    assert five[3..] == [0, 0];
    assert Encode(five[3..]) == "AAA=";
    assert Encode(five) == "AAAAAAA=";
    DecodeEncode(five);
  }

  /** Four characters with two pads: the bytes 0, 0, 0, 1. */
  lemma DecodeShortExample()
    ensures Decode("AAAAAQ==") == Ok([0, 0, 0, 1])
  {
    var four: seq<byte> := [0, 0, 0, 1];
    assert four[3..] == [1];
    assert Encode(four[3..]) == "AQ==";
    assert Encode(four) == "AAAAAQ==";
    DecodeEncode(four);
  }
}
