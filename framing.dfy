/** The length-prefixed block format (main.go:64-78 and 103-116): every
    ciphertext block is written as a 4-byte big-endian length followed by the
    block's minimal big-endian bytes, the entries are concatenated, and the
    buffer is base64-encoded. */
module Framing {
  import opened BigBytes
  import opened Results
  import opened Arith
  import Base64

  const HeaderSize: nat := 4
  const LengthLimit: nat := 0x1_0000_0000

  /** The length field as main.go:70-73 writes it: bits 31..0 of `length`,
      most significant byte first. Longer lengths wrap around, so reading
      the field back gives the length modulo 2^32. */
  function LengthBytes(length: nat): (h: seq<byte>)
    ensures |h| == HeaderSize
    ensures ReadLength(h[0], h[1], h[2], h[3]) == length % LengthLimit
  {
    DivDiv(length, 0x100, 0x100);
    DivDiv(length, 0x1_0000, 0x100);
    DivDiv(length, 0x100_0000, 0x100);
    DivDiv(length / 0x100, 0x100, 0x100);
    [ (length / 0x100_0000 % 0x100) as byte,
      (length / 0x1_0000 % 0x100) as byte,
      (length / 0x100 % 0x100) as byte,
      (length % 0x100) as byte ]
  }

  /** The length field as main.go:110 reads it back. The four shifted bytes
      occupy disjoint bits, so the `|` of the source is a sum, and it never
      reaches 2^32. */
  function ReadLength(b0: byte, b1: byte, b2: byte, b3: byte): (length: nat)
    ensures length < LengthLimit
  {
    b0 as nat * 0x100_0000 + b1 as nat * 0x1_0000 + b2 as nat * 0x100 + b3 as nat
  }

  /** One entry of the buffer. */
  function Frame(x: nat): seq<byte> {
    LengthBytes(|Bytes(x)|) + Bytes(x)
  }

  /** The buffer `encryptToBase64` builds: the entries of `en` in order. */
  function Frames(en: seq<nat>): seq<byte>
    decreases |en|
  {
    if en == [] then [] else Frame(en[0]) + Frames(en[1..])
  }

  /** Every block's byte length fits the 4-byte length field. */
  predicate Encodable(en: seq<nat>) {
    forall i :: 0 <= i < |en| ==> |Bytes(en[i])| < LengthLimit
  }

  /** The sum, over the blocks, of the header size plus the block's byte length. */
  function FramedSize(en: seq<nat>): nat
    decreases |en|
  {
    if en == [] then 0 else HeaderSize + |Bytes(en[0])| + FramedSize(en[1..])
  }

  /** The buffer is as long as the headers and magnitudes together; an empty
      block list gives an empty buffer. */
  lemma {:induction false} FramesLength(en: seq<nat>)
    ensures |Frames(en)| == FramedSize(en)
    ensures en == [] ==> Frames(en) == []
    decreases |en|
  {
    if en != [] {
      FramesLength(en[1..]);
    }
  }

  lemma {:induction false} FramesAppend(en: seq<nat>, x: nat)
    ensures Frames(en + [x]) == Frames(en) + Frame(x)
    decreases |en|
  {
    if en == [] {
      assert [x][1..] == [];
    } else {
      assert (en + [x])[1..] == en[1..] + [x];
      FramesAppend(en[1..], x);
    }
  }

  /** The encoding loop of `encryptToBase64` (main.go:65-76). */
  method EncodeFrames(en: seq<nat>) returns (combinedBytes: seq<byte>)
    ensures combinedBytes == Frames(en)
  {
    combinedBytes := [];
    for i := 0 to |en|
      invariant combinedBytes == Frames(en[..i])
    {
      ghost var before := combinedBytes;
      var xBytes := Bytes(en[i]);
      var length := |xBytes|;
      var lengthBytes := LengthBytes(length);
      combinedBytes := combinedBytes + lengthBytes;
      combinedBytes := combinedBytes + xBytes;
      assert combinedBytes == before + Frame(en[i]);
      FramesAppend(en[..i], en[i]);
      assert en[..i + 1] == en[..i] + [en[i]];
    }
    assert en[..|en|] == en;
  }

  /** `encryptToBase64`. */
  method EncryptToBase64(en: seq<nat>) returns (s: string)
    ensures s == Base64.Encode(Frames(en))
  {
    var combinedBytes := EncodeFrames(en);
    s := Base64.Encode(combinedBytes);
  }

  /** Puts the blocks decoded so far in front of the outcome for the rest. */
  function Prepend(done: seq<nat>, r: Result<seq<nat>>): Result<seq<nat>> {
    match r
    case Ok(rest) => Ok(done + rest)
    case Err(e) => Err(e)
  }

  /** The decoding loop of `decryptFromBase64` with its reads checked: a
      length field that does not fit in the remaining bytes, or a length
      beyond them, is a failure where the source reads out of range. */
  function ParseFrames(buf: seq<byte>): (r: Result<seq<nat>>)
    ensures r.Ok? ==> HeaderSize * |r.value| <= |buf|
    decreases |buf|
  {
    if buf == [] then Ok([])
    else if |buf| < HeaderSize then Err(TruncatedHeader)
    else
      var length := ReadLength(buf[0], buf[1], buf[2], buf[3]);
      if |buf| - HeaderSize < length then Err(TruncatedBlock)
      else Prepend([SetBytes(buf[HeaderSize..HeaderSize + length])], ParseFrames(buf[HeaderSize + length..]))
  }

  lemma PrependNil(r: Result<seq<nat>>)
    ensures Prepend([], r) == r
  {
    if r.Ok? {
      assert [] + r.value == r.value;
    }
  }

  /** `ParseFrames` on the bytes from index `i` on, when fewer than
      `HeaderSize` of them are left. */
  lemma ShortHeaderAt(buf: seq<byte>, i: nat)
    requires i < |buf| && |buf| - i < HeaderSize
    ensures ParseFrames(buf[i..]) == Err(TruncatedHeader)
  {
  }

  /** `ParseFrames` on the bytes from index `i` on, when the length field
      there asks for more bytes than follow it. */
  lemma ShortBlockAt(buf: seq<byte>, i: nat, length: nat)
    requires i + HeaderSize <= |buf|
    requires length == ReadLength(buf[i], buf[i + 1], buf[i + 2], buf[i + 3])
    requires |buf| - i - HeaderSize < length
    ensures ParseFrames(buf[i..]) == Err(TruncatedBlock)
  {
    var rest := buf[i..];
    assert rest[0] == buf[i] && rest[1] == buf[i + 1] && rest[2] == buf[i + 2] && rest[3] == buf[i + 3];
  }

  /** `ParseFrames` on the bytes from index `i` on, when the entry there is
      complete: its block, then the entries after it. */
  lemma BlockAt(buf: seq<byte>, i: nat, length: nat)
    requires i + HeaderSize <= |buf|
    requires length == ReadLength(buf[i], buf[i + 1], buf[i + 2], buf[i + 3])
    requires i + HeaderSize + length <= |buf|
    ensures ParseFrames(buf[i..]) ==
      Prepend([SetBytes(buf[i + HeaderSize..i + HeaderSize + length])], ParseFrames(buf[i + HeaderSize + length..]))
  {
    var rest := buf[i..];
    assert rest[0] == buf[i] && rest[1] == buf[i + 1] && rest[2] == buf[i + 2] && rest[3] == buf[i + 3];
    assert rest[HeaderSize..HeaderSize + length] == buf[i + HeaderSize..i + HeaderSize + length];
    assert rest[HeaderSize + length..] == buf[i + HeaderSize + length..];
  }

  lemma PrependAssoc(a: seq<nat>, b: seq<nat>, r: Result<seq<nat>>)
    ensures Prepend(a, Prepend(b, r)) == Prepend(a + b, r)
  {
    if r.Ok? {
      assert a + (b + r.value) == (a + b) + r.value;
    }
  }

  /** One round of the decoding loop keeps what remains to be decoded. */
  lemma DecodeStep(buf: seq<byte>, i: nat, length: nat, en: seq<nat>)
    requires i + HeaderSize <= |buf|
    requires length == ReadLength(buf[i], buf[i + 1], buf[i + 2], buf[i + 3])
    requires i + HeaderSize + length <= |buf|
    ensures Prepend(en, ParseFrames(buf[i..])) ==
      Prepend(en + [SetBytes(buf[i + HeaderSize..i + HeaderSize + length])], ParseFrames(buf[i + HeaderSize + length..]))
  {
    BlockAt(buf, i, length);
    PrependAssoc(en, [SetBytes(buf[i + HeaderSize..i + HeaderSize + length])], ParseFrames(buf[i + HeaderSize + length..]));
  }

  /** The decoding loop of `decryptFromBase64` (main.go:108-115), returning
      a failure instead of reading out of range. */
  method DecodeFrames(decodedBytes: seq<byte>) returns (r: Result<seq<nat>>)
    ensures r == ParseFrames(decodedBytes)
  {
    var en: seq<nat> := [];
    var i := 0;
    PrependNil(ParseFrames(decodedBytes));
    assert decodedBytes[0..] == decodedBytes;
    while i < |decodedBytes|
      invariant 0 <= i <= |decodedBytes|
      invariant ParseFrames(decodedBytes) == Prepend(en, ParseFrames(decodedBytes[i..]))
      decreases |decodedBytes| - i
    {
      if |decodedBytes| - i < HeaderSize {
        ShortHeaderAt(decodedBytes, i);
        return Err(TruncatedHeader);
      }
      var length := ReadLength(decodedBytes[i], decodedBytes[i + 1], decodedBytes[i + 2], decodedBytes[i + 3]);
      if |decodedBytes| - i - HeaderSize < length {
        ShortBlockAt(decodedBytes, i, length);
        return Err(TruncatedBlock);
      }
      DecodeStep(decodedBytes, i, length, en);
      ghost var start := i;
      i := i + HeaderSize;
      var block := SetBytes(decodedBytes[i..i + length]);
      en := en + [block];
      i := i + length;
      assert block == SetBytes(decodedBytes[start + HeaderSize..start + HeaderSize + length]);
      assert decodedBytes[i..] == decodedBytes[start + HeaderSize + length..];
    }
    assert decodedBytes[i..] == [];
    PrependNil(Ok([]));
    assert en + [] == en;
    r := Ok(en);
  }

  /** The length field of an entry followed by more bytes reads back as the
      block's length. */
  lemma FrameHeader(x: nat, tail: seq<byte>)
    requires |Bytes(x)| < LengthLimit
    ensures var buf := Frame(x) + tail;
      HeaderSize <= |buf| && ReadLength(buf[0], buf[1], buf[2], buf[3]) == |Bytes(x)|
  {
    var n := |Bytes(x)|;
    var h := LengthBytes(n);
    DivModUnique(n, LengthLimit, 0, n);
    var buf := Frame(x) + tail;
    assert buf[..HeaderSize] == h;
    assert buf[0] == h[0] && buf[1] == h[1] && buf[2] == h[2] && buf[3] == h[3];
  }

  /** After the length field of an entry come its block and then the rest. */
  lemma FrameBody(x: nat, tail: seq<byte>)
    ensures var buf, length := Frame(x) + tail, |Bytes(x)|;
      && HeaderSize + length <= |buf|
      && buf[HeaderSize..HeaderSize + length] == Bytes(x)
      && buf[HeaderSize + length..] == tail
  {
    SplitAfter(LengthBytes(|Bytes(x)|), Bytes(x), tail);
  }

  lemma SplitAfter<T>(h: seq<T>, b: seq<T>, t: seq<T>)
    ensures var buf := h + b + t;
      && buf[|h|..|h| + |b|] == b
      && buf[|h| + |b|..] == t
  {
  }

  /** Decoding the buffer the encoder built gives back the blocks, in order. */
  lemma {:induction false} ParseFramesOfFrames(en: seq<nat>)
    requires Encodable(en)
    ensures ParseFrames(Frames(en)) == Ok(en)
    decreases |en|
  {
    if en != [] {
      var x := en[0];
      var tail := Frames(en[1..]);
      var buf := Frame(x) + tail;
      assert Frames(en) == buf;
      FrameHeader(x, tail);
      FrameBody(x, tail);
      BlockAt(buf, 0, |Bytes(x)|);
      assert buf[0..] == buf;
      SetBytesOfBytes(x);
      ParseFramesOfFrames(en[1..]);
      assert en == [x] + en[1..];
    }
  }

  /** `decryptFromBase64` as a function: the Base64 failure, or the blocks
      parsed from the decoded bytes; every block took at least its header
      out of `DecodeString`'s buffer. */
  function WireDecode(s: string): (r: Result<seq<nat>>)
    ensures r.Ok? ==> HeaderSize * |r.value| <= Base64.DecodedLen(|s|)
  {
    match Base64.Decode(s)
    case Err(e) => Err(e)
    case Ok(decodedBytes) => ParseFrames(decodedBytes)
  }

  /** `decryptFromBase64`. */
  method DecryptFromBase64(base64Str: string) returns (r: Result<seq<nat>>)
    ensures r == WireDecode(base64Str)
  {
    var decoded := Base64.Decode(base64Str);
    if decoded.Err? {
      return Err(decoded.error);
    }
    r := DecodeFrames(decoded.value);
  }

  /** The round trip of the wire format: `decryptFromBase64` applied to
      the text `encryptToBase64` produced returns the same blocks, in order. */
  lemma WireRoundTrip(en: seq<nat>)
    requires Encodable(en)
    ensures WireDecode(Base64.Encode(Frames(en))) == Ok(en)
  {
    Base64.DecodeEncode(Frames(en));
    ParseFramesOfFrames(en);
  }

  /** What the decoding loop of main.go:109-114 does as written. */
  datatype AsWrittenOutcome =
    | Returned(blocks: seq<nat>, readPastEnd: bool)
    | IndexOutOfRange

  /** The Go loop on the bytes from `i` on (`rest`). The header is read by
      indexing, which Go checks against the length of `decodedBytes`; the
      block is read by slicing, which Go checks against its capacity, so the
      slice may take in `spare`, whatever bytes `DecodeString`'s buffer holds
      past the decoded length. `readPastEnd` records that a block did. */
  function DecodeAsWritten(rest: seq<byte>, spare: seq<byte>): (r: AsWrittenOutcome)
    ensures r.Returned? && !r.readPastEnd ==> ParseFrames(rest) == Ok(r.blocks)
    decreases |rest|
  {
    if rest == [] then Returned([], false)
    else if |rest| < HeaderSize then IndexOutOfRange
    else
      var length := ReadLength(rest[0], rest[1], rest[2], rest[3]);
      var avail := rest + spare;
      if HeaderSize + length > |avail| then IndexOutOfRange
      else
        var block := SetBytes(avail[HeaderSize..HeaderSize + length]);
        if HeaderSize + length > |rest| then Returned([block], true)
        else
          var next := rest[HeaderSize + length..];
          assert avail[HeaderSize..HeaderSize + length] == rest[HeaderSize..HeaderSize + length];
          assert ParseFrames(rest) == Prepend([block], ParseFrames(next));
          match DecodeAsWritten(next, spare)
          case IndexOutOfRange => IndexOutOfRange
          case Returned(more, past) => Returned([block] + more, past)
  }

  /** `ParseFrames` succeeds exactly where the Go loop reads only decoded
      bytes, and then returns the same blocks; everywhere else the Go loop
      either panics or builds a block from bytes past the decoded data. */
  lemma {:induction false} ParseFramesMatchesAsWritten(buf: seq<byte>, spare: seq<byte>)
    ensures ParseFrames(buf).Ok? ==> DecodeAsWritten(buf, spare) == Returned(ParseFrames(buf).value, false)
    ensures ParseFrames(buf).Err? ==>
      DecodeAsWritten(buf, spare).IndexOutOfRange? || DecodeAsWritten(buf, spare).readPastEnd
    decreases |buf|
  {
    if |buf| >= HeaderSize {
      var length := ReadLength(buf[0], buf[1], buf[2], buf[3]);
      if HeaderSize + length <= |buf| {
        assert (buf + spare)[HeaderSize..HeaderSize + length] == buf[HeaderSize..HeaderSize + length];
        ParseFramesMatchesAsWritten(buf[HeaderSize + length..], spare);
      }
    }
  }

  /** "AAAAAAA=" decodes to five zero bytes: one empty block and a stray
      byte. The Go loop indexes past the end of the bytes and panics. */
  lemma TrailingByteAsWritten(spare: seq<byte>)
    ensures DecodeAsWritten([0, 0, 0, 0, 0], spare) == IndexOutOfRange
  {
    AsWrittenOnStrayBytes([0, 0, 0, 0, 0], spare);
  }

  /** On the same text the corrected decoding reports the truncated header. */
  lemma TrailingByteRejected()
    ensures WireDecode("AAAAAAA=") == Err(TruncatedHeader)
  {
    Base64.DecodeExample();
    ParseFramesOnStrayBytes([0, 0, 0, 0, 0]);
  }

  /** An empty frame followed by one to three stray bytes: the Go loop
      panics on the second header. */
  lemma AsWrittenOnStrayBytes(buf: seq<byte>, spare: seq<byte>)
    requires HeaderSize < |buf| < 2 * HeaderSize
    requires ReadLength(buf[0], buf[1], buf[2], buf[3]) == 0
    ensures DecodeAsWritten(buf, spare) == IndexOutOfRange
  {
    AsWrittenShortHeader(buf[HeaderSize..], spare);
  }

  lemma AsWrittenShortHeader(rest: seq<byte>, spare: seq<byte>)
    requires 0 < |rest| < HeaderSize
    ensures DecodeAsWritten(rest, spare) == IndexOutOfRange
  {
  }

  /** An empty frame followed by one to three stray bytes: `ParseFrames`
      reports the truncated header. */
  lemma ParseFramesOnStrayBytes(buf: seq<byte>)
    requires HeaderSize < |buf| < 2 * HeaderSize
    requires ReadLength(buf[0], buf[1], buf[2], buf[3]) == 0
    ensures ParseFrames(buf) == Err(TruncatedHeader)
  {
    ParseFramesShortHeader(buf[HeaderSize..]);
  }

  lemma ParseFramesShortHeader(rest: seq<byte>)
    requires 0 < |rest| < HeaderSize
    ensures ParseFrames(rest) == Err(TruncatedHeader)
  {
  }

  /** The bytes past the decoded data in `DecodeString`'s buffer of
      `Base64.DecodedLen(|s|)` bytes: `make` zeroes them and decoding leaves
      them zero. */
  function SpareRoom(s: string, decoded: seq<byte>): (spare: seq<byte>)
    ensures |decoded| <= Base64.DecodedLen(|s|) ==> |decoded| + |spare| == Base64.DecodedLen(|s|)
    ensures forall i :: 0 <= i < |spare| ==> spare[i] == 0
  {
    var cap := Base64.DecodedLen(|s|);
    if |decoded| <= cap then seq(cap - |decoded|, _ => 0) else []
  }

  /** "AAAAAQ==" decodes to the four bytes 0, 0, 0, 1 in a buffer of six: a
      header announcing a one-byte block and no block. The Go slice takes
      the block from the two zero bytes of spare room and returns it
      without error. */
  lemma OverlongBlockAsWritten()
    ensures DecodeAsWritten([0, 0, 0, 1], SpareRoom("AAAAAQ==", [0, 0, 0, 1])) == Returned([0], true)
  {
    ShortExampleSpare();
    AsWrittenOneZero([0, 0, 0, 1], [0, 0]);
  }

  /** A lone header announcing one byte, with zero bytes of spare room. */
  lemma AsWrittenOneZero(buf: seq<byte>, spare: seq<byte>)
    requires |buf| == HeaderSize && ReadLength(buf[0], buf[1], buf[2], buf[3]) == 1
    requires |spare| >= 1 && spare[0] == 0
    ensures DecodeAsWritten(buf, spare) == Returned([0], true)
  {
    AsWrittenPastEnd(buf, spare, 1);
    assert spare[..1] == [0];
    ZeroByte();
  }

  /** `DecodeString("AAAAAQ==")` allocates six bytes and fills four. */
  lemma ShortExampleSpare()
    ensures SpareRoom("AAAAAQ==", [0, 0, 0, 1]) == [0, 0]
  {
    assert Base64.DecodedLen(8) == 6;
  }

  lemma ZeroByte()
    ensures SetBytes([0]) == 0
  {
    assert [0 as byte][..0] == [];
  }

  /** On the same text the corrected decoding reports the truncated block. */
  lemma OverlongBlockRejected()
    ensures WireDecode("AAAAAQ==") == Err(TruncatedBlock)
  {
    Base64.DecodeShortExample();
    ParseFramesPastEnd([0, 0, 0, 1], 1);
  }

  /** A lone header whose block lies past the decoded bytes but within the
      buffer: the Go loop returns a block built from the spare bytes. */
  lemma AsWrittenPastEnd(buf: seq<byte>, spare: seq<byte>, length: nat)
    requires |buf| == HeaderSize
    requires ReadLength(buf[0], buf[1], buf[2], buf[3]) == length
    requires 0 < length <= |spare|
    ensures DecodeAsWritten(buf, spare) == Returned([SetBytes(spare[..length])], true)
  {
    var avail := buf + spare;
    assert avail[HeaderSize..HeaderSize + length] == spare[..length];
    assert HeaderSize + length > |buf|;
  }

  /** A lone header whose block lies past the decoded bytes: `ParseFrames`
      reports the truncated block. */
  lemma ParseFramesPastEnd(buf: seq<byte>, length: nat)
    requires |buf| == HeaderSize
    requires ReadLength(buf[0], buf[1], buf[2], buf[3]) == length
    requires 0 < length
    ensures ParseFrames(buf) == Err(TruncatedBlock)
  {
  }
}
