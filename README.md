# RSA toy: verified model of the cipher core

This project models the core of a small command-line RSA program written in Go
(`main.go`). The program:

- computes the extended greatest common divisor (`gcd`);
- inverts a number modulo another (`reverseModulo`);
- derives Euler's totient of two primes (`eulerFunction`);
- raises to a power modulo `n` (`rsa`);
- picks the public exponent as the least integer from 2 that is coprime to the totient, and the private exponent as its inverse (`genKeys`).

A text is enciphered code point by code point (`encryptingRSA`). Each cipher
number's big-endian bytes are preceded by a 4-byte big-endian length. The whole
buffer is then written in padded standard Base64 (`encryptToBase64`).
Decryption reverses the steps (`decryptFromBase64`, `decryptingRSA`).

The Dafny modules follow that structure:

| module | file | models |
|---|---|---|
| `Results` | results.dfy | the error returns of the program, as a `Result` |
| `Arith` | arith.dfy | divisibility, Euclidean division, natural powers |
| `Euclid` | euclid.dfy | `gcd`, `reverseModulo` |
| `ModExp` | modexp.dfy | `rsa`, that is `big.Int.Exp`, as square-and-multiply |
| `KeyGen` | keygen.dfy | `eulerFunction`, `genKeys` |
| `Primes` | primes.dfy | primality, the binomial theorem, Fermat's little theorem and the Chinese remainder step that make RSA decryption undo encryption |
| `BigBytes` | bigbytes.dfy | `big.Int.Bytes` and `big.Int.SetBytes` |
| `Base64` | base64.dfy | padded standard Base64 (`StdEncoding`) encoding and decoding |
| `Framing` | framing.dfy | `encryptToBase64`, `decryptFromBase64` |
| `Cipher` | cipher.dfy | `encryptingRSA`, `decryptingRSA` and the end-to-end round trip |

Go's `big.Int` `Div` and `Mod` are Euclidean: the remainder is never negative.
Dafny's `/` and `%` on `int` behave the same way, so the model uses them
directly. Values are unbounded `int`/`nat`, as `big.Int` is. The one fixed
width, the 4-byte length header, is written out: a length is stored modulo
2^32.

### Example keys

For p = 61 and q = 53 the totient is 3120. The code tries every integer from
2, so the first exponent coprime to 3120 is e = 7, and its inverse is
d = 1783. The letter 'A' (65) enciphers to 65^7 mod 3233 = 1317, which
deciphers back to 65. The familiar textbook values d = 2753 and 65 → 2790
belong to e = 17, which this code never picks for these primes.
`KeyGen.ExampleKeys`, `KeyGen.ExampleDerivation`, `KeyGen.ExampleCipher` and
`Cipher.ExampleDecrypt` prove the values the code yields.

## Model

| member | source | states |
|---|---|---|
| Euclid.ExtGcd | main.go:26-39 | the recursion returns Bézout coefficients: a·x + b·y equals the returned g |
| Euclid.Gcd | main.go:26-39 | the recursive method with out-parameters returns exactly `ExtGcd(a, b)`, satisfies a·x + b·y = g, and for a = 0 returns (b, 0, 1) |
| Euclid.GcdDividesBoth | main.go:26-39 | the returned g divides both a and b |
| Euclid.GcdGreatest | main.go:26-39 | every common divisor of a and b divides the returned g |
| Euclid.GcdNonNegative | main.go:26-39 | for non-negative arguments g ≥ 0, and g = 0 exactly when both are 0 |
| Euclid.ExtGcdIsGcd | main.go:26-39 | for non-negative arguments g is the greatest common divisor: a common divisor, divisible by every common divisor, and at least every positive common divisor |
| Euclid.GcdOneIffCoprime | main.go:44 | the test `g == 1` holds exactly when the two numbers share no divisor above 1 |
| Euclid.GcdWithZero | main.go:27-38 | gcd(a, 0) returns a, in particular gcd(1, 0) = 1 |
| Euclid.BezoutInverse | main.go:47-50 | x mod b of a Bézout coefficient already lies in [0, \|b\|) and inverts a modulo b, so the negative-correction branch never changes the result |
| Euclid.ReverseModulo | main.go:41-52 | succeeds exactly when gcd is 1 and b ≠ 0; the result d lies in [0, \|b\|) and b divides a·d − 1 |
| Euclid.ReverseModuloNotCoprime | main.go:43-46 | the "not coprime" error is returned exactly when gcd ≠ 1 |
| Euclid.ReverseModuloZeroModulus | main.go:47 | the zero-modulus failure of `x.Mod(x, b)` occurs exactly for a = 1, b = 0 |
| Euclid.InverseUnique | main.go:41-52 | at most one value in [0, \|b\|) inverts a modulo b, so the result is the inverse |
| Euclid.ReverseModuloSucceedsIffCoprime | main.go:41-52 | for a ≥ 0 and b > 0, reverseModulo succeeds exactly when a and b are coprime |
| KeyGen.EulerFunction | main.go:54-58 | for p, q > 1 the totient lies in [1, p·q) |
| KeyGen.SuccessorCoprime | main.go:93-95 | φ + 1 is coprime to φ, so the search for e stops by φ + 1 |
| KeyGen.GenKeys | main.go:89-100 | n = p·q. e is the least integer ≥ 2 coprime to φ, and e ≤ φ + 1. d lies in [0, φ) with φ \| e·d − 1, so e·d mod φ = 1 whenever φ > 1 |
| KeyGen.ExampleSearch | main.go:89-95 | for p = 61, q = 53: φ = 3120, and 7 is the first exponent from 2 coprime to it |
| KeyGen.ExampleKeys | main.go:89-100 | key generation for 61 and 53 yields (d, n, e) = (1783, 3233, 7), and 65 enciphers to 1317 |
| KeyGen.ExampleDerivation | main.go:89-100 | any e, d meeting the key-generation promises for 61 and 53 are 7 and 1783 |
| KeyGen.ExampleCipher | main.go:60-62 | 65^7 mod 3233 = 1317 |
| ModExp.Rsa | main.go:60-62 | for mod > 0 the result is below mod and congruent to base^exp modulo mod |
| ModExp.PowReduce | main.go:60-62 | reducing the base modulo mod first does not change the result |
| ModExp.SquareStep | main.go:60-62 | one square-and-multiply step keeps r·x^k mod m unchanged |
| ModExp.ModPow | main.go:60-62 | the square-and-multiply loop returns `Rsa(base, exp, mod)`, below mod when mod > 0 |
| BigBytes.Bytes | main.go:67 | the big-endian magnitude is empty exactly for 0 and never has a leading zero byte |
| BigBytes.SetBytes | main.go:112 | the number read from k big-endian bytes is below 256^k |
| BigBytes.SetBytesOfBytes | main.go:112 | reading back the bytes of x gives x |
| BigBytes.BytesOfSetBytes | main.go:112 | bytes without a leading zero are the magnitude of the number they denote |
| BigBytes.BytesLengthMonotone | main.go:67 | a smaller number has no more bytes than a larger one |
| Base64.Index | main.go:104 | a character's alphabet index is −1 or in [0, 64), and a found index maps back to the character |
| Base64.IndexOfChar | main.go:104 | each alphabet character is found at its own index |
| Base64.Encode | main.go:77 | padded output is 4·⌈len/3⌉ characters |
| Base64.Strip | main.go:104 | the decoder's newline removal leaves no carriage return or line feed and never lengthens |
| Base64.StripEncode | main.go:77 | encoded text contains no newline, so stripping leaves it unchanged |
| Base64.DecodeQuantaEncode | main.go:104 | decoding the quanta of an encoding gives back the bytes |
| Base64.Decode | main.go:104 | `DecodeString` after newline removal; the decoded bytes fit the buffer of 3 bytes per 4 characters it allocates |
| Base64.DecodeEncode | main.go:104 | `DecodeString(EncodeToString(bs))` returns bs without error |
| Base64.DecodeExample | main.go:104 | "AAAAAAA=" decodes to five zero bytes |
| Base64.DecodeShortExample | main.go:104 | "AAAAAQ==" decodes to the bytes 0, 0, 0, 1 |
| Framing.LengthBytes | main.go:69-73 | the header is four bytes, and reading it back gives the length modulo 2^32 |
| Framing.ReadLength | main.go:110 | the length read from a header is below 2^32 |
| Framing.FramesLength | main.go:65-76 | the framed buffer has 4 + \|bytes\| bytes per number, and none for no numbers |
| Framing.FramesAppend | main.go:74-75 | one iteration appends the frame of the next number |
| Framing.EncodeFrames | main.go:65-76 | the loop builds exactly the header-then-bytes frames of all numbers in order |
| Framing.EncryptToBase64 | main.go:64-78 | the result is the Base64 of those frames |
| Framing.ShortHeaderAt | main.go:110 | fewer than four bytes left at a header is a truncated header |
| Framing.ShortBlockAt | main.go:112 | a length running past the bytes is a truncated block |
| Framing.BlockAt | main.go:110-113 | a complete frame yields its number and parsing continues after it |
| Framing.DecodeStep | main.go:109-114 | one loop iteration on a complete frame preserves the relation between the blocks so far and the parse of the whole buffer |
| Framing.ParseFrames | main.go:109-114 | the decoding loop with its reads checked: a truncated header or block is an error, and a success yields at most one block per four bytes |
| Framing.DecodeFrames | main.go:108-115 | the index loop returns exactly `ParseFrames` of the decoded bytes |
| Framing.FrameHeader | main.go:69-74 | a frame starts with the header of its length |
| Framing.FrameBody | main.go:75 | the bytes after a frame's header are the number's bytes |
| Framing.ParseFramesOfFrames | main.go:108-115 | parsing the frames of numbers whose byte length fits 32 bits returns the numbers |
| Framing.WireDecode | main.go:103-116 | `decryptFromBase64` as a function: the Base64 error, or the parsed blocks, at most one per four bytes of the decode buffer |
| Framing.DecryptFromBase64 | main.go:103-116 | the function returns the Base64 error, or the parsed blocks |
| Framing.WireRoundTrip | main.go:103-116 | decoding what `encryptToBase64` produced returns the same numbers |
| Framing.DecodeAsWritten | main.go:109-114 | the Go loop as written: a short header indexes out of range, a block may be sliced from the buffer's spare capacity (recorded by readPastEnd), and a run that reads only decoded bytes returns what `ParseFrames` returns |
| Framing.ParseFramesMatchesAsWritten | main.go:109-114 | where parsing succeeds, the Go loop returns the same blocks; where it fails, the Go loop panics or reads past the decoded bytes |
| Framing.TrailingByteAsWritten | main.go:109-110 | on the bytes of "AAAAAAA=" the Go loop indexes past the end |
| Framing.TrailingByteRejected | main.go:103-116 | the corrected decoding reports a truncated header for "AAAAAAA=" |
| Framing.AsWrittenOnStrayBytes | main.go:110 | an empty frame followed by one to three bytes makes the Go loop index out of range |
| Framing.ParseFramesOnStrayBytes | main.go:110 | the same bytes give a truncated-header error in the corrected decoding |
| Base64.DecodedLenCovers | main.go:104 | the buffer `DecodeString` allocates for an encoding holds its bytes and at most two spare bytes |
| Framing.SpareRoom | main.go:104 | the spare room of the decode buffer is zero bytes, filling the decoded data up to the buffer size |
| Framing.OverlongBlockAsWritten | main.go:112 | on the bytes of "AAAAAQ==", with the two zero spare bytes of its 6-byte decode buffer, the Go loop returns the block 0 without error |
| Framing.OverlongBlockRejected | main.go:103-116 | the corrected decoding reports a truncated block for "AAAAAQ==" |
| Framing.AsWrittenPastEnd | main.go:112 | a lone header whose block lies in the spare capacity yields a block built from those spare bytes |
| Framing.ParseFramesPastEnd | main.go:112 | the same header gives a truncated-block error in the corrected decoding |
| Cipher.PowEach | main.go:120-123 | enciphering keeps one number per code point, each below n |
| Cipher.EncryptingRsa | main.go:118-126 | the loop returns the Base64 framing of each code point raised to e modulo n |
| Cipher.DecryptingRsa | main.go:128-138 | the loop returns the decoding error, or each decoded number raised to d modulo n |
| Cipher.BelowModulusEncodable | main.go:67-68 | numbers below n have byte lengths that fit the 32-bit header whenever n's does |
| Cipher.EncryptDecodes | main.go:118-129 | decoding an enciphered text gives back the cipher numbers |
| Cipher.DecryptEncrypt | main.go:118-138 | deciphering an enciphered text applies d after e to every code point |
| Cipher.EmptyText | main.go:118-138 | the empty text enciphers to "" and "" deciphers to no code points |
| Cipher.TotientAboveOne | main.go:54-58 | two distinct primes have a totient above 1 |
| Cipher.RsaInverse | main.go:60-62 | for distinct primes p, q, with φ \| e·d − 1, any m < p·q satisfies (m^e mod n)^d mod n = m |
| Cipher.InverseEach | main.go:133-136 | under the same keys, deciphering undoes enciphering number by number |
| Cipher.RoundTrip | main.go:118-138 | with keys as `genKeys` promises, `decryptingRSA(d, n, encryptingRSA(e, n, text))` returns text for every text of code points below n |
| Cipher.ExampleDecrypt | main.go:128-138 | 1317^1783 mod 3233 = 65 |

## Left out

- The command line, flag parsing, reading standard input and printing (main.go:17-24, main.go:140-290) are I/O and are not modelled.
- `rand.Prime` (main.go:81-88) is randomness: `KeyGen.GenKeys` takes the primes p and q as parameters. The `log.Fatal` after a failed prime draw is left out.
- `KeyGen.GenKeys` requires p, q > 1, which `rand.Prime` guarantees. Its correctness lemma `Cipher.RoundTrip` also needs p ≠ q. The Go code never checks p ≠ q, so two equal draws would give keys that do not invert. The model proves correctness only for distinct primes.
- `log.Fatal` in `decryptingRSA` becomes an `Err` result, because ending the process is not modelled. The `log.Fatal` after `reverseModulo` in `genKeys` (main.go:97-99) is proved unreachable.
- `Euclid.ReverseModulo`: for b = 0 with gcd 1 (only a = 1), Go's `x.Mod(x, b)` panics on division by zero. The model returns `Err(ZeroModulus)` instead. `genKeys` never reaches this case, because φ ≥ 1.
- `ModExp.Rsa` models `big.Int.Exp` for a non-negative base, exponent and modulus only. For a zero modulus the result is the unreduced power, as in Go. `genKeys` never produces a negative exponent or modulus; only a hand-edited key file read by the decrypt driver with `SetString` (main.go:269-270, not modelled) could supply one, and then Go would invert modulo the modulus for a negative exponent and reduce modulo |m| for a negative modulus.
- A text is modelled as its sequence of code points. Go's UTF-8 decoding, including U+FFFD for invalid bytes, is not modelled.
- `Cipher.DecryptingRsa` returns the deciphered numbers themselves. It does not model the `Int64()` and `rune(...)` truncation at main.go:135, nor the re-encoding to UTF-8 at main.go:137. These are the identity for numbers that are valid code points, which is what `Cipher.RoundTrip` covers.
- `Base64.Decode` reports a single `MalformedBase64` error without Go's byte offset and message text.
- `Framing.ParseFramesOfFrames` requires every number's byte length to fit the 32-bit header. Longer numbers have their length silently truncated by the Go encoder, and the round trip is not claimed for them.

## Findings

| source | as written | input that shows it | evidently intended | confidence | as-written member | corrected member |
|---|---|---|---|---|---|---|
| main.go:109-111 | the 4-byte header is read by indexing without checking that four bytes remain | "AAAAAAA=" (an empty frame and one stray byte) makes `decodedBytes[i+1]` index out of range, and the program panics | return an error for a truncated header, as the function's error result allows | high; not executed | Framing.TrailingByteAsWritten | Framing.TrailingByteRejected |
| main.go:112 | the block is sliced as `decodedBytes[i:i+length]`, and Go checks a slice against the capacity, not the length | "AAAAAQ==" decodes to 0, 0, 0, 1 in a buffer of `DecodedLen(8)` = 6 zeroed bytes: the header announces one byte, and the slice takes it from the spare capacity, so the block 0 is returned with no error | return an error for a truncated block | high; not executed | Framing.OverlongBlockAsWritten | Framing.OverlongBlockRejected |
