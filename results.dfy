/** Failure results of the core. In the Go program each of these is either an
    `error` value or a `log.Fatal`/panic that aborts the process; here they are
    returned to the caller. */
module Results {

  datatype Error =
    | NotCoprime        // reverseModulo: the gcd of its arguments is not 1
    | ZeroModulus       // reverseModulo: reducing modulo 0 (big.Int.Mod panics)
    | MalformedBase64   // the base64 text is not a valid padded encoding
    | TruncatedHeader   // fewer than 4 bytes remain where a length field is due
    | TruncatedBlock    // a length field claims more bytes than remain

  datatype Result<+T> = Ok(value: T) | Err(error: Error)
}
