/** Decoding a secret value as a TLS certificate: one PEM block, whose payload
    is parsed as an X.509 certificate. PEM and X.509 decoding themselves are
    library code outside this model; they enter as the two functions of a
    `Codec`, about which nothing is assumed. */
module TlsCert {
  import opened Basics

  /** An instant, in nanoseconds from a fixed reference instant. */
  type Time = int

  /** The part of an X.509 certificate the audit reads: its validity period
      (the Validity field, section 4.1.2.5 of RFC 5280). */
  datatype Certificate = Certificate(notBefore: Time, notAfter: Time)

  /** A decoded PEM block: its type label, its headers and its binary payload. */
  datatype PemBlock = PemBlock(blockType: string, headers: map<string, string>, bytes: Bytes)

  /** The error value the X.509 parser reports, known here by its text only. */
  datatype X509Error = X509Error(message: string)

  /** What PEM decoding returns: the first block found (if any) and the bytes
      after it (all of the input when there is no block). */
  datatype PemResult = PemResult(block: Option<PemBlock>, rest: Bytes)

  /** The two library decoders: PEM decoding of some bytes, and the parse of
      a DER payload as one certificate. */
  datatype Codec = Codec(
    pemDecode: Bytes -> PemResult,
    x509Parse: Bytes -> Result<Certificate, X509Error>)

  /** Why a secret value is not a certificate. */
  datatype ParseError =
    | PemDecodeFailed            // no PEM block in the value
    | CertificateInvalid(cause: X509Error)  // the X.509 parser's own error, passed on

  /** The text of the error, as the warning line shows it. */
  function ErrorMessage(e: ParseError): string
  {
    match e
    case PemDecodeFailed => "pem decode failed"
    case CertificateInvalid(cause) => cause.message
  }

  /** parseTLSCert: decode the first PEM block; fail if there is none;
      otherwise parse its payload as X.509 and hand back the certificate or
      the parser's error. */
  function ParseTLSCert(raw: Bytes, codec: Codec): (r: Result<Certificate, ParseError>)
    ensures r.Success? <==>
      codec.pemDecode(raw).block.Some? &&
      codec.x509Parse(codec.pemDecode(raw).block.value.bytes).Success?
  {
    match codec.pemDecode(raw).block
    case None => Failure(PemDecodeFailed)
    case Some(block) =>
      match codec.x509Parse(block.bytes)
      case Failure(err) => Failure(CertificateInvalid(err))
      case Success(cert) => Success(cert)
  }

  /** Without a PEM block the parse fails with the PEM error, whatever the
      X.509 parser would have said: the parser is not consulted. */
  lemma NoBlockSkipsX509(raw: Bytes, c1: Codec, c2: Codec)
    requires c1.pemDecode(raw).block.None? && c2.pemDecode(raw).block.None?
    ensures ParseTLSCert(raw, c1) == ParseTLSCert(raw, c2) == Failure(PemDecodeFailed)
  {
  }

  /** With a PEM block, the outcome is exactly the X.509 parser's outcome on
      the block's payload: its certificate, or its error unchanged. */
  lemma BlockOutcomeIsX509Outcome(raw: Bytes, codec: Codec)
    requires codec.pemDecode(raw).block.Some?
    ensures var parsed := codec.x509Parse(codec.pemDecode(raw).block.value.bytes);
      ParseTLSCert(raw, codec) ==
        if parsed.Success? then Success(parsed.value) else Failure(CertificateInvalid(parsed.error))
  {
  }

  /** The parse depends only on the first PEM block: two values whose first
      blocks agree parse alike, however different the bytes after that block
      (the rest, where further blocks of a chain would be). */
  lemma OnlyFirstBlockMatters(raw1: Bytes, raw2: Bytes, codec: Codec)
    requires codec.pemDecode(raw1).block == codec.pemDecode(raw2).block
    ensures ParseTLSCert(raw1, codec) == ParseTLSCert(raw2, codec)
  {
  }
}
