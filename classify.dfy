/** The per-entry decision: skip keys that do not name a certificate, warn
    about values that do not parse, and flag certificates whose validity
    window is shorter than the minimum age. */
module Classify {
  import opened Basics
  import opened CertKeys
  import opened TlsCert

  /** Nanoseconds in one hour; a duration is a whole number of nanoseconds. */
  const NanosPerHour: int := 3_600_000_000_000

  /** Nanoseconds in one day. */
  const NanosPerDay: int := 24 * NanosPerHour

  /** Duration.Hours: a duration in nanoseconds expressed in hours. */
  function Hours(d: int): (h: real)
    ensures h * (NanosPerHour as real) == d as real
  {
    d as real / NanosPerHour as real
  }

  /** The certificate's validity window, notAfter - notBefore, in hours. */
  function ValidityHours(c: Certificate): (h: real)
    ensures h * (NanosPerHour as real) == (c.notAfter - c.notBefore) as real
    ensures h >= 0.0 <==> c.notBefore <= c.notAfter
  {
    Hours(c.notAfter - c.notBefore)
  }

  /** The minimum age in hours for a threshold of `minDays` days. */
  function MinAgeHours(minDays: real): real
  {
    24.0 * minDays
  }

  /** The age rule: the validity window is strictly shorter than the minimum
      age; in the certificate's own unit, shorter than `minDays` days. */
  predicate IsShortLived(c: Certificate, minDays: real)
    ensures IsShortLived(c, minDays) <==>
      (c.notAfter - c.notBefore) as real < minDays * NanosPerDay as real
  {
    ValidityHours(c) < MinAgeHours(minDays)
  }

  /** The outcome of evaluating one data entry; every entry has exactly one. */
  datatype Outcome =
    | Skipped                       // the key does not name a certificate
    | ParseWarning(err: ParseError) // the key does, but the value does not parse
    | ShortLived(hours: real)       // parsed, and below the minimum age
    | Acceptable(hours: real)       // parsed, and at or above the minimum age

  /** Evaluate one entry (key and raw value) against a threshold in days. */
  function Evaluate(key: string, raw: Bytes, minDays: real, codec: Codec): (o: Outcome)
    ensures o.Skipped? <==> !IsCertKey(key)
    ensures o.ParseWarning? <==> IsCertKey(key) && ParseTLSCert(raw, codec).Failure?
    ensures o.ParseWarning? ==> o.err == ParseTLSCert(raw, codec).error
    ensures (o.ShortLived? || o.Acceptable?) ==>
      ParseTLSCert(raw, codec).Success? && o.hours == ValidityHours(ParseTLSCert(raw, codec).value)
    ensures o.ShortLived? ==> o.hours < 24.0 * minDays
    ensures o.Acceptable? ==> o.hours >= 24.0 * minDays
  {
    if !IsCertKey(key) then Skipped
    else
      match ParseTLSCert(raw, codec)
      case Failure(err) => ParseWarning(err)
      case Success(cert) =>
        var expired := ValidityHours(cert);
        if expired < MinAgeHours(minDays) then ShortLived(expired) else Acceptable(expired)
  }

  /** A key that does not name a certificate is skipped whatever its value,
      the threshold or the decoders: nothing is parsed. */
  lemma NonCandidateSkipped(key: string, raw1: Bytes, raw2: Bytes, d1: real, d2: real, c1: Codec, c2: Codec)
    requires !IsCertKey(key)
    ensures Evaluate(key, raw1, d1, c1) == Evaluate(key, raw2, d2, c2) == Skipped
  {
  }

  /** A candidate whose value does not parse gets the parse error, and no age
      check follows: the outcome is the same for every threshold. */
  lemma ParseFailureIgnoresThreshold(key: string, raw: Bytes, d1: real, d2: real, codec: Codec)
    requires IsCertKey(key) && ParseTLSCert(raw, codec).Failure?
    ensures Evaluate(key, raw, d1, codec) == Evaluate(key, raw, d2, codec)
              == ParseWarning(ParseTLSCert(raw, codec).error)
  {
  }

  /** A parsed candidate is flagged exactly when it is short-lived. */
  lemma ShortLivedIff(key: string, raw: Bytes, minDays: real, codec: Codec)
    requires IsCertKey(key) && ParseTLSCert(raw, codec).Success?
    ensures Evaluate(key, raw, minDays, codec).ShortLived? <==>
      IsShortLived(ParseTLSCert(raw, codec).value, minDays)
  {
  }

  /** Comparing hours against 24 times the day count is the same rule as
      comparing the window in days against the day count. */
  lemma HoursRuleIsDaysRule(c: Certificate, minDays: real)
    ensures IsShortLived(c, minDays) <==> ValidityHours(c) / 24.0 < minDays
  {
  }

  /** A longer threshold flags at least the certificates a shorter one flags. */
  lemma ThresholdMonotone(c: Certificate, d1: real, d2: real)
    requires d1 <= d2 && IsShortLived(c, d1)
    ensures IsShortLived(c, d2)
  {
  }

  /** A longer window is flagged only if every shorter one is. */
  lemma WindowMonotone(c1: Certificate, c2: Certificate, minDays: real)
    requires c1.notAfter - c1.notBefore <= c2.notAfter - c2.notBefore
    requires IsShortLived(c2, minDays)
    ensures IsShortLived(c1, minDays)
  {
  }

  /** Midnight UTC of 2023-01-01, 2023-02-01 and 2024-01-01, in Unix nanoseconds. */
  const Jan2023: Time := 1_672_531_200_000_000_000
  const Feb2023: Time := 1_675_209_600_000_000_000
  const Jan2024: Time := 1_704_067_200_000_000_000

  /** A codec that finds a PEM block in any value and parses it as `cert`. */
  function AlwaysParses(cert: Certificate): Codec
  {
    Codec(raw => PemResult(Some(PemBlock("CERTIFICATE", map[], raw)), []), der => Success(cert))
  }

  /** With a 90-day threshold a 31-day certificate is flagged and a 365-day
      one passes silently. */
  lemma NinetyDayScenarios(raw: Bytes)
    ensures Evaluate("tls.crt", raw, 90.0, AlwaysParses(Certificate(Jan2023, Feb2023)))
              == ShortLived(744.0)
    ensures Evaluate("tls.crt", raw, 90.0, AlwaysParses(Certificate(Jan2023, Jan2024)))
              == Acceptable(8760.0)
  {
  }
}
