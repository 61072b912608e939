# Certificate audit over cluster secrets, in Dafny

This project models the certificate audit in `main.go`. The audit walks every
namespace of a cluster, every secret in each namespace, and every key/value
entry of each secret's data. An entry whose key contains `cert` or `crt` is a
certificate candidate. The value of a candidate is decoded as one PEM block
holding an X.509 certificate. A value that does not decode produces a warning.
A certificate whose validity window (`NotAfter - NotBefore`, in hours) is
below `24 * day` produces a finding. Every other entry is silent. A failure
to list namespaces or secrets aborts the run.

Modules, one per part of the program:

- `Basics` (basics.dfy): `Option`, `Result`, bytes.
- `CertKeys` (keys.dfy): the key heuristic (`strings.Contains` on `"cert"` and `"crt"`).
- `TlsCert` (tlscert.dfy): `parseTLSCert`. PEM and X.509 decoding are the two
  function fields of a `Codec` value, and nothing is assumed about them.
- `Classify` (classify.dfy): the age rule, and the one `Outcome` of each entry.
- `Audit` (audit.dfy): the three nested loops of `main`. There is one method
  per loop: `Run` over namespaces, `AuditNamespace` over secrets, and
  `AuditSecret` over the data map. Each appends report records to a log
  sequence. Each is proved equal to a specification function (`RunLog`,
  `NamespaceLog`, `SecretLog`) of the visiting order it chose.

Go's map iteration order is unspecified. `AuditSecret` therefore picks the
next key with `:|` and also returns the order in which it visited the keys.
The lemmas then show that the content of the log does not depend on that
order.

The cluster is an input. The namespace listing is a `Result` value. The
secret listing is a function from namespace name to `Result`. Each `panic`
on a listing error becomes `RunStatus.Aborted`, and lines logged before it
stay in the log.

main.go compares the window in hours with `24 * day` (main.go:49-51).
`Classify.HoursRuleIsDaysRule` proves this is the same rule as comparing the
window in days with `day`, over exact arithmetic.

The warning line logs both the error text and the raw value (main.go:46), and
so does `Audit.Report.Warning`.

## Model

| member | source | states |
|---|---|---|
| `CertKeys.ContainsSubstringIff` | main.go:43 | the left-to-right search finds a pattern exactly when it occurs contiguously at some offset of the key (both directions) |
| `CertKeys.IsCertKey` | main.go:43 | a key is a candidate iff "cert" or "crt" occurs in it at some offset, case-sensitively |
| `CertKeys.CandidateKeys` | main.go:43 | "tls.crt", "ca.crt", "certificate", "x-crt" and "client-cert.pem" are candidates: the match may be anywhere in the key |
| `CertKeys.NonCandidateKeys` | main.go:43 | "CRT", "Cert", "username", "tls.key" and "" are not candidates: the match is case-sensitive |
| `CertKeys.SecretIsNotCandidate` | main.go:43 | "secret" is not a candidate although it contains the letters of "cert" |
| `TlsCert.ParseTLSCert` | main.go:60-74 | the parse succeeds iff a PEM block is found and its payload parses as X.509 |
| `TlsCert.NoBlockSkipsX509` | main.go:65-68 | with no PEM block the result is the PEM error whatever the X.509 parser would say, so the parser is not consulted |
| `TlsCert.BlockOutcomeIsX509Outcome` | main.go:69-73 | with a PEM block the result is the X.509 parser's certificate, or its error passed on unchanged |
| `TlsCert.OnlyFirstBlockMatters` | main.go:65 | two values whose first PEM blocks agree parse alike, whatever the bytes after that block (the `rest` that main.go:65 discards) |
| `Classify.Hours` | main.go:49 | a duration in hours times the nanoseconds per hour is the duration in nanoseconds |
| `Classify.ValidityHours` | main.go:49 | the window in hours times the nanoseconds per hour is `NotAfter - NotBefore`; it is non-negative iff `NotBefore <= NotAfter` |
| `Classify.IsShortLived` | main.go:50-51 | a certificate is short-lived iff its window in nanoseconds is below `day` days |
| `Classify.Evaluate` | main.go:43-53 | an entry is skipped iff its key is not a candidate; it is a parse warning iff it is a candidate whose value fails to parse; otherwise it carries the window in hours, below `24 * day` when short-lived and at or above it when acceptable |
| `Classify.NonCandidateSkipped` | main.go:43 | a non-candidate is skipped whatever its value, threshold or decoders: no parse is attempted |
| `Classify.ParseFailureIgnoresThreshold` | main.go:44-48 | a candidate that fails to parse gets the parse error, the same for every threshold: no age check follows |
| `Classify.ShortLivedIff` | main.go:49-51 | a parsed candidate is flagged iff its window in hours is strictly below `24 * day` |
| `Classify.HoursRuleIsDaysRule` | main.go:49-51 | the hours rule equals the rule "window in days < day" |
| `Classify.ThresholdMonotone` | main.go:50-51 | a certificate flagged under a threshold is flagged under every larger one |
| `Classify.WindowMonotone` | main.go:49-51 | if a certificate is flagged, so is every certificate with a window no longer than its own |
| `Classify.NinetyDayScenarios` | main.go:49-53 | with a 90-day threshold, a 2023-01-01..2023-02-01 certificate is flagged with 744 hours, and a 2023-01-01..2024-01-01 one passes with 8760 hours |
| `Audit.EntryLog` | main.go:43-54 | an entry gives at most one line, naming its namespace, secret and key, and none exactly when it is skipped or acceptable |
| `Audit.ParseFailureWarnsOnce` | main.go:44-47 | a candidate that fails to parse gives exactly one warning with namespace, secret, key, error text and raw value |
| `Audit.WarningText` | main.go:46 | the warning's error text is "pem decode failed" when no PEM block is found (main.go:67), and the X.509 parser's own message when it rejects the block (main.go:71) |
| `Audit.ParsedReportedIffShortLived` | main.go:49-53 | a parsed candidate gives one finding with its window in hours if it is short-lived, and no line otherwise |
| `Audit.EnumerationLength` | main.go:42 | a visiting order that lists each key once has as many elements as the map has keys |
| `Audit.SecretLogCount` | main.go:42-54 | in a secret's log a line occurs once if a visited entry produced it, and zero times otherwise |
| `Audit.SecretLogContents` | main.go:42-54 | a fully visited secret's log holds exactly the lines its entries produce, each once |
| `Audit.SecretLogOrderFree` | main.go:42 | any two visiting orders of a secret give the same lines, up to order |
| `Audit.NoCandidatesNoLog` | main.go:42-43 | a secret with no candidate key logs nothing |
| `Audit.NonPemCertScenario` | main.go:42-47 | a secret {"tls.crt": v} where v has no PEM block logs exactly one warning naming "tls.crt" and reading "pem decode failed" |
| `Audit.UsernameScenario` | main.go:42-43 | a secret {"username": v} logs nothing |
| `Audit.NamespaceLogMembership` | main.go:41-56 | a line is in a namespace's log iff an entry of one of its secrets produced it |
| `Audit.FirstListingFailure` | main.go:36-40 | the position where the run stops: every earlier secret listing succeeded, and the one there failed |
| `Audit.FirstListingFailureAt` | main.go:36-40 | that position is unique: it is the first failing listing, or the number of namespaces |
| `Audit.RunLogMembership` | main.go:36-57 | a line is in the run's log iff an entry of a secret of a visited namespace produced it |
| `Audit.AuditSecret` | main.go:42-55 | visits each key of the secret exactly once, in some order, and logs what `SecretLog` gives for that order |
| `Audit.AuditNamespace` | main.go:41-56 | visits the secrets in listing order, each fully, and logs what `NamespaceLog` gives |
| `Audit.Run` | main.go:31-57 | a failed namespace listing logs nothing and evaluates nothing. Otherwise the run visits exactly the namespaces before the first failing secret listing, logs `RunLog` of them, and ends Aborted with that listing's error, or Completed if there is none |

## Left out

- Kubeconfig loading, client construction and the `List` calls (main.go:23-31, 37): network I/O. The namespace listing is an input `Result`, and the secret listing is a function from namespace name to `Result`. Each namespace is listed once, so a listing that changes between calls makes no difference.
- Flag parsing and the globals `configPath` and `day` (main.go:16-22). The threshold is the parameter `minDays`.
- `pem.Decode` and `x509.ParseCertificate`: library code, modelled as the uninterpreted function fields of `Codec`. `pem.Decode` returns its first block and the rest of the input. A certificate keeps only `NotBefore` and `NotAfter`.
- Floating point: `Duration.Hours()`, `day` and `24 * day` are exact reals, and rounding is not modelled.
- Non-finite thresholds: `flag.Float64Var` (main.go:21) accepts "NaN", "Inf" and "-Inf" for `day`. With NaN, `expired < minAge` is always false and nothing is flagged. With +Inf every parsed certificate is flagged, and with -Inf none is. A `real` cannot hold these values, so the model covers finite thresholds only.
- `Classify.ValidityHours`: does not model the saturation of Go's `Time.Sub` at the limits of a 64-bit duration (windows longer than about 292 years). Times are unbounded integers of nanoseconds.
- Log formatting and destination (main.go:46, 52): the fixed "kube-system:" prefix, `%v` rendering of the hours and `string(v)` of the raw bytes. Each line is a `Report` record; a warning carries the error's text.
- Keys are sequences of characters, while Go compares bytes. For the ASCII patterns "cert" and "crt" the two agree on valid UTF-8 keys.
- The commented-out base64 decoding (main.go:61-64): dead code.
- `panic` itself: process termination is modelled as the run returning `Aborted` with the listing error.
