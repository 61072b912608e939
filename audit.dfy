/** The audit run: every data entry of every secret of every namespace is
    evaluated once, and the warnings and findings it produces are appended to
    a log. Cluster listings are inputs: the namespace listing is a value that
    may be an error, and the secret listing is a function of the namespace
    name. A listing error aborts the run. */
module Audit {
  import opened Basics
  import opened CertKeys
  import opened TlsCert
  import opened Classify

  /** A secret: its name and its opaque data, a map from key to bytes. */
  datatype Secret = Secret(name: string, data: map<string, Bytes>)

  /** A listing failure reported by the cluster. */
  datatype ClusterError = ClusterError(message: string)

  /** One log line: a warning about a value that does not parse, or a
      certificate whose validity window is below the minimum age. */
  datatype Report =
    | Warning(namespace: string, secret: string, key: string, err: string, raw: Bytes)
    | ShortLivedCert(namespace: string, secret: string, key: string, hours: real)

  /** How a run ends: having visited every namespace, or at a listing error. */
  datatype RunStatus = Completed | Aborted(cause: ClusterError)

  /** The log lines one entry produces. */
  function EntryLog(ns: string, secret: string, key: string, raw: Bytes, minDays: real, codec: Codec)
    : (log: seq<Report>)
    ensures |log| <= 1
    ensures log != [] ==> log[0].namespace == ns && log[0].secret == secret && log[0].key == key
    ensures log == [] <==> Evaluate(key, raw, minDays, codec).Skipped? || Evaluate(key, raw, minDays, codec).Acceptable?
  {
    match Evaluate(key, raw, minDays, codec)
    case Skipped => []
    case ParseWarning(err) => [Warning(ns, secret, key, ErrorMessage(err), raw)]
    case ShortLived(hours) => [ShortLivedCert(ns, secret, key, hours)]
    case Acceptable(_) => []
  }

  /** A candidate whose value does not parse gives exactly one warning, with
      the namespace, secret, key, error and raw value, whatever the threshold. */
  lemma ParseFailureWarnsOnce(ns: string, secret: string, key: string, raw: Bytes, minDays: real, codec: Codec)
    requires IsCertKey(key) && ParseTLSCert(raw, codec).Failure?
    ensures EntryLog(ns, secret, key, raw, minDays, codec)
              == [Warning(ns, secret, key, ErrorMessage(ParseTLSCert(raw, codec).error), raw)]
  {
  }

  /** The warning for a value with no PEM block reads "pem decode failed";
      for a block the X.509 parser rejects, it reads the parser's message. */
  lemma WarningText(ns: string, secret: string, key: string, raw: Bytes, minDays: real, codec: Codec)
    requires IsCertKey(key)
    ensures codec.pemDecode(raw).block.None? ==>
      EntryLog(ns, secret, key, raw, minDays, codec) == [Warning(ns, secret, key, "pem decode failed", raw)]
    ensures codec.pemDecode(raw).block.Some? &&
            codec.x509Parse(codec.pemDecode(raw).block.value.bytes).Failure? ==>
      EntryLog(ns, secret, key, raw, minDays, codec)
        == [Warning(ns, secret, key, codec.x509Parse(codec.pemDecode(raw).block.value.bytes).error.message, raw)]
  {
  }

  /** A candidate that parses is reported, once and with its window in hours,
      exactly when it is short-lived; otherwise it is silent. */
  lemma ParsedReportedIffShortLived(ns: string, secret: string, key: string, raw: Bytes, minDays: real, codec: Codec)
    requires IsCertKey(key) && ParseTLSCert(raw, codec).Success?
    ensures var cert := ParseTLSCert(raw, codec).value;
      EntryLog(ns, secret, key, raw, minDays, codec)
        == if IsShortLived(cert, minDays) then [ShortLivedCert(ns, secret, key, ValidityHours(cert))] else []
  {
  }

  /** Every key of `order` is a key of the secret. */
  predicate KeysOf(order: seq<string>, s: Secret)
  {
    forall k :: k in order ==> k in s.data
  }

  /** No key is listed twice. */
  predicate NoDuplicates(order: seq<string>)
  {
    forall i, j :: 0 <= i < j < |order| ==> order[i] != order[j]
  }

  /** `order` lists every key of `keys` exactly once, in some order. */
  ghost predicate Enumerates(order: seq<string>, keys: set<string>)
  {
    NoDuplicates(order) && forall k :: k in order <==> k in keys
  }

  /** An enumeration visits as many keys as there are: each exactly once. */
  lemma {:induction false} EnumerationLength(order: seq<string>, keys: set<string>)
    requires Enumerates(order, keys)
    ensures |order| == |keys|
    decreases |order|
  {
    if order != [] {
      var rest := order[1..];
      assert Enumerates(rest, keys - {order[0]}) by {
        forall k ensures k in rest <==> k in keys - {order[0]} {
          if k in rest {
            var i :| 0 <= i < |rest| && rest[i] == k;
            assert order[i + 1] == k;
          }
          if k in keys - {order[0]} {
            assert k in order;
            var i :| 0 <= i < |order| && order[i] == k;
            assert rest[i - 1] == k;
          }
        }
      }
      EnumerationLength(rest, keys - {order[0]});
    }
  }

  /** The log of one secret when its keys are visited in `order`. */
  function SecretLog(ns: string, s: Secret, order: seq<string>, minDays: real, codec: Codec): seq<Report>
    requires KeysOf(order, s)
  {
    if order == [] then []
    else
      var k := order[|order| - 1];
      SecretLog(ns, s, order[..|order| - 1], minDays, codec) + EntryLog(ns, s.name, k, s.data[k], minDays, codec)
  }

  /** The entry of `s` whose key `r` names produced `r`. */
  predicate ProducedBy(r: Report, ns: string, s: Secret, minDays: real, codec: Codec)
  {
    r.key in s.data && EntryLog(ns, s.name, r.key, s.data[r.key], minDays, codec) == [r]
  }

  /** In the log of a secret, a line occurs once if the entry it names
      produced it and the entry was visited, and never otherwise. */
  lemma {:induction false} SecretLogCount(ns: string, s: Secret, order: seq<string>, minDays: real, codec: Codec, r: Report)
    requires KeysOf(order, s) && NoDuplicates(order)
    ensures multiset(SecretLog(ns, s, order, minDays, codec))[r]
              == if r.key in order && ProducedBy(r, ns, s, minDays, codec) then 1 else 0
  {
    if order != [] {
      var n := |order| - 1;
      var prefix, k := order[..n], order[n];
      assert order == prefix + [k];
      SecretLogCount(ns, s, prefix, minDays, codec, r);
      var tail := EntryLog(ns, s.name, k, s.data[k], minDays, codec);
      assert multiset(SecretLog(ns, s, order, minDays, codec))[r]
               == multiset(SecretLog(ns, s, prefix, minDays, codec))[r] + multiset(tail)[r];
      if tail == [r] {
        assert r.key == k && k !in prefix;
      } else {
        assert multiset(tail)[r] == 0;
      }
    }
  }

  /** The log of a fully visited secret holds exactly the lines its entries
      produce, each once: which order the keys were visited in changes only
      the order of the lines. */
  lemma SecretLogContents(ns: string, s: Secret, order: seq<string>, minDays: real, codec: Codec)
    requires Enumerates(order, s.data.Keys)
    ensures forall r :: multiset(SecretLog(ns, s, order, minDays, codec))[r]
              == if ProducedBy(r, ns, s, minDays, codec) then 1 else 0
  {
    forall r
      ensures multiset(SecretLog(ns, s, order, minDays, codec))[r]
                == if ProducedBy(r, ns, s, minDays, codec) then 1 else 0
    {
      SecretLogCount(ns, s, order, minDays, codec, r);
    }
  }

  /** Two visiting orders of the same secret give the same lines. */
  lemma SecretLogOrderFree(ns: string, s: Secret, o1: seq<string>, o2: seq<string>, minDays: real, codec: Codec)
    requires Enumerates(o1, s.data.Keys) && Enumerates(o2, s.data.Keys)
    ensures multiset(SecretLog(ns, s, o1, minDays, codec)) == multiset(SecretLog(ns, s, o2, minDays, codec))
  {
    SecretLogContents(ns, s, o1, minDays, codec);
    SecretLogContents(ns, s, o2, minDays, codec);
  }

  /** A secret none of whose keys names a certificate logs nothing. */
  lemma {:induction false} NoCandidatesNoLog(ns: string, s: Secret, order: seq<string>, minDays: real, codec: Codec)
    requires KeysOf(order, s)
    requires forall k :: k in s.data ==> !IsCertKey(k)
    ensures SecretLog(ns, s, order, minDays, codec) == []
  {
    if order != [] {
      NoCandidatesNoLog(ns, s, order[..|order| - 1], minDays, codec);
    }
  }

  /** `orders[j]` enumerates the keys of `secrets[j]`, for every secret. */
  ghost predicate EnumeratesAll(orders: seq<seq<string>>, secrets: seq<Secret>)
  {
    |orders| == |secrets| && forall j :: 0 <= j < |secrets| ==> Enumerates(orders[j], secrets[j].data.Keys)
  }

  /** The log of one namespace: its secrets in listing order, each secret's
      keys in the order recorded for it. */
  function NamespaceLog(ns: string, secrets: seq<Secret>, orders: seq<seq<string>>, minDays: real, codec: Codec)
    : seq<Report>
    requires EnumeratesAll(orders, secrets)
  {
    if secrets == [] then []
    else
      var n := |secrets| - 1;
      NamespaceLog(ns, secrets[..n], orders[..n], minDays, codec)
        + SecretLog(ns, secrets[n], orders[n], minDays, codec)
  }

  /** Some entry of some secret in `secrets` produced `r`. */
  ghost predicate ProducedInNamespace(r: Report, ns: string, secrets: seq<Secret>, minDays: real, codec: Codec)
  {
    exists j :: 0 <= j < |secrets| && ProducedBy(r, ns, secrets[j], minDays, codec)
  }

  /** A line is in a namespace's log exactly when some entry of one of its
      secrets produced it. */
  lemma {:induction false} NamespaceLogMembership(ns: string, secrets: seq<Secret>, orders: seq<seq<string>>,
                                                  minDays: real, codec: Codec, r: Report)
    requires EnumeratesAll(orders, secrets)
    ensures r in NamespaceLog(ns, secrets, orders, minDays, codec) <==>
      ProducedInNamespace(r, ns, secrets, minDays, codec)
  {
    if secrets != [] {
      var n := |secrets| - 1;
      var prefix, last := secrets[..n], secrets[n];
      EnumeratesAllPrefix(orders, secrets);
      NamespaceLogMembership(ns, prefix, orders[..n], minDays, codec, r);
      SecretLogCount(ns, last, orders[n], minDays, codec, r);
      ProducedInNamespaceLast(r, ns, secrets, minDays, codec);
    }
  }

  /** Dropping the last secret keeps the remaining enumerations. */
  lemma EnumeratesAllPrefix(orders: seq<seq<string>>, secrets: seq<Secret>)
    requires EnumeratesAll(orders, secrets) && secrets != []
    ensures EnumeratesAll(orders[..|secrets| - 1], secrets[..|secrets| - 1])
    ensures Enumerates(orders[|secrets| - 1], secrets[|secrets| - 1].data.Keys)
  {
  }

  /** Splitting the secrets of a namespace into the last one and the others. */
  lemma ProducedInNamespaceLast(r: Report, ns: string, secrets: seq<Secret>, minDays: real, codec: Codec)
    requires secrets != []
    ensures ProducedInNamespace(r, ns, secrets, minDays, codec) <==>
      ProducedInNamespace(r, ns, secrets[..|secrets| - 1], minDays, codec) ||
      ProducedBy(r, ns, secrets[|secrets| - 1], minDays, codec)
  {
    var n := |secrets| - 1;
    var prefix := secrets[..n];
    if ProducedInNamespace(r, ns, secrets, minDays, codec) {
      var j :| 0 <= j < |secrets| && ProducedBy(r, ns, secrets[j], minDays, codec);
      if j < n {
        assert prefix[j] == secrets[j];
      }
    }
    if ProducedInNamespace(r, ns, prefix, minDays, codec) {
      var j :| 0 <= j < |prefix| && ProducedBy(r, ns, prefix[j], minDays, codec);
      assert secrets[j] == prefix[j];
    }
  }

  /** The position of the first namespace whose secrets cannot be listed, or
      the number of namespaces when every listing succeeds. */
  function FirstListingFailure(names: seq<string>, lister: string -> Result<seq<Secret>, ClusterError>)
    : (n: nat)
    ensures n <= |names|
    ensures forall j :: 0 <= j < n ==> lister(names[j]).Success?
    ensures n < |names| ==> lister(names[n]).Failure?
  {
    if names == [] || lister(names[0]).Failure? then 0
    else 1 + FirstListingFailure(names[1..], lister)
  }

  /** The listing stops at `i` exactly when every earlier listing succeeds
      and the one at `i` fails (or there is none). */
  lemma FirstListingFailureAt(names: seq<string>, lister: string -> Result<seq<Secret>, ClusterError>, i: nat)
    requires i <= |names|
    requires forall j :: 0 <= j < i ==> lister(names[j]).Success?
    requires i < |names| ==> lister(names[i]).Failure?
    ensures FirstListingFailure(names, lister) == i
  {
  }

  /** `visited[i]` records, for the i-th namespace, a successful secret
      listing and a visiting order for each of its secrets. */
  ghost predicate Traversed(names: seq<string>, lister: string -> Result<seq<Secret>, ClusterError>,
                            visited: seq<seq<seq<string>>>)
  {
    |visited| <= |names| &&
    forall i :: 0 <= i < |visited| ==>
      lister(names[i]).Success? && EnumeratesAll(visited[i], lister(names[i]).value)
  }

  /** The log of the first |visited| namespaces, in listing order. */
  function RunLog(names: seq<string>, lister: string -> Result<seq<Secret>, ClusterError>,
                  visited: seq<seq<seq<string>>>, minDays: real, codec: Codec): seq<Report>
    requires Traversed(names, lister, visited)
  {
    if visited == [] then []
    else
      var n := |visited| - 1;
      RunLog(names, lister, visited[..n], minDays, codec)
        + NamespaceLog(names[n], lister(names[n]).value, visited[n], minDays, codec)
  }

  /** Some entry of some secret of one of the first `count` namespaces
      produced `r`. */
  ghost predicate ProducedInRun(r: Report, names: seq<string>, lister: string -> Result<seq<Secret>, ClusterError>,
                                count: nat, minDays: real, codec: Codec)
    requires count <= |names|
  {
    exists i :: 0 <= i < count && lister(names[i]).Success? &&
      ProducedInNamespace(r, names[i], lister(names[i]).value, minDays, codec)
  }

  /** A line is in the log of the visited namespaces exactly when some entry
      of some secret of one of them produced it. */
  lemma {:induction false} RunLogMembership(names: seq<string>, lister: string -> Result<seq<Secret>, ClusterError>,
                                            visited: seq<seq<seq<string>>>, minDays: real, codec: Codec, r: Report)
    requires Traversed(names, lister, visited)
    ensures r in RunLog(names, lister, visited, minDays, codec) <==>
      ProducedInRun(r, names, lister, |visited|, minDays, codec)
  {
    if visited != [] {
      var n := |visited| - 1;
      var prefix := visited[..n];
      var secrets := lister(names[n]).value;
      RunLogMembership(names, lister, prefix, minDays, codec, r);
      NamespaceLogMembership(names[n], secrets, visited[n], minDays, codec, r);
      assert RunLog(names, lister, visited, minDays, codec)
               == RunLog(names, lister, prefix, minDays, codec) + NamespaceLog(names[n], secrets, visited[n], minDays, codec);
      if ProducedInRun(r, names, lister, n + 1, minDays, codec) {
        var i :| 0 <= i < n + 1 && lister(names[i]).Success? &&
          ProducedInNamespace(r, names[i], lister(names[i]).value, minDays, codec);
        if i < n {
          assert ProducedInRun(r, names, lister, n, minDays, codec);
        }
      }
      if ProducedInNamespace(r, names[n], secrets, minDays, codec) {
        assert ProducedInRun(r, names, lister, n + 1, minDays, codec);
      }
    }
  }

  /** A secret {"tls.crt": v} whose value holds no PEM block logs exactly one
      warning, naming the key and carrying the PEM error and the value. */
  lemma NonPemCertScenario(ns: string, name: string, v: Bytes, order: seq<string>, minDays: real, codec: Codec)
    requires codec.pemDecode(v).block.None?
    requires Enumerates(order, {"tls.crt"})
    ensures SecretLog(ns, Secret(name, map["tls.crt" := v]), order, minDays, codec)
              == [Warning(ns, name, "tls.crt", "pem decode failed", v)]
  {
    CandidateKeys();
    EnumerationLength(order, {"tls.crt"});
    assert order[0] in order;
  }

  /** A secret {"username": v} logs nothing, whatever its value. */
  lemma UsernameScenario(ns: string, name: string, v: Bytes, order: seq<string>, minDays: real, codec: Codec)
    requires KeysOf(order, Secret(name, map["username" := v]))
    ensures SecretLog(ns, Secret(name, map["username" := v]), order, minDays, codec) == []
  {
    NonCandidateKeys();
    NoCandidatesNoLog(ns, Secret(name, map["username" := v]), order, minDays, codec);
  }

  /** Visiting one more namespace appends its log to the run's log. */
  lemma RunLogExtend(names: seq<string>, lister: string -> Result<seq<Secret>, ClusterError>,
                     visited: seq<seq<seq<string>>>, orders: seq<seq<string>>, minDays: real, codec: Codec)
    requires Traversed(names, lister, visited) && |visited| < |names|
    requires lister(names[|visited|]).Success?
    requires EnumeratesAll(orders, lister(names[|visited|]).value)
    ensures Traversed(names, lister, visited + [orders])
    ensures RunLog(names, lister, visited + [orders], minDays, codec)
              == RunLog(names, lister, visited, minDays, codec)
                 + NamespaceLog(names[|visited|], lister(names[|visited|]).value, orders, minDays, codec)
  {
    assert (visited + [orders])[..|visited|] == visited;
  }

  /** Evaluate every entry of one secret, in the map's (unspecified) order.
      `order` is not an output of the program: it records the order in which
      the loop happened to visit the keys, so that the log can be specified. */
  method AuditSecret(ns: string, s: Secret, minDays: real, codec: Codec)
    returns (log: seq<Report>, order: seq<string>)
    ensures Enumerates(order, s.data.Keys)
    ensures log == SecretLog(ns, s, order, minDays, codec)
  {
    log, order := [], [];
    var rest := s.data.Keys;
    while rest != {}
      invariant rest <= s.data.Keys
      invariant NoDuplicates(order)
      invariant forall k :: k in order <==> k in s.data && k !in rest
      invariant log == SecretLog(ns, s, order, minDays, codec)
      decreases rest
    {
      var k :| k in rest;
      var v := s.data[k];
      ghost var before := log;
      if IsCertKey(k) {
        var parsed := ParseTLSCert(v, codec);
        if parsed.Failure? {
          log := log + [Warning(ns, s.name, k, ErrorMessage(parsed.error), v)];
        } else {
          var expired := Hours(parsed.value.notAfter - parsed.value.notBefore);
          var minAge := 24.0 * minDays;
          if expired < minAge {
            log := log + [ShortLivedCert(ns, s.name, k, expired)];
          }
        }
      }
      assert log == before + EntryLog(ns, s.name, k, v, minDays, codec);
      assert (order + [k])[..|order|] == order;
      order := order + [k];
      rest := rest - {k};
    }
  }

  /** Evaluate every secret of one namespace, in listing order. `orders` is
      not an output of the program: `orders[j]` records the order in which the
      keys of the j-th secret were visited, so that the log can be specified. */
  method AuditNamespace(ns: string, secrets: seq<Secret>, minDays: real, codec: Codec)
    returns (log: seq<Report>, orders: seq<seq<string>>)
    ensures EnumeratesAll(orders, secrets)
    ensures log == NamespaceLog(ns, secrets, orders, minDays, codec)
  {
    log, orders := [], [];
    for j := 0 to |secrets|
      invariant EnumeratesAll(orders, secrets[..j])
      invariant log == NamespaceLog(ns, secrets[..j], orders, minDays, codec)
    {
      var secretLog, order := AuditSecret(ns, secrets[j], minDays, codec);
      log := log + secretLog;
      orders := orders + [order];
      assert secrets[..j + 1][..j] == secrets[..j];
    }
    assert secrets[..|secrets|] == secrets;
  }

  /** The audit: list the namespaces, then for each one list its secrets and
      evaluate them. A listing error ends the run; the lines already logged
      stay logged. `visited` is not an output of the program: `visited[i]`
      records the key orders used in the i-th namespace, so its length is the
      number of namespaces evaluated. */
  method Run(namespaces: Result<seq<string>, ClusterError>,
             lister: string -> Result<seq<Secret>, ClusterError>,
             minDays: real, codec: Codec)
    returns (log: seq<Report>, status: RunStatus, visited: seq<seq<seq<string>>>)
    ensures namespaces.Failure? ==>
      log == [] && visited == [] && status == Aborted(namespaces.error)
    ensures namespaces.Success? ==>
      var names := namespaces.value;
      var n := FirstListingFailure(names, lister);
      && |visited| == n
      && Traversed(names, lister, visited)
      && log == RunLog(names, lister, visited, minDays, codec)
      && status == (if n == |names| then Completed else Aborted(lister(names[n]).error))
  {
    log, visited := [], [];
    if namespaces.Failure? {
      status := Aborted(namespaces.error);
      return;
    }
    var names := namespaces.value;
    for i := 0 to |names|
      invariant |visited| == i
      invariant forall j :: 0 <= j < i ==> lister(names[j]).Success?
      invariant Traversed(names, lister, visited)
      invariant log == RunLog(names, lister, visited, minDays, codec)
    {
      var listing := lister(names[i]);
      if listing.Failure? {
        FirstListingFailureAt(names, lister, i);
        status := Aborted(listing.error);
        return;
      }
      var nsLog, orders := AuditNamespace(names[i], listing.value, minDays, codec);
      RunLogExtend(names, lister, visited, orders, minDays, codec);
      log := log + nsLog;
      visited := visited + [orders];
    }
    FirstListingFailureAt(names, lister, |names|);
    status := Completed;
  }
}
