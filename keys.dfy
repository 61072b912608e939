/** The key-name heuristic that decides which secret entries are treated as
    certificates: a key qualifies when it contains "cert" or "crt" anywhere,
    compared character by character (case-sensitive). */
module CertKeys {

  /** `sub` occurs in `s` starting at offset `i`. */
  predicate OccursAt(s: string, sub: string, i: int)
  {
    0 <= i && i + |sub| <= |s| && s[i..i + |sub|] == sub
  }

  /** Substring search in the manner of Go's strings.Contains: try the
      current position, then move one character to the right. */
  predicate ContainsSubstring(s: string, sub: string)
    decreases |s|
  {
    |sub| <= |s| && (s[..|sub|] == sub || (0 < |s| && ContainsSubstring(s[1..], sub)))
  }

  /** The search finds `sub` exactly when it occurs at some offset of `s`. */
  lemma {:induction false} ContainsSubstringIff(s: string, sub: string)
    ensures ContainsSubstring(s, sub) <==> exists i :: OccursAt(s, sub, i)
    decreases |s|
  {
    if ContainsSubstring(s, sub) {
      if s[..|sub|] == sub {
        assert OccursAt(s, sub, 0);
      } else {
        ContainsSubstringIff(s[1..], sub);
        var i :| OccursAt(s[1..], sub, i);
        assert s[1..][i..i + |sub|] == s[i + 1..i + 1 + |sub|];
        assert OccursAt(s, sub, i + 1);
      }
    }
    if exists i :: OccursAt(s, sub, i) {
      var i :| OccursAt(s, sub, i);
      if i == 0 {
        assert s[..|sub|] == s[0..|sub|];
      } else {
        assert s[1..][i - 1..i - 1 + |sub|] == s[i..i + |sub|];
        assert OccursAt(s[1..], sub, i - 1);
        ContainsSubstringIff(s[1..], sub);
      }
    }
  }

  /** The test on a data key: the key names a certificate candidate exactly
      when "cert" or "crt" occurs in it at some offset, as a contiguous run of
      the same characters. */
  predicate IsCertKey(key: string)
    ensures IsCertKey(key) <==>
      (exists i :: OccursAt(key, "cert", i)) || (exists i :: OccursAt(key, "crt", i))
  {
    ContainsSubstringIff(key, "cert");
    ContainsSubstringIff(key, "crt");
    ContainsSubstring(key, "cert") || ContainsSubstring(key, "crt")
  }

  /** Keys that match: the match is anywhere in the key, not a prefix rule. */
  lemma CandidateKeys()
    ensures IsCertKey("tls.crt") && IsCertKey("ca.crt") && IsCertKey("certificate")
    ensures IsCertKey("x-crt") && IsCertKey("client-cert.pem")
  {
    assert OccursAt("tls.crt", "crt", 4);
    assert OccursAt("ca.crt", "crt", 3);
    assert OccursAt("certificate", "cert", 0);
    assert OccursAt("x-crt", "crt", 2);
    assert OccursAt("client-cert.pem", "cert", 7);
  }

  /** A pattern whose first character never appears in `s` is not found. */
  lemma {:induction false} FirstCharAbsent(s: string, sub: string)
    requires 0 < |sub| && sub[0] !in s
    ensures !ContainsSubstring(s, sub)
    decreases |s|
  {
    if |sub| <= |s| {
      assert s[..|sub|][0] == s[0];
      FirstCharAbsent(s[1..], sub);
    }
  }

  /** Keys that do not match: the comparison is case-sensitive. */
  lemma NonCandidateKeys()
    ensures !IsCertKey("CRT") && !IsCertKey("Cert") && !IsCertKey("username")
    ensures !IsCertKey("tls.key") && !IsCertKey("")
  {
    FirstCharAbsent("CRT", "cert");
    FirstCharAbsent("CRT", "crt");
    FirstCharAbsent("Cert", "cert");
    FirstCharAbsent("Cert", "crt");
    FirstCharAbsent("username", "cert");
    FirstCharAbsent("username", "crt");
    FirstCharAbsent("tls.key", "cert");
    FirstCharAbsent("tls.key", "crt");
  }

  /** "secret" does not match: its letters c, r, e, t are not contiguous in
      the order of either pattern. */
  lemma SecretIsNotCandidate()
    ensures !IsCertKey("secret")
  {
    FirstCharAbsent("ret", "cert");
    FirstCharAbsent("ret", "crt");
    assert "cret"[1..] == "ret" && "cret"[..4][1] == 'r' && "cret"[..3][2] == 'e';
    assert !ContainsSubstring("cret", "cert") && !ContainsSubstring("cret", "crt");
    assert "ecret"[1..] == "cret" && "ecret"[..4][0] == 'e' && "ecret"[..3][0] == 'e';
    assert !ContainsSubstring("ecret", "cert") && !ContainsSubstring("ecret", "crt");
    assert "secret"[1..] == "ecret" && "secret"[..4][0] == 's' && "secret"[..3][0] == 's';
  }
}
