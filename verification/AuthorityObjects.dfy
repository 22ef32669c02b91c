/** The CA object of internal/ca/ca.go; its files are fields, its operations write them one at a time. */
module AuthorityObjects {
  import opened Basics
  import opened Text
  import opened Keys
  import opened Options
  import opened Certificates
  import opened Signing
  import opened SshCert
  import opened Policy
  import opened Authority
  import Audit
  import Krl
  import KrlObjects

  class CA {
    const env: Env
    const policy: Document
    var serial: u64
    const audit: Audit.Log
    var revoked: seq<Revocation>

    /** What Init leaves: counter 1, no revocations, one log entry. */
    constructor (env: Env, policy: Document, now: int)
      ensures fresh(audit) && this.env == env && this.policy == policy
      ensures Files() == InitialState(env, now)
    {
      this.env, this.policy := env, policy;
      serial, revoked := 1, [];
      audit := new Audit.Log([Audit.Sealed(env.digest, [], InitEntry(env), env.rfc3339(Krl.Unix(now)))]);
    }

    function Files(): State
      reads this, audit
    {
      State(serial, audit.entries, revoked)
    }

    method NextSerial(faults: IssueFaults) returns (n: Option<u64>)
      modifies this`serial
      ensures (Files(), n) == AfterNextSerial(old(Files()), faults)
    {
      if faults.serialReadFails || serial == 0 {
        return None;
      }
      if faults.serialWriteFails {
        return None;
      }
      n := Some(serial);
      serial := ToU64(serial + 1);
    }

    method Issue(req: Request, faults: IssueFaults) returns (r: IssueResult)
      modifies this`serial, audit
      ensures (Files(), r) == AfterIssue(env, old(Files()), policy, req, faults)
    {
      hide Decide, CriticalOptions, ExtensionOptions, KeyIDOf, ToU64;
      if |req.user| == 0 {
        return NoUser;
      }
      if req.key == None {
        return NoKey;
      }
      var decision := Authorize(env.policyLibrary, policy, req.user, req.principals, req.ttl);
      if decision.Denied? {
        return Refused(decision.reason);
      }
      var grant := decision.grant;
      var now := NowOf(req);
      if req.backdate < 0 {
        return NegativeBackdate;
      }
      var n := NextSerial(faults);
      if n == None {
        return SerialError;
      }
      var keyID := KeyIDOf(req, n.value);
      var cert := NewDraft(req, req.key.value, grant, n.value, keyID);
      var ok := cert.Sign(env.scheme, env.caPub, env.caPriv, faults.entropy);
      if !ok {
        return SignError;
      }
      ghost var st1 := Files();
      var e := Audit.Entry(0, [], Audit.Issue, req.user, n.value, keyID, env.fingerprint(req.key.value.blob),
                           grant.principals, env.rfc3339(Krl.ToI64(cert.validBefore)), [], [], []);
      SignedKeeps(env.scheme, Draft(req, req.key.value, grant, n.value), env.caPub, env.caPriv, faults.entropy);
      assert e == IssueEntry(env, req, cert.Value());
      var entry := audit.Append(env.digest, e, env.rfc3339(now), faults.append);
      if entry == None {
        return IssueNotLogged;
      }
      return Issued(cert.Value(), grant, entry.value);
    }

    /** The first issue entry with the serial, unless the log cannot be read. */
    method IssuedSerial(s: u64, readFails: bool) returns (read: bool, r: Option<Audit.Entry>)
      ensures read == !readFails
      ensures r == if read then IssueEntryOf(audit.entries, s) else None
    {
      if readFails {
        return false, None;
      }
      var entries := audit.entries;
      for i := 0 to |entries|
        invariant IssueEntryOf(entries, s) == IssueEntryOf(entries[i..], s)
      {
        assert entries[i..][0] == entries[i] && entries[i..][1..] == entries[i + 1..];
        if entries[i].action == Audit.Issue && entries[i].serial == s {
          return true, Some(entries[i]);
        }
      }
      return true, None;
    }

    method RevokeSerial(s: u64, reason: bytes, now: int, faults: RevokeFaults) returns (r: RevokeResult)
      modifies this`revoked, audit
      ensures (Files(), r) == AfterRevokeSerial(env, old(Files()), s, reason, now, faults)
    {
      hide IssueEntryOf;
      var logRead, issued := IssuedSerial(s, faults.logReadFails);
      if !logRead {
        return ReadError;
      }
      if issued == None {
        return NeverIssued;
      }
      if faults.listReadFails {
        return ReadError;
      }
      var revs := revoked;
      for i := 0 to |revs|
        invariant forall k :: 0 <= k < i ==> revs[k].serial != s
      {
        if revs[i].serial == s {
          return AlreadyRevoked;
        }
      }
      var time := env.rfc3339(Krl.Unix(now));
      var rev := Revocation(s, [], time, reason);
      if faults.listWriteFails {
        return WriteError;
      }
      revoked := revs + [rev];
      var entry := audit.Append(
        env.digest, RevokeEntry(issued.value.user, s, issued.value.keyID, reason), time, faults.append);
      if entry == None {
        return RevocationNotLogged;
      }
      return Revoked(rev);
    }

    method RevokeKeyID(keyID: bytes, reason: bytes, now: int, faults: RevokeFaults) returns (r: RevokeResult)
      modifies this`revoked, audit
      ensures (Files(), r) == AfterRevokeKeyID(env, old(Files()), keyID, reason, now, faults)
    {
      if |keyID| == 0 {
        return EmptyKeyID;
      }
      if faults.listReadFails {
        return ReadError;
      }
      var revs := revoked;
      for i := 0 to |revs|
        invariant forall k :: 0 <= k < i ==> !(revs[k].keyID == keyID && revs[k].serial == 0)
      {
        if revs[i].keyID == keyID && revs[i].serial == 0 {
          return AlreadyRevoked;
        }
      }
      var time := env.rfc3339(Krl.Unix(now));
      var rev := Revocation(0, keyID, time, reason);
      if faults.listWriteFails {
        return WriteError;
      }
      revoked := revs + [rev];
      var entry := audit.Append(env.digest, RevokeEntry([], 0, keyID, reason), time, faults.append);
      if entry == None {
        return RevocationNotLogged;
      }
      return Revoked(rev);
    }

    /** The first entry that covers the certificate, unless the list cannot be read. */
    method IsRevoked(cert: Certificate, readFails: bool) returns (read: bool, r: Option<Revocation>)
      ensures read == !readFails
      ensures r == if read then FirstCovering(revoked, cert.Value()) else None
    {
      if readFails {
        return false, None;
      }
      for i := 0 to |revoked|
        invariant FirstCovering(revoked, cert.Value()) == FirstCovering(revoked[i..], cert.Value())
      {
        var rev := revoked[i];
        assert revoked[i..][0] == rev && revoked[i..][1..] == revoked[i + 1..];
        if rev.serial != 0 && rev.serial == cert.serial {
          return true, Some(rev);
        }
        if rev.serial == 0 && rev.keyID != [] && rev.keyID == cert.keyID {
          return true, Some(rev);
        }
      }
      return true, None;
    }

    method ExportKRL(now: int, readFails: bool) returns (r: Option<bytes>)
      ensures r == if readFails then None else Some(Krl.Marshalled(KrlOf(env, revoked, now)))
    {
      hide Krl.Marshalled, RevokedSerials, RevokedKeyIDs;
      if readFails {
        return None;
      }
      var k := new KrlObjects.KRL();
      k.version, k.generatedAt := ToU64(|revoked|), now;
      k.comment, k.caKey := Ascii("certclerk revocation list"), env.caPub.blob;
      CollectRevoked(revoked, k);
      var blob := k.Marshal();
      return Some(blob);
    }

    method Verify(cert: Certificate, at: int, readFails: bool) returns (v: Verdict)
      ensures v == if !readFails then VerdictOf(env, revoked, cert.Value(), at)
                   else if VerdictOf(env, [], cert.Value(), at) == Accepted then CheckFailed
                   else VerdictOf(env, [], cert.Value(), at)
    {
      hide Genuine, InWindow;
      if cert.certType != USER_CERT {
        return NotUserCertificate;
      }
      var genuine := cert.Verify(env.scheme, env.caPub);
      if !genuine {
        return NotGenuine;
      }
      var inWindow := cert.ValidAt(at);
      if !inWindow {
        return OutsideWindow;
      }
      var read, rev := IsRevoked(cert, readFails);
      if !read {
        return CheckFailed;
      }
      if rev.Some? {
        return IsRevokedBy(rev.value);
      }
      return Accepted;
    }
  }

  method NewDraft(req: Request, key: PublicKey, grant: Grant, serial: u64, keyID: bytes) returns (cert: Certificate)
    requires keyID == KeyIDOf(req, serial)
    ensures fresh(cert) && cert.Value() == Draft(req, key, grant, serial)
  {
    hide KeyIDOf, ToU64, CriticalOptions, ExtensionOptions;
    var now := NowOf(req);
    cert := new Certificate(key);
    cert.serial := serial;
    cert.certType := USER_CERT;
    cert.keyID := keyID;
    cert.principals := grant.principals;
    cert.validAfter := ToU64(Krl.Unix(now * Krl.SECOND - req.backdate));
    cert.validBefore := ToU64(Krl.Unix(now * Krl.SECOND + grant.ttl));
    cert.extensions := ExtensionList(grant.extensions);
    cert.critical := CriticalList(grant);
  }

  method CriticalList(grant: Grant) returns (critical: seq<CertOption>)
    ensures critical == CriticalOptions(grant)
  {
    hide Join, Ascii;
    critical := [];
    if |grant.forceCommand| > 0 {
      critical := critical + [CertOption(Ascii("force-command"), grant.forceCommand)];
    }
    if |grant.sourceAddress| > 0 {
      critical := critical + [CertOption(Ascii("source-address"), Join(grant.sourceAddress, Ascii(",")))];
    }
  }

  method ExtensionList(names: seq<bytes>) returns (out: seq<CertOption>)
    ensures out == ExtensionOptions(names)
  {
    out := [];
    for i := 0 to |names|
      invariant out == ExtensionOptions(names[..i])
    {
      out := out + [CertOption(names[i], [])];
    }
    assert names[..|names|] == names;
  }

  method CollectRevoked(revoked: seq<Revocation>, k: KrlObjects.KRL)
    requires k.serials == [] && k.keyIDs == []
    modifies k`serials, k`keyIDs
    ensures k.serials == RevokedSerials(revoked) && k.keyIDs == RevokedKeyIDs(revoked)
  {
    hide RevokedSerials, RevokedKeyIDs;
    RevokedNone();
    for i := 0 to |revoked|
      invariant k.serials == RevokedSerials(revoked[..i]) && k.keyIDs == RevokedKeyIDs(revoked[..i])
    {
      var rev := revoked[i];
      assert revoked[..i + 1] == revoked[..i] + [rev];
      RevokedSnoc(revoked[..i], rev);
      if rev.serial != 0 {
        k.serials := k.serials + [rev.serial];
      } else if rev.keyID != [] {
        k.keyIDs := k.keyIDs + [rev.keyID];
      }
    }
    assert revoked[..|revoked|] == revoked;
  }

  lemma RevokedNone()
    ensures RevokedSerials([]) == [] && RevokedKeyIDs([]) == []
  {
  }
}
