/** What a certificate must show to be accepted, and that over a run only what the authority signed is accepted. */
module Forgery {
  import opened Basics
  import opened Wire
  import opened Keys
  import opened Options
  import opened Certificates
  import opened CertificateLaws
  import opened Signing
  import opened Policy
  import opened PolicyLaws
  import opened Authority
  import opened Runs
  import opened EndToEnd
  import opened Formats
  import opened Outcomes
  import Audit

  // ---------------------------------------------------------------------
  // The checks
  // ---------------------------------------------------------------------

  /** An ed25519 public key or signature on the wire: the algorithm's name and the raw bytes. */
  function Ed25519Blob(raw: bytes): bytes {
    LengthAnd(Ascii("ssh-ed25519")) + LengthAnd(raw)
  }

  /** The signature in the certificate is an ed25519 signature by pk over what the certificate says. */
  ghost predicate SignedWith(scheme: Scheme, c: Cert, pk: bytes) {
    exists sig ::
      |sig| < 0x1_0000_0000 && c.signature == Ed25519Blob(sig) && scheme.verify(pk, Tbs(c), sig)
  }

  /** The CA has an ordinary ed25519 key. */
  predicate CAKey(k: PublicKey, pk: bytes) {
    k.algo == Ascii("ssh-ed25519") && |pk| == 32 && k.blob == Ed25519Blob(pk)
  }

  lemma SignatureBlobIs(sig: bytes)
    ensures SignatureBlob(sig) == Ed25519Blob(sig)
    ensures Ed25519Key(sig, []).blob == Ed25519Blob(sig)
  {
    FieldBytes(Str(ED25519));
    FieldBytes(Str(sig));
  }

  lemma RawSignatureExactly(blob: bytes, sig: bytes)
    ensures RawSignature(blob) == Some(sig) <==> |sig| < 0x1_0000_0000 && blob == Ed25519Blob(sig)
  {
    hide EncField, Dec;
    SignatureBlobIs(sig);
    if |sig| < 0x1_0000_0000 && blob == Ed25519Blob(sig) {
      RawSignatureOfBlob(sig);
    }
    if RawSignature(blob) == Some(sig) {
      var (fs, rest) := Dec([KStr, KStr], blob).value;
      DecExact([KStr, KStr], blob, fs, rest);
      assert fs[0].Kind() == [KStr, KStr][0] && fs[1].Kind() == [KStr, KStr][1];
      assert fs[0] == Str(ED25519) && fs[1] == Str(sig);
      assert fs[1..][1..] == [] && Enc(fs[1..]) == EncField(fs[1]) + Enc(fs[1..][1..]) == EncField(fs[1]);
      assert blob == SignatureBlob(sig) + [] == SignatureBlob(sig);
    }
  }

  lemma CAKeyReads(k: PublicKey, pk: bytes)
    requires CAKey(k, pk)
    ensures Ed25519Of(k) == Some(pk)
    ensures GetField(KStr, k.blob).Some? && GetField(KStr, k.blob).value.0 == Str(k.algo) && Known(k.algo)
  {
    hide GetField, EncField;
    SignatureBlobIs(pk);
    Ed25519KeyRoundTrip(pk, []);
    FieldCounts();
    assert |ED25519| == 11;
    GetFieldExact(KStr, k.blob, Str(ED25519), EncField(Str(pk)));
  }

  /**
   * A certificate is accepted exactly when it is a user certificate, it names the CA's key as its signer,
   * it is signed with that key over what it says, the time is in its window and nothing in the list
   * covers it.
   */
  lemma AcceptedMeans(env: Env, pk: bytes, revoked: seq<Revocation>, c: Cert, at: int)
    requires CAKey(env.caPub, pk)
    ensures VerdictOf(env, revoked, c, at) == Accepted <==>
            && c.certType == 1
            && c.signatureKey == env.caPub.blob && SignedWith(env.scheme, c, pk)
            && c.validAfter <= at % 0x1_0000_0000_0000_0000
            && (c.validBefore == 0xFFFF_FFFF_FFFF_FFFF || at % 0x1_0000_0000_0000_0000 < c.validBefore)
            && !CoveredBy(revoked, c)
  {
    hide Tbs, GetField, Ed25519Of, RawSignature, FirstCovering, CoveredBy, Ed25519Blob, PubKeyFieldCount;
    CAKeyReads(env.caPub, pk);
    CoveredExactly(revoked, c);
    forall sig ensures RawSignature(c.signature) == Some(sig) <==> |sig| < 0x1_0000_0000 && c.signature == Ed25519Blob(sig) {
      RawSignatureExactly(c.signature, sig);
    }
  }

  /** Whatever the CA's key is: without its blob as signer and an ed25519 signature blob nothing is ever accepted. */
  lemma UnsignedNeverAccepted(env: Env, revoked: seq<Revocation>, c: Cert, at: int)
    requires c.signatureKey != env.caPub.blob || forall sig :: c.signature != Ed25519Blob(sig)
    ensures VerdictOf(env, revoked, c, at) != Accepted
  {
    hide Tbs, GetField, Ed25519Of, RawSignature, FirstCovering, Ed25519Blob;
    if RawSignature(c.signature).Some? {
      RawSignatureExactly(c.signature, RawSignature(c.signature).value);
    }
  }

  /** The reason given is the first that applies. */
  lemma VerdictExplained(env: Env, pk: bytes, revoked: seq<Revocation>, c: Cert, at: int)
    requires CAKey(env.caPub, pk)
    ensures var signed := c.signatureKey == env.caPub.blob && SignedWith(env.scheme, c, pk);
            var inTime := c.validAfter <= at % 0x1_0000_0000_0000_0000
                          && (c.validBefore == 0xFFFF_FFFF_FFFF_FFFF || at % 0x1_0000_0000_0000_0000 < c.validBefore);
            var v := VerdictOf(env, revoked, c, at);
            if c.certType != 1 then v.NotUserCertificate?
            else if !signed then v.NotGenuine?
            else if !inTime then v.OutsideWindow?
            else if CoveredBy(revoked, c) then v.IsRevokedBy? && v.r in revoked && Hits(v.r, c)
            else v.Accepted?
  {
    hide Tbs, GetField, Ed25519Of, RawSignature, FirstCovering, CoveredBy, Ed25519Blob, PubKeyFieldCount;
    CAKeyReads(env.caPub, pk);
    CoveredExactly(revoked, c);
    forall sig ensures RawSignature(c.signature) == Some(sig) <==> |sig| < 0x1_0000_0000 && c.signature == Ed25519Blob(sig) {
      RawSignatureExactly(c.signature, sig);
    }
  }

  /** With the signature of a signed certificate only that certificate is accepted, byte for byte once re-marshalled. */
  lemma SignatureNotTransferable(env: Env, c: Cert, entropy: Option<Nonce>, blob: bytes, revoked: seq<Revocation>, at: int)
    requires Correct(env.scheme) && KeyPair(env.scheme, env.caPub, env.caPriv)
    requires Signed(env.scheme, c, env.caPub, env.caPriv, entropy).Some? && Parsed(blob).Some?
    requires var s := Signed(env.scheme, c, env.caPub, env.caPriv, entropy).value;
             && Signable(s) && Parsed(blob).value.signature == s.signature
             && Binds(env.scheme, env.scheme.pub(env.caPriv), Tbs(s), RawSignature(s.signature).GetOr([]))
    requires VerdictOf(env, revoked, Parsed(blob).value, at) == Accepted
    ensures Marshalled(Parsed(blob).value) == Marshalled(Signed(env.scheme, c, env.caPub, env.caPriv, entropy).value)
    ensures Parsed(blob).value.certType == 1
  {
    hide Tbs, Parsed, Genuine, RawSignature, KeyPair, Signed, SignedTail, Marshalled, InWindow, FirstCovering, WellFormedKey;
    SignatureCoversBytes(env.scheme, c, env.caPub, env.caPriv, entropy, blob);
  }

  // ---------------------------------------------------------------------
  // Over a run
  // ---------------------------------------------------------------------

  /** One signing: what was asked, under which policy, what was granted and what was signed. */
  datatype SigningRecord = SigningRecord(policy: Document, req: Request, grant: Grant, cert: Cert)

  /** What an event signs, also when the certificate is not returned because the log could not be written. */
  function SignedNow(env: Env, st: State, ev: Event): seq<SigningRecord> {
    if !ev.Issuing? then []
    else
      var r := AfterIssue(env, st, ev.policy, ev.req, ev.faults).1;
      if !r.Issued? && !r.IssueNotLogged? then []
      else
        match Decide(env.policyLibrary, ev.policy, ev.req.user, ev.req.principals, ev.req.ttl)
        case Denied(_) => []
        case Granted(g) =>
          if ev.req.key.None? || st.counter == 0 then []
          else
            match Signed(env.scheme, Draft(ev.req, ev.req.key.value, g, st.counter), env.caPub, env.caPriv, ev.faults.entropy)
            case None => []
            case Some(c) => [SigningRecord(ev.policy, ev.req, g, c)]
  }

  function SignedIn(env: Env, w: World, evs: seq<Event>): seq<SigningRecord>
    decreases |evs|
  {
    if evs == [] then [] else SignedNow(env, w.st, evs[0]) + SignedIn(env, Step(env, w, evs[0]), evs[1..])
  }

  /** The record is of a request that the policy granted, and the certificate says what was granted. */
  ghost predicate Rightful(env: Env, x: SigningRecord) {
    && Decide(env.policyLibrary, x.policy, x.req.user, x.req.principals, x.req.ttl) == Granted(x.grant)
    && x.req.user in x.policy.users && x.req.key == Some(x.cert.key)
    && x.cert.certType == 1 && x.cert.principals == x.grant.principals
    && (forall pr :: pr in x.cert.principals ==> MayHold(x.policy.users[x.req.user], pr))
    && x.cert.validBefore == ToU64(Moment(x.req) / 1_000_000_000 + x.grant.ttl / 1_000_000_000)
    && x.grant.ttl <= CapOf(env.policyLibrary, x.policy.users[x.req.user], x.policy.defaults)
  }

  /** Nobody but the CA can make signatures: what verifies is what was signed. */
  ghost predicate Unforgeable(env: Env, pk: bytes, signed: seq<SigningRecord>) {
    forall m, sig :: env.scheme.verify(pk, m, sig) ==> exists i :: 0 <= i < |signed| && m == Tbs(signed[i].cert)
  }

  lemma {:induction false} SignedIsRightful(env: Env, w: World, evs: seq<Event>)
    ensures forall i :: 0 <= i < |SignedIn(env, w, evs)| ==> Rightful(env, SignedIn(env, w, evs)[i])
    decreases |evs|
  {
    hide Step, SignedNow, Rightful;
    if evs != [] {
      SignedNowIsRightful(env, w.st, evs[0]);
      SignedIsRightful(env, Step(env, w, evs[0]), evs[1..]);
    }
  }

  lemma SignedNowIsRightful(env: Env, st: State, ev: Event)
    ensures forall i :: 0 <= i < |SignedNow(env, st, ev)| ==> Rightful(env, SignedNow(env, st, ev)[i])
  {
    hide AfterIssue, Decide, Draft, Signed, MayHold, CapOf, NowOf, Moment;
    if SignedNow(env, st, ev) != [] {
      var x := SignedNow(env, st, ev)[0];
      GrantFollowsRules(env.policyLibrary, ev.policy, ev.req.user, ev.req.principals, ev.req.ttl);
      var draft := Draft(ev.req, ev.req.key.value, x.grant, st.counter);
      SignedKeeps(env.scheme, draft, env.caPub, env.caPriv, ev.faults.entropy);
      DraftFor(ev.req, ev.req.key.value, x.grant, st.counter);
      DraftWindow(ev.req, ev.req.key.value, x.grant, st.counter);
      MomentIs(ev.req);
    }
  }

  /**
   * No forgery: when only the CA can sign, a certificate that is accepted in any state of a run agrees in
   * every signed field with one that the CA signed in that run, for a request that the policy of the
   * moment granted: its principals are ones that the user's rule allows.
   */
  lemma NoForgery(env: Env, pk: bytes, w: World, evs: seq<Event>, revoked: seq<Revocation>, c: Cert, at: int)
    returns (x: SigningRecord)
    requires CAKey(env.caPub, pk) && Unforgeable(env, pk, SignedIn(env, w, evs))
    requires Signable(c) && forall x :: x in SignedIn(env, w, evs) ==> Signable(x.cert)
    requires VerdictOf(env, revoked, c, at) == Accepted
    ensures x in SignedIn(env, w, evs) && Rightful(env, x) && SameSigned(x.cert, c)
    ensures forall pr :: pr in c.principals ==> MayHold(x.policy.users[x.req.user], pr)
  {
    hide Signable, VerdictOf, SignedIn, Tbs, CoveredBy, SortOptions, Decide, MayHold, Ed25519Blob;
    AcceptedMeans(env, pk, revoked, c, at);
    var sig :| |sig| < 0x1_0000_0000 && c.signature == Ed25519Blob(sig) && env.scheme.verify(pk, Tbs(c), sig);
    var all := SignedIn(env, w, evs);
    var i :| 0 <= i < |all| && Tbs(c) == Tbs(all[i].cert);
    x := all[i];
    SignedIsRightful(env, w, evs);
    UniqueSigningImage(x.cert, c);
  }

  /** Every certificate that was returned is among those signed, so a run of its own accounts for all of them. */
  lemma {:induction false} ReturnedWasSigned(env: Env, w: World, evs: seq<Event>, c: Cert)
    requires c in Run(env, w, evs).issued && c !in w.issued
    ensures exists x :: x in SignedIn(env, w, evs) && x.cert == c
    decreases |evs|
  {
    hide Step, SignedNow;
    if evs != [] {
      var w' := Step(env, w, evs[0]);
      if c in w'.issued {
        StepReturns(env, w, evs[0], c);
        var x :| x in SignedNow(env, w.st, evs[0]) && x.cert == c;
        assert x in SignedIn(env, w, evs);
      } else {
        ReturnedWasSigned(env, w', evs[1..], c);
        var x :| x in SignedIn(env, w', evs[1..]) && x.cert == c;
        assert x in SignedIn(env, w, evs);
      }
    }
  }

  lemma StepReturns(env: Env, w: World, ev: Event, c: Cert)
    requires c in Step(env, w, ev).issued && c !in w.issued
    ensures exists x :: x in SignedNow(env, w.st, ev) && x.cert == c
  {
    hide AfterIssue, Decide, Draft, Signed, AfterRevokeSerial, AfterRevokeKeyID;
    IssuedForm(env, w.st, ev.policy, ev.req, ev.faults);
    var r := AfterIssue(env, w.st, ev.policy, ev.req, ev.faults).1;
    var x := SigningRecord(ev.policy, ev.req, r.grant, r.cert);
    assert x in SignedNow(env, w.st, ev);
  }
}
