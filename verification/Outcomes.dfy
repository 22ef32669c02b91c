/** What each operation of the authority does, in terms of what it was asked and of the files before it. */
module Outcomes {
  import opened Basics
  import opened Sorting
  import opened Keys
  import opened Options
  import opened Certificates
  import opened Signing
  import opened Policy
  import opened PolicyLaws
  import opened Authority
  import opened Runs
  import opened EndToEnd
  import Audit
  import Text

  // ---------------------------------------------------------------------
  // Issuing
  // ---------------------------------------------------------------------

  /** The moment of issue in nanoseconds: the one given, or the clock's when that is Go's zero time, in year 1. */
  function Moment(req: Request): int {
    if req.now == -62_135_596_800 * 1_000_000_000 then req.clock else req.now
  }

  lemma MomentIs(req: Request)
    ensures NowOf(req) == Moment(req) / 1_000_000_000
    ensures StartOf(req) == Moment(req) / 1_000_000_000 - (req.backdate + 999_999_999) / 1_000_000_000
  {
  }

  /** The validity of a returned certificate, as the two uint64 in it: from the moment asked for, for the time granted. */
  lemma IssuedWhen(env: Env, st: State, policy: Document, req: Request, faults: IssueFaults)
    requires AfterIssue(env, st, policy, req, faults).1.Issued?
    ensures req.user in policy.users
    ensures var c := AfterIssue(env, st, policy, req, faults).1.cert;
            var cap := CapOf(env.policyLibrary, policy.users[req.user], policy.defaults);
            var ttl := if req.ttl == 0 then cap else req.ttl;
            && c.validAfter == (Moment(req) / 1_000_000_000 - (req.backdate + 999_999_999) / 1_000_000_000)
                               % 0x1_0000_0000_0000_0000
            && c.validBefore == (Moment(req) / 1_000_000_000 + ttl / 1_000_000_000) % 0x1_0000_0000_0000_0000
            && ttl <= cap
  {
    hide AfterIssue, Decide, Draft, Signed, MaxTTL, CapOf, NowOf, Moment, CeilSeconds;
    IssuedForm(env, st, policy, req, faults);
    GrantFollowsRules(env.policyLibrary, policy, req.user, req.principals, req.ttl);
    var g := AfterIssue(env, st, policy, req, faults).1.grant;
    SignedKeeps(env.scheme, Draft(req, req.key.value, g, st.counter), env.caPub, env.caPriv, faults.entropy);
    DraftWindow(req, req.key.value, g, st.counter);
    MomentIs(req);
  }

  /** Who a returned certificate is for: everything in it comes from the request, the counter, the CA and the rules. */
  lemma IssuedFor(env: Env, st: State, policy: Document, req: Request, faults: IssueFaults)
    requires AfterIssue(env, st, policy, req, faults).1.Issued?
    ensures req.user in policy.users && req.key.Some? && faults.entropy.Some?
    ensures var c, own, base := AfterIssue(env, st, policy, req, faults).1.cert, policy.users[req.user], policy.defaults;
            && c.key == req.key.value && c.serial == st.counter && c.certType == 1 && c.nonce == faults.entropy.value
            && c.reserved == [] && c.signatureKey == env.caPub.blob
            && (if req.keyID != [] then c.keyID == req.keyID
                else exists digits ::
                  && c.keyID == req.user + Ascii("@certclerk-") + digits
                  && DecimalValue(digits) == Some(st.counter) && digits != [] && digits[0] != 0x30)
            && (if req.principals != [] then c.principals == req.principals
                else Ascending(c.principals) && Distinct(c.principals)
                     && forall pr :: pr in c.principals <==> pr in own.principals && pr != [0x2a])
            && (forall pr :: pr in c.principals ==> MayHold(own, pr))
            && (var exts := own.extensions.GetOr(base.extensions.GetOr([]));
                |c.extensions| == |exts| && forall i :: 0 <= i < |exts| ==> c.extensions[i] == CertOption(exts[i], []))
            && (var command := if own.forceCommand != [] then own.forceCommand else base.forceCommand;
                forall v :: CertOption(Ascii("force-command"), v) in c.critical <==> v != [] && v == command)
            && (var addrs := if own.sourceAddress != [] then own.sourceAddress else base.sourceAddress;
                forall v :: CertOption(Ascii("source-address"), v) in c.critical <==>
                  addrs != [] && v == CommaSeparated(addrs))
            && (forall o :: o in c.critical ==> o.name == Ascii("force-command") || o.name == Ascii("source-address"))
            && Distinct(c.critical)
  {
    hide AfterIssue, Decide, Draft, Signed, MaxTTL, CapOf, KeyIDOf, CommaSeparated, Decimal, DecimalValue, MayHold;
    IssuedForm(env, st, policy, req, faults);
    GrantFollowsRules(env.policyLibrary, policy, req.user, req.principals, req.ttl);
    var g := AfterIssue(env, st, policy, req, faults).1.grant;
    var draft := Draft(req, req.key.value, g, st.counter);
    SignedKeeps(env.scheme, draft, env.caPub, env.caPriv, faults.entropy);
    DraftFor(req, req.key.value, g, st.counter);
    NonceIsEntropy(env.scheme, draft, env.caPub, env.caPriv, faults.entropy);
    KeyIDFor(req, st.counter);
  }

  lemma DraftFor(req: Request, key: PublicKey, g: Grant, serial: u64)
    ensures var c := Draft(req, key, g, serial);
            && c.key == key && c.serial == serial && c.certType == 1 && c.nonce == [] && c.reserved == []
            && c.keyID == KeyIDOf(req, serial) && c.principals == g.principals
            && |c.extensions| == |g.extensions|
            && (forall i :: 0 <= i < |g.extensions| ==> c.extensions[i] == CertOption(g.extensions[i], []))
            && (forall v :: CertOption(Ascii("force-command"), v) in c.critical <==> v != [] && v == g.forceCommand)
            && (forall v :: CertOption(Ascii("source-address"), v) in c.critical <==>
                  g.sourceAddress != [] && v == CommaSeparated(g.sourceAddress))
            && (forall o :: o in c.critical ==> o.name == Ascii("force-command") || o.name == Ascii("source-address"))
            && Distinct(c.critical)
  {
    hide KeyIDOf, ToU64, Text.Join, CommaSeparated;
    CriticalOptionsAre(g);
    assert |Ascii("force-command")| == 13 && |Ascii("source-address")| == 14;
    CommaSeparatedIsJoin(g.sourceAddress);
  }

  function CommaSeparated(items: seq<bytes>): bytes {
    if items == [] then [] else if |items| == 1 then items[0] else items[0] + [0x2c] + CommaSeparated(items[1..])
  }

  lemma {:induction false} CommaSeparatedIsJoin(items: seq<bytes>)
    ensures CommaSeparated(items) == Text.Join(items, Ascii(","))
  {
    assert Ascii(",") == [0x2c];
    if |items| > 1 {
      CommaSeparatedIsJoin(items[1..]);
    }
  }

  /** The nonce is the randomness that was read, unless the certificate already had one. */
  lemma NonceIsEntropy(scheme: Scheme, c: Cert, caPub: PublicKey, priv: bytes, entropy: Option<Nonce>)
    ensures Signed(scheme, c, caPub, priv, entropy).Some? <==>
            caPub.algo == Ascii("ssh-ed25519") && (c.nonce != [] || entropy.Some?)
    ensures Signed(scheme, c, caPub, priv, entropy).Some? ==>
              var s := Signed(scheme, c, caPub, priv, entropy).value;
              s.nonce == if c.nonce != [] then c.nonce else entropy.value
  {
    hide Tbs;
  }

  lemma KeyIDFor(req: Request, serial: u64)
    requires serial != 0
    ensures if req.keyID != [] then KeyIDOf(req, serial) == req.keyID
            else exists digits ::
              && KeyIDOf(req, serial) == req.user + Ascii("@certclerk-") + digits
              && DecimalValue(digits) == Some(serial) && digits != [] && digits[0] != 0x30
  {
    hide Decimal, DecimalValue;
    DecimalDigits(serial);
    NoLeadingZero(serial);
    assert KeyIDOf(req, serial) ==
      if req.keyID == [] then req.user + Ascii("@certclerk-") + Decimal(serial) else req.keyID;
  }

  lemma {:induction false} NoLeadingZero(n: nat)
    requires n > 0
    ensures Decimal(n) != [] && Decimal(n)[0] != 0x30
  {
    if n >= 10 {
      NoLeadingZero(n / 10);
    }
  }

  /** The outcome of an issue is that of its first step that fails; the serial is used up from the fifth step on. */
  lemma IssueOutcome(env: Env, st: State, policy: Document, req: Request, faults: IssueFaults)
    ensures var (st', r) := AfterIssue(env, st, policy, req, faults);
            var granted := Decide(env.policyLibrary, policy, req.user, req.principals, req.ttl).Granted?;
            && (if req.user == [] then r.NoUser? && st' == st
                else if req.key.None? then r.NoKey? && st' == st
                else if !granted then r.Refused? && st' == st
                else if req.backdate < 0 then r.NegativeBackdate? && st' == st
                else if faults.serialReadFails || st.counter == 0 || faults.serialWriteFails then r.SerialError? && st' == st
                else
                  && st'.counter == (if st.counter == 0xFFFF_FFFF_FFFF_FFFF then 0 else st.counter + 1)
                  && st'.revoked == st.revoked
                  && (if env.caPub.algo != Ascii("ssh-ed25519") || faults.entropy.None? then r.SignError? && st'.log == st.log
                      else if faults.append.NoFault? then r.Issued? && |st'.log| == |st.log| + 1
                      else r.IssueNotLogged? && |st'.log| == |st.log| + if faults.append.CloseFails? then 1 else 0))
  {
    hide Decide, Draft, Signed, Audit.Sealed, IssueEntry;
    match Decide(env.policyLibrary, policy, req.user, req.principals, req.ttl)
    case Denied(_) =>
    case Granted(g) =>
      if req.key.Some? && st.counter != 0 {
        DraftFor(req, req.key.value, g, st.counter);
        NonceIsEntropy(env.scheme, Draft(req, req.key.value, g, st.counter), env.caPub, env.caPriv, faults.entropy);
      }
  }

  /** What the log says of an issue, also when the append fails after writing. */
  lemma IssueEntryTells(env: Env, st: State, policy: Document, req: Request, faults: IssueFaults)
    requires |AfterIssue(env, st, policy, req, faults).0.log| > |st.log|
    ensures req.key.Some?
    ensures var (st', r) := AfterIssue(env, st, policy, req, faults);
            var e := st'.log[|st.log|];
            && st'.log == st.log + [e]
            && e.action == Audit.Issue && e.user == req.user && e.serial == st.counter && e.keyID == KeyIDOf(req, st.counter)
            && e.fingerprint == env.fingerprint(req.key.value.blob) && e.reason == []
            && (r.Issued? ==>
                  && r.entry == e && e.principals == r.cert.principals && e.keyID == r.cert.keyID
                  && e.validBefore == env.rfc3339(
                       if r.cert.validBefore < 0x8000_0000_0000_0000 then r.cert.validBefore
                       else r.cert.validBefore - 0x1_0000_0000_0000_0000))
            && e.time == env.rfc3339(Moment(req) / 1_000_000_000)
  {
    hide Decide, Tbs, Audit.ComputeHash, KeyIDOf, CriticalOptions, ExtensionOptions, ToU64, Moment, NowOf;
    MomentIs(req);
    assert st.log != AfterIssue(env, st, policy, req, faults).0.log;
  }

  // ---------------------------------------------------------------------
  // Revoking
  // ---------------------------------------------------------------------

  predicate SerialIssued(log: seq<Audit.Entry>, serial: u64) {
    exists i :: 0 <= i < |log| && log[i].action == Audit.Issue && log[i].serial == serial
  }

  /** The reasons for refusing, in the order in which they are looked for; a refusal changes nothing. */
  lemma RevokeSerialOutcome(env: Env, st: State, serial: u64, reason: bytes, now: int, faults: RevokeFaults)
    ensures var (st', r) := AfterRevokeSerial(env, st, serial, reason, now, faults);
            && (if faults.logReadFails then r.ReadError?
                else if !SerialIssued(st.log, serial) then r.NeverIssued?
                else if faults.listReadFails then r.ReadError?
                else if exists i :: 0 <= i < |st.revoked| && st.revoked[i].serial == serial then r.AlreadyRevoked?
                else if faults.listWriteFails then r.WriteError?
                else if faults.append.NoFault? then r.Revoked?
                else r.RevocationNotLogged?)
            && (if r.Revoked? || r.RevocationNotLogged? then |st'.revoked| == |st.revoked| + 1 else st' == st)
            && st'.counter == st.counter
  {
    hide Audit.LogAfter;
    if !faults.logReadFails && IssueEntryOf(st.log, serial).Some? {
      assert SerialIssued(st.log, serial);
    }
  }

  lemma RevokeKeyIDOutcome(env: Env, st: State, keyID: bytes, reason: bytes, now: int, faults: RevokeFaults)
    ensures var (st', r) := AfterRevokeKeyID(env, st, keyID, reason, now, faults);
            && (if keyID == [] then r.EmptyKeyID?
                else if faults.listReadFails then r.ReadError?
                else if exists i :: 0 <= i < |st.revoked| && st.revoked[i].serial == 0 && st.revoked[i].keyID == keyID
                then r.AlreadyRevoked?
                else if faults.listWriteFails then r.WriteError?
                else if faults.append.NoFault? then r.Revoked?
                else r.RevocationNotLogged?)
            && (if r.Revoked? || r.RevocationNotLogged? then |st'.revoked| == |st.revoked| + 1 else st' == st)
            && st'.counter == st.counter
  {
    hide Audit.LogAfter;
  }

  /** The certificate is listed by its serial, or by its key ID in an entry without a serial. */
  ghost predicate CoveredBy(revoked: seq<Revocation>, c: Cert) {
    exists i :: 0 <= i < |revoked| && Hits(revoked[i], c)
  }

  predicate Hits(r: Revocation, c: Cert) {
    (r.serial != 0 && r.serial == c.serial) || (r.serial == 0 && r.keyID != [] && r.keyID == c.keyID)
  }

  lemma CoveredExactly(revoked: seq<Revocation>, c: Cert)
    ensures FirstCovering(revoked, c).Some? <==> CoveredBy(revoked, c)
  {
    if FirstCovering(revoked, c) == None {
      assert forall i :: 0 <= i < |revoked| ==> Hits(revoked[i], c) ==> Covers(revoked[i], c);
    } else {
      var i :| 0 <= i < |revoked| && revoked[i] == FirstCovering(revoked, c).value;
      assert Hits(revoked[i], c);
    }
  }

  /** IsRevoked answers with the first entry that lists the certificate. */
  lemma {:induction false} FirstEntryAnswers(revoked: seq<Revocation>, c: Cert, i: nat)
    requires i < |revoked| && Hits(revoked[i], c) && forall k :: 0 <= k < i ==> !Hits(revoked[k], c)
    ensures FirstCovering(revoked, c) == Some(revoked[i])
  {
    if i > 0 {
      assert !Hits(revoked[0], c);
      FirstEntryAnswers(revoked[1..], c, i - 1);
    }
  }

  lemma CoveredSnoc(revoked: seq<Revocation>, r: Revocation, c: Cert)
    ensures CoveredBy(revoked + [r], c) <==> CoveredBy(revoked, c) || Hits(r, c)
  {
    var longer := revoked + [r];
    if CoveredBy(revoked, c) {
      var i :| 0 <= i < |revoked| && Hits(revoked[i], c);
      assert Hits(longer[i], c);
    }
    if Hits(r, c) {
      assert Hits(longer[|revoked|], c);
    }
  }

  /** It took effect: the list was written, whether the log was or not. */
  predicate TookEffect(r: RevokeResult) {
    r.Revoked? || r.RevocationNotLogged?
  }

  /**
   * Revoking a serial rejects the certificates of that serial and no others. The new list entry has the
   * serial, the reason and the time; so has the log entry, with user and key ID of the issue.
   */
  lemma SerialRevoked(env: Env, st: State, serial: u64, reason: bytes, now: int, faults: RevokeFaults)
    requires serial != 0 && TookEffect(AfterRevokeSerial(env, st, serial, reason, now, faults).1)
    ensures var (st', r) := AfterRevokeSerial(env, st, serial, reason, now, faults);
            var time := env.rfc3339(now / 1_000_000_000);
            && (forall c :: FirstCovering(st'.revoked, c).Some? <==> FirstCovering(st.revoked, c).Some? || c.serial == serial)
            && st'.revoked == st.revoked + [Revocation(serial, [], time, reason)]
            && (r.Revoked? ==> r.revocation == Revocation(serial, [], time, reason))
            && (faults.append.NoFault? || faults.append.CloseFails? ==> |st'.log| == |st.log| + 1)
            && (|st'.log| > |st.log| ==>
                  var e := st'.log[|st.log|];
                  && st'.log == st.log + [e]
                  && e.action == Audit.Revoke && e.serial == serial && e.reason == reason && e.time == time
                  && exists i :: 0 <= i < |st.log| && st.log[i].action == Audit.Issue && st.log[i].serial == serial
                                 && e.user == st.log[i].user && e.keyID == st.log[i].keyID)
  {
    hide FirstCovering, Audit.ComputeHash;
    var issued := IssueEntryOf(st.log, serial).value;
    var i :| 0 <= i < |st.log| && st.log[i] == issued;
    var rev := Revocation(serial, [], env.rfc3339(now / 1_000_000_000), reason);
    forall c ensures FirstCovering(st.revoked + [rev], c).Some? <==> FirstCovering(st.revoked, c).Some? || c.serial == serial {
      CoveredExactly(st.revoked, c);
      CoveredExactly(st.revoked + [rev], c);
      CoveredSnoc(st.revoked, rev, c);
    }
  }

  /** Revoking a key ID rejects the certificates that carry it and no others. */
  lemma KeyIDRevoked(env: Env, st: State, keyID: bytes, reason: bytes, now: int, faults: RevokeFaults)
    requires TookEffect(AfterRevokeKeyID(env, st, keyID, reason, now, faults).1)
    ensures var (st', r) := AfterRevokeKeyID(env, st, keyID, reason, now, faults);
            var time := env.rfc3339(now / 1_000_000_000);
            && (forall c :: FirstCovering(st'.revoked, c).Some? <==> FirstCovering(st.revoked, c).Some? || c.keyID == keyID)
            && st'.revoked == st.revoked + [Revocation(0, keyID, time, reason)]
            && (r.Revoked? ==> r.revocation == Revocation(0, keyID, time, reason))
            && (faults.append.NoFault? || faults.append.CloseFails? ==> |st'.log| == |st.log| + 1)
            && (|st'.log| > |st.log| ==>
                  var e := st'.log[|st.log|];
                  && st'.log == st.log + [e]
                  && e.action == Audit.Revoke && e.serial == 0 && e.keyID == keyID && e.user == []
                  && e.reason == reason && e.time == time)
  {
    hide FirstCovering, Audit.ComputeHash;
    var rev := Revocation(0, keyID, env.rfc3339(now / 1_000_000_000), reason);
    forall c ensures FirstCovering(st.revoked + [rev], c).Some? <==> FirstCovering(st.revoked, c).Some? || c.keyID == keyID {
      CoveredExactly(st.revoked, c);
      CoveredExactly(st.revoked + [rev], c);
      CoveredSnoc(st.revoked, rev, c);
    }
  }

  // ---------------------------------------------------------------------
  // From Init on
  // ---------------------------------------------------------------------

  /** The files of a new authority: the next serial is 1, nothing is revoked, one log entry tells of the CA key. */
  lemma InitialFiles(env: Env, now: int)
    ensures var st := InitialState(env, now);
            && st.counter == 1 && st.revoked == [] && |st.log| == 1
            && var e := st.log[0];
               && e.action == Audit.Init && e.time == env.rfc3339(now / 1_000_000_000)
               && e.fingerprint == env.fingerprint(env.caPub.blob) && e.serial == 0 && e.user == [] && e.keyID == []
               && e.principals == [] && Audit.Linked(env.digest, st.log, 0)
  {
    hide Audit.Linked, Audit.Sealed;
    Audit.SealedMeans(env.digest, [], InitEntry(env), env.rfc3339(now / 1_000_000_000));
    assert [] + InitialState(env, now).log == InitialState(env, now).log;
  }

  /** The event is an issue that takes a serial and returns no certificate. */
  predicate Wastes(env: Env, w: World, ev: Event) {
    ev.Issuing? &&
    var r := AfterIssue(env, w.st, ev.policy, ev.req, ev.faults).1;
    r.SignError? || r.IssueNotLogged?
  }

  predicate NothingWasted(env: Env, w: World, evs: seq<Event>)
    decreases |evs|
  {
    evs == [] || (!Wastes(env, w, evs[0]) && NothingWasted(env, Step(env, w, evs[0]), evs[1..]))
  }

  /** The certificates of an authority are numbered 1, 2, 3 and so on, as long as no serial is wasted. */
  lemma SerialsCount(env: Env, now: int, evs: seq<Event>)
    requires NothingWasted(env, Init(env, now), evs) && |evs| < 0xFFFF_FFFF_FFFF_FFFE
    ensures var w := Run(env, Init(env, now), evs);
            && w.st.counter == |w.issued| + 1
            && forall i :: 0 <= i < |w.issued| ==> w.issued[i].serial == i + 1
  {
    hide Run, NothingWasted;
    InitialFiles(env, now);
    RunCounts(env, Init(env, now), evs);
  }

  ghost predicate Counted(w: World) {
    w.st.counter == |w.issued| + 1 && forall i :: 0 <= i < |w.issued| ==> w.issued[i].serial == i + 1
  }

  lemma {:induction false} RunCounts(env: Env, w: World, evs: seq<Event>)
    requires NothingWasted(env, w, evs) && Counted(w) && |w.issued| + |evs| < 0xFFFF_FFFF_FFFF_FFFE
    ensures Counted(Run(env, w, evs))
    decreases |evs|
  {
    hide Step, Counted, Wastes;
    if evs != [] {
      StepCountsOne(env, w, evs[0]);
      RunCounts(env, Step(env, w, evs[0]), evs[1..]);
    }
  }

  lemma StepCountsOne(env: Env, w: World, ev: Event)
    requires !Wastes(env, w, ev) && Counted(w) && |w.issued| < 0xFFFF_FFFF_FFFF_FFFE
    ensures Counted(Step(env, w, ev)) && |Step(env, w, ev).issued| <= |w.issued| + 1
  {
    hide AfterIssue, AfterRevokeSerial, AfterRevokeKeyID;
    match ev
    case Issuing(policy, req, faults) =>
      IssueOutcome(env, w.st, policy, req, faults);
      if AfterIssue(env, w.st, policy, req, faults).1.Issued? {
        IssuedFor(env, w.st, policy, req, faults);
      }
    case RevokingSerial(serial, reason, now, faults) => RevokeSerialOutcome(env, w.st, serial, reason, now, faults);
    case RevokingKeyID(keyID, reason, now, faults) => RevokeKeyIDOutcome(env, w.st, keyID, reason, now, faults);
  }
}
