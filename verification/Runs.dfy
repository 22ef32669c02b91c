/** Whole runs of the authority, in which every write may fail and nothing is retried. */
module Runs {
  import opened Basics
  import opened Certificates
  import opened Signing
  import opened Policy
  import opened Authority
  import Audit
  import Krl

  /** The policy is read anew for every operation. */
  datatype Event =
    | Issuing(policy: Document, req: Request, faults: IssueFaults)
    | RevokingSerial(serial: u64, reason: bytes, now: int, revokeFaults: RevokeFaults)
    | RevokingKeyID(keyID: bytes, reason: bytes, now: int, revokeFaults: RevokeFaults)

  /** The files, and every certificate that was ever returned to a caller. */
  datatype World = World(st: State, issued: seq<Cert>)

  function Step(env: Env, w: World, ev: Event): World {
    match ev
    case Issuing(policy, req, faults) =>
      var (st, r) := AfterIssue(env, w.st, policy, req, faults);
      World(st, if r.Issued? then w.issued + [r.cert] else w.issued)
    case RevokingSerial(serial, reason, now, faults) =>
      World(AfterRevokeSerial(env, w.st, serial, reason, now, faults).0, w.issued)
    case RevokingKeyID(keyID, reason, now, faults) =>
      World(AfterRevokeKeyID(env, w.st, keyID, reason, now, faults).0, w.issued)
  }

  function Run(env: Env, w: World, evs: seq<Event>): World
    decreases |evs|
  {
    if evs == [] then w else Run(env, Step(env, w, evs[0]), evs[1..])
  }

  function Init(env: Env, now: int): World {
    World(InitialState(env, now), [])
  }

  // ---------------------------------------------------------------------
  // The invariant
  // ---------------------------------------------------------------------

  predicate IsIssue(e: Audit.Entry) {
    e.action == Audit.Issue
  }

  /** Issued serials are non-zero, ascending in log order and below the counter, unless that has wrapped to 0. */
  ghost predicate SerialsAscend(log: seq<Audit.Entry>, counter: u64) {
    && (forall i :: 0 <= i < |log| && IsIssue(log[i]) ==>
          log[i].serial != 0 && (counter == 0 || log[i].serial < counter))
    && (forall i, j :: 0 <= i < j < |log| && IsIssue(log[i]) && IsIssue(log[j]) ==> log[i].serial < log[j].serial)
  }

  predicate Records(e: Audit.Entry, c: Cert) {
    IsIssue(e) && e.serial == c.serial && e.keyID == c.keyID && e.principals == c.principals
  }

  ghost predicate CertLogged(log: seq<Audit.Entry>, c: Cert) {
    exists k :: 0 <= k < |log| && Records(log[k], c)
  }

  /** Every certificate returned is in the log; serials of returned certificates ascend. */
  ghost predicate CertsLogged(log: seq<Audit.Entry>, issued: seq<Cert>) {
    && (forall i :: 0 <= i < |issued| ==> CertLogged(log, issued[i]))
    && (forall i, j :: 0 <= i < j < |issued| ==> issued[i].serial < issued[j].serial)
  }

  ghost predicate SerialLogged(log: seq<Audit.Entry>, serial: u64) {
    exists k :: 0 <= k < |log| && IsIssue(log[k]) && log[k].serial == serial
  }

  /** Exactly one of serial and key ID is set, and a serial is one that was issued. */
  ghost predicate RevocationSound(log: seq<Audit.Entry>, r: Revocation) {
    if r.serial != 0 then r.keyID == [] && SerialLogged(log, r.serial) else r.keyID != []
  }

  ghost predicate ListSound(log: seq<Audit.Entry>, revoked: seq<Revocation>) {
    && (forall i :: 0 <= i < |revoked| ==> RevocationSound(log, revoked[i]))
    && (forall i, j :: 0 <= i < j < |revoked| ==>
          revoked[i].serial != revoked[j].serial || revoked[i].keyID != revoked[j].keyID)
  }

  /** The revocation that a log entry reports. */
  predicate Reports(e: Audit.Entry, r: Revocation) {
    && e.serial == r.serial && e.reason == r.reason && e.time == r.time
    && (e.serial == 0 ==> e.keyID == r.keyID && e.user == [])
  }

  /** A revoke entry has its revocation, and its issue entry, whose user and key ID it repeats, before it. */
  ghost predicate RevokeLogged(log: seq<Audit.Entry>, revoked: seq<Revocation>, k: nat)
    requires k < |log|
  {
    && (exists i :: 0 <= i < |revoked| && Reports(log[k], revoked[i]))
    && (log[k].serial != 0 ==>
          exists i :: 0 <= i < k && IsIssue(log[i]) && log[i].serial == log[k].serial
                      && log[i].user == log[k].user && log[i].keyID == log[k].keyID)
  }

  ghost predicate RevokesLogged(log: seq<Audit.Entry>, revoked: seq<Revocation>) {
    forall k :: 0 <= k < |log| && log[k].action == Audit.Revoke ==> RevokeLogged(log, revoked, k)
  }

  ghost predicate Inv(env: Env, w: World) {
    && Audit.Chained(env.digest, w.st.log)
    && SerialsAscend(w.st.log, w.st.counter)
    && CertsLogged(w.st.log, w.issued)
    && ListSound(w.st.log, w.st.revoked)
    && RevokesLogged(w.st.log, w.st.revoked)
  }

  // ---------------------------------------------------------------------
  // What one more log entry keeps
  // ---------------------------------------------------------------------

  lemma IssueEntryAscends(log: seq<Audit.Entry>, counter: u64, e: Audit.Entry)
    requires SerialsAscend(log, counter) && counter != 0
    ensures SerialsAscend(log, ToU64(counter + 1))
    ensures IsIssue(e) && e.serial == counter ==> SerialsAscend(log + [e], ToU64(counter + 1))
  {
    assert forall i :: 0 <= i < |log| ==> (log + [e])[i] == log[i];
  }

  lemma OtherEntryAscends(log: seq<Audit.Entry>, counter: u64, e: Audit.Entry)
    requires SerialsAscend(log, counter) && !IsIssue(e)
    ensures SerialsAscend(log + [e], counter)
  {
    assert forall i :: 0 <= i < |log| ==> (log + [e])[i] == log[i];
  }

  lemma LongerLogKeeps(log: seq<Audit.Entry>, e: Audit.Entry, issued: seq<Cert>, revoked: seq<Revocation>)
    ensures CertsLogged(log, issued) ==> CertsLogged(log + [e], issued)
    ensures ListSound(log, revoked) ==> ListSound(log + [e], revoked)
    ensures RevokesLogged(log, revoked) && e.action != Audit.Revoke ==> RevokesLogged(log + [e], revoked)
  {
    var longer := log + [e];
    assert forall k :: 0 <= k < |log| ==> longer[k] == log[k];
    if CertsLogged(log, issued) {
      forall i | 0 <= i < |issued| ensures CertLogged(longer, issued[i]) {
        assert CertLogged(log, issued[i]);
        var k :| 0 <= k < |log| && Records(log[k], issued[i]);
        assert Records(longer[k], issued[i]);
      }
    }
    if ListSound(log, revoked) {
      forall i | 0 <= i < |revoked| ensures RevocationSound(longer, revoked[i]) {
        SerialStaysLogged(log, e, revoked[i].serial);
        assert RevocationSound(log, revoked[i]);
      }
    }
    if RevokesLogged(log, revoked) && e.action != Audit.Revoke {
      forall k | 0 <= k < |longer| && longer[k].action == Audit.Revoke ensures RevokeLogged(longer, revoked, k) {
        RevokeStaysLogged(log, e, revoked, k);
      }
    }
  }

  lemma SerialStaysLogged(log: seq<Audit.Entry>, e: Audit.Entry, serial: u64)
    ensures SerialLogged(log, serial) ==> SerialLogged(log + [e], serial)
  {
    if SerialLogged(log, serial) {
      var k :| 0 <= k < |log| && IsIssue(log[k]) && log[k].serial == serial;
      assert (log + [e])[k] == log[k];
    }
  }

  lemma RevokeStaysLogged(log: seq<Audit.Entry>, e: Audit.Entry, revoked: seq<Revocation>, k: nat)
    requires k < |log| && RevokeLogged(log, revoked, k)
    ensures RevokeLogged(log + [e], revoked, k)
  {
    var longer := log + [e];
    assert longer[k] == log[k];
    if log[k].serial != 0 {
      var i :| 0 <= i < k && IsIssue(log[i]) && log[i].serial == log[k].serial
               && log[i].user == log[k].user && log[i].keyID == log[k].keyID;
      assert longer[i] == log[i];
    }
  }

  lemma MoreRevocationsKeep(log: seq<Audit.Entry>, revoked: seq<Revocation>, r: Revocation)
    requires RevokesLogged(log, revoked)
    ensures RevokesLogged(log, revoked + [r])
  {
    var longer := revoked + [r];
    forall k | 0 <= k < |log| && log[k].action == Audit.Revoke ensures RevokeLogged(log, longer, k) {
      assert RevokeLogged(log, revoked, k);
      var i :| 0 <= i < |revoked| && Reports(log[k], revoked[i]);
      assert longer[i] == revoked[i];
    }
  }

  // ---------------------------------------------------------------------
  // Every step keeps the invariant
  // ---------------------------------------------------------------------

  /** What an issue can do to the files, whichever of its steps fails. */
  lemma IssueShape(env: Env, st: State, policy: Document, req: Request, faults: IssueFaults)
    ensures var (st', r) := AfterIssue(env, st, policy, req, faults);
            && st'.revoked == st.revoked
            && (st' == st || (st.counter != 0 && st'.counter == ToU64(st.counter + 1)))
            && (st'.log == st.log ||
                (st.counter != 0 && st'.counter == ToU64(st.counter + 1) &&
                 |st'.log| == |st.log| + 1 && st'.log[..|st.log|] == st.log &&
                 IsIssue(st'.log[|st.log|]) && st'.log[|st.log|].serial == st.counter))
            && (r.Issued? ==>
                  |st'.log| == |st.log| + 1 && r.entry == st'.log[|st.log|] && Records(r.entry, r.cert)
                  && r.cert.serial == st.counter)
            && (Audit.Chained(env.digest, st.log) ==> Audit.Chained(env.digest, st'.log))
  {
    hide Decide, Audit.Chained, Tbs, Audit.ComputeHash, ToU64, KeyIDOf, CriticalOptions, ExtensionOptions;
    match Decide(env.policyLibrary, policy, req.user, req.principals, req.ttl)
    case Denied(_) =>
    case Granted(grant) =>
      if req.key.Some? && st.counter != 0 {
        var draft := Draft(req, req.key.value, grant, st.counter);
        match Signed(env.scheme, draft, env.caPub, env.caPriv, faults.entropy)
        case None =>
        case Some(cert) =>
          var e := IssueEntry(env, req, cert);
          Audit.AppendKeepsChain(env.digest, st.log, e, env.rfc3339(NowOf(req)), faults.append);
      }
  }

  lemma IssueKeeps(env: Env, w: World, policy: Document, req: Request, faults: IssueFaults)
    requires Inv(env, w)
    ensures Inv(env, Step(env, w, Issuing(policy, req, faults)))
  {
    hide AfterIssue, Audit.Chained, SerialsAscend, ListSound, RevokesLogged, ToU64;
    IssueShape(env, w.st, policy, req, faults);
    var (st', r) := AfterIssue(env, w.st, policy, req, faults);
    if st'.log == w.st.log {
      if st' != w.st {
        IssueEntryAscends(w.st.log, w.st.counter, InitEntry(env));
      }
    } else {
      var e := st'.log[|w.st.log|];
      assert st'.log == w.st.log + [e];
      IssueEntryAscends(w.st.log, w.st.counter, e);
      LongerLogKeeps(w.st.log, e, w.issued, w.st.revoked);
      if r.Issued? {
        NewCertLogged(w.st.log, w.st.counter, e, w.issued, r.cert);
      }
    }
  }

  lemma NewCertLogged(log: seq<Audit.Entry>, counter: u64, e: Audit.Entry, issued: seq<Cert>, c: Cert)
    requires SerialsAscend(log, counter) && counter != 0 && CertsLogged(log, issued)
    requires Records(e, c) && c.serial == counter
    ensures CertsLogged(log + [e], issued + [c])
  {
    var log', issued' := log + [e], issued + [c];
    forall i | 0 <= i < |issued'| ensures CertLogged(log', issued'[i]) {
      if i < |issued| {
        assert CertLogged(log, issued[i]);
        var k :| 0 <= k < |log| && Records(log[k], issued[i]);
        assert Records(log'[k], issued'[i]);
      } else {
        assert Records(log'[|log|], issued'[i]);
      }
    }
    forall i | 0 <= i < |issued| ensures issued[i].serial < counter {
      assert CertLogged(log, issued[i]);
      var k :| 0 <= k < |log| && Records(log[k], issued[i]);
    }
  }

  /** Adding a revocation, and perhaps its log entry. */
  lemma ListingKeeps(env: Env, w: World, rev: Revocation, e: Audit.Entry, faults: RevokeFaults)
    requires Inv(env, w)
    requires RevocationSound(w.st.log, rev)
    requires forall i :: 0 <= i < |w.st.revoked| ==>
               w.st.revoked[i].serial != rev.serial || w.st.revoked[i].keyID != rev.keyID
    requires e.action == Audit.Revoke && e.time == [] && Reports(e.(time := rev.time), rev)
    requires e.serial != 0 ==>
               exists i :: 0 <= i < |w.st.log| && IsIssue(w.st.log[i]) && w.st.log[i].serial == e.serial
                           && w.st.log[i].user == e.user && w.st.log[i].keyID == e.keyID
    ensures Inv(env, World(AfterListing(env, w.st, rev, e, faults).0, w.issued))
  {
    hide Audit.Chained, SerialsAscend, CertsLogged, RevocationSound, Audit.ComputeHash;
    var log, revoked := w.st.log, w.st.revoked;
    var sealed := Audit.Sealed(env.digest, log, e, rev.time);
    Audit.AppendKeepsChain(env.digest, log, e, rev.time, faults.append);
    OtherEntryAscends(log, w.st.counter, sealed);
    LongerLogKeeps(log, sealed, w.issued, revoked + [rev]);
    ListGrows(log, revoked, rev);
    MoreRevocationsKeep(log, revoked, rev);
    NewRevokeLogged(log, sealed, revoked + [rev], |revoked|);
  }

  lemma ListGrows(log: seq<Audit.Entry>, revoked: seq<Revocation>, rev: Revocation)
    requires ListSound(log, revoked) && RevocationSound(log, rev)
    requires forall i :: 0 <= i < |revoked| ==> revoked[i].serial != rev.serial || revoked[i].keyID != rev.keyID
    ensures ListSound(log, revoked + [rev])
  {
    hide RevocationSound;
  }

  lemma NewRevokeLogged(log: seq<Audit.Entry>, e: Audit.Entry, revoked: seq<Revocation>, at: nat)
    requires RevokesLogged(log, revoked) && at < |revoked| && Reports(e, revoked[at])
    requires e.serial != 0 ==>
               exists i :: 0 <= i < |log| && IsIssue(log[i]) && log[i].serial == e.serial
                           && log[i].user == e.user && log[i].keyID == e.keyID
    ensures RevokesLogged(log + [e], revoked)
  {
    var longer := log + [e];
    forall k | 0 <= k < |longer| && longer[k].action == Audit.Revoke ensures RevokeLogged(longer, revoked, k) {
      if k < |log| {
        assert longer[k] == log[k];
        RevokeStaysLogged(log, e, revoked, k);
      } else if e.serial != 0 {
        var i :| 0 <= i < |log| && IsIssue(log[i]) && log[i].serial == e.serial
                 && log[i].user == e.user && log[i].keyID == e.keyID;
        assert longer[i] == log[i] && longer[k] == e;
      }
    }
  }

  lemma RevokeSerialKeeps(env: Env, w: World, serial: u64, reason: bytes, now: int, faults: RevokeFaults)
    requires Inv(env, w)
    ensures Inv(env, World(AfterRevokeSerial(env, w.st, serial, reason, now, faults).0, w.issued))
  {
    hide AfterListing, Audit.Chained, CertsLogged, RevokesLogged;
    match IssueEntryOf(w.st.log, serial)
    case None =>
    case Some(issued) =>
      if !SerialListed(w.st.revoked, serial) {
        var k :| 0 <= k < |w.st.log| && w.st.log[k] == issued;
        assert IsIssue(w.st.log[k]) && serial != 0;
        var rev := Revocation(serial, [], env.rfc3339(Krl.Unix(now)), reason);
        var e := RevokeEntry(issued.user, serial, issued.keyID, reason);
        assert SerialLogged(w.st.log, serial);
        ListingKeeps(env, w, rev, e, faults);
      }
  }

  lemma RevokeKeyIDKeeps(env: Env, w: World, keyID: bytes, reason: bytes, now: int, faults: RevokeFaults)
    requires Inv(env, w)
    ensures Inv(env, World(AfterRevokeKeyID(env, w.st, keyID, reason, now, faults).0, w.issued))
  {
    hide AfterListing, Audit.Chained, CertsLogged, RevokesLogged, SerialsAscend;
    if keyID != [] && !KeyIDListed(w.st.revoked, keyID) {
      var rev := Revocation(0, keyID, env.rfc3339(Krl.Unix(now)), reason);
      ListingKeeps(env, w, rev, RevokeEntry([], 0, keyID, reason), faults);
    }
  }

  lemma StepKeeps(env: Env, w: World, ev: Event)
    requires Inv(env, w)
    ensures Inv(env, Step(env, w, ev))
  {
    hide Inv, AfterIssue, AfterRevokeSerial, AfterRevokeKeyID;
    match ev
    case Issuing(policy, req, faults) => IssueKeeps(env, w, policy, req, faults);
    case RevokingSerial(serial, reason, now, faults) => RevokeSerialKeeps(env, w, serial, reason, now, faults);
    case RevokingKeyID(keyID, reason, now, faults) => RevokeKeyIDKeeps(env, w, keyID, reason, now, faults);
  }

  lemma {:induction false} RunKeeps(env: Env, w: World, evs: seq<Event>)
    requires Inv(env, w)
    ensures Inv(env, Run(env, w, evs))
    decreases |evs|
  {
    hide Inv, Step;
    if evs != [] {
      StepKeeps(env, w, evs[0]);
      RunKeeps(env, Step(env, w, evs[0]), evs[1..]);
    }
  }

  lemma InitSound(env: Env, now: int)
    ensures Inv(env, Init(env, now))
  {
    hide Audit.Sealed, Audit.Linked, Audit.Sound;
    var time := env.rfc3339(Krl.Unix(now));
    assert Audit.Chained(env.digest, []);
    Audit.SealedMeans(env.digest, [], InitEntry(env), time);
    Audit.AppendKeepsChain(env.digest, [], InitEntry(env), time, Audit.NoFault);
    assert [] + Init(env, now).st.log == Init(env, now).st.log;
  }

  /** From Init on, whatever is asked and whichever writes fail, the invariant holds. */
  lemma ReachableSound(env: Env, now: int, evs: seq<Event>)
    ensures Inv(env, Run(env, Init(env, now), evs))
  {
    hide Run, Inv, Init;
    InitSound(env, now);
    RunKeeps(env, Init(env, now), evs);
  }

  // ---------------------------------------------------------------------
  // Consequences
  // ---------------------------------------------------------------------

  predicate IssuedAt(log: seq<Audit.Entry>, serial: u64, k: nat) {
    k < |log| && IsIssue(log[k]) && log[k].serial == serial
  }

  /** A serial in the revocation list has exactly one issue entry in the log. */
  lemma ListedSerialIssuedOnce(env: Env, w: World, i: nat) returns (k: nat)
    requires Inv(env, w) && i < |w.st.revoked| && w.st.revoked[i].serial != 0
    ensures IssuedAt(w.st.log, w.st.revoked[i].serial, k)
    ensures forall j :: IssuedAt(w.st.log, w.st.revoked[i].serial, j) ==> j == k
  {
    hide Audit.Chained, CertsLogged, RevokesLogged;
    assert RevocationSound(w.st.log, w.st.revoked[i]);
    assert SerialLogged(w.st.log, w.st.revoked[i].serial);
    k :| 0 <= k < |w.st.log| && IsIssue(w.st.log[k]) && w.st.log[k].serial == w.st.revoked[i].serial;
  }

  /** No serial is ever handed out twice: certificates returned at different points of a run differ in it. */
  lemma SerialsNeverReused(env: Env, now: int, evs: seq<Event>, i: nat, j: nat)
    requires var issued := Run(env, Init(env, now), evs).issued; i < |issued| && j < |issued| && i != j
    ensures var issued := Run(env, Init(env, now), evs).issued; issued[i].serial != issued[j].serial
  {
    hide Run;
    ReachableSound(env, now, evs);
  }

  predicate Succeeds(env: Env, w: World, ev: Event) {
    match ev
    case Issuing(policy, req, faults) => AfterIssue(env, w.st, policy, req, faults).1.Issued?
    case RevokingSerial(serial, reason, now, faults) => AfterRevokeSerial(env, w.st, serial, reason, now, faults).1.Revoked?
    case RevokingKeyID(keyID, reason, now, faults) => AfterRevokeKeyID(env, w.st, keyID, reason, now, faults).1.Revoked?
  }

  function Successes(env: Env, w: World, evs: seq<Event>): nat
    decreases |evs|
  {
    if evs == [] then 0
    else (if Succeeds(env, w, evs[0]) then 1 else 0) + Successes(env, Step(env, w, evs[0]), evs[1..])
  }

  /** The event fails, but only after its log entry was written. */
  predicate FailsLate(env: Env, w: World, ev: Event) {
    match ev
    case Issuing(policy, req, faults) =>
      faults.append == Audit.CloseFails && AfterIssue(env, w.st, policy, req, faults).1.IssueNotLogged?
    case RevokingSerial(serial, reason, now, faults) =>
      faults.append == Audit.CloseFails && AfterRevokeSerial(env, w.st, serial, reason, now, faults).1.RevocationNotLogged?
    case RevokingKeyID(keyID, reason, now, faults) =>
      faults.append == Audit.CloseFails && AfterRevokeKeyID(env, w.st, keyID, reason, now, faults).1.RevocationNotLogged?
  }

  function LateFailures(env: Env, w: World, evs: seq<Event>): nat
    decreases |evs|
  {
    if evs == [] then 0
    else (if FailsLate(env, w, evs[0]) then 1 else 0) + LateFailures(env, Step(env, w, evs[0]), evs[1..])
  }

  /** In every run the log holds one entry per success and one per append that failed after writing. */
  lemma {:induction false} LogCountsSuccesses(env: Env, w: World, evs: seq<Event>)
    ensures |Run(env, w, evs).st.log| == |w.st.log| + Successes(env, w, evs) + LateFailures(env, w, evs)
    decreases |evs|
  {
    hide Step, Succeeds, FailsLate;
    if evs != [] {
      StepCounts(env, w, evs[0]);
      LogCountsSuccesses(env, Step(env, w, evs[0]), evs[1..]);
    }
  }

  lemma StepCounts(env: Env, w: World, ev: Event)
    ensures !(Succeeds(env, w, ev) && FailsLate(env, w, ev))
    ensures |Step(env, w, ev).st.log| ==
            |w.st.log| + (if Succeeds(env, w, ev) || FailsLate(env, w, ev) then 1 else 0)
  {
    hide Decide, Signed, Draft, Audit.Sealed, ToU64;
  }

  /**
   * Nothing can be hidden from an auditor who has saved the last hash of a run: in any verifying log
   * that contains that hash, the history up to it is the history of the run, so every certificate
   * that was returned is recorded there.
   */
  lemma NothingHidden(env: Env, now: int, evs: seq<Event>, forged: seq<Audit.Entry>, j: nat)
    requires var log := Run(env, Init(env, now), evs).st.log;
             && log != [] && j < |forged| && Audit.Chained(env.digest, forged)
             && forged[j].hash == log[|log| - 1].hash && Audit.CollisionFree(env.digest, log, forged)
    ensures var w := Run(env, Init(env, now), evs);
            && forged[..j + 1] == w.st.log
            && forall i :: 0 <= i < |w.issued| ==> CertLogged(forged[..j + 1], w.issued[i])
  {
    hide Run, Audit.Chained, Audit.CollisionFree;
    ReachableSound(env, now, evs);
    Audit.HashDeterminesHistory(env.digest, Run(env, Init(env, now), evs).st.log, forged, j);
  }
}
