/** The exported KRL against the direct check, over single lists and over whole runs. */
module RevocationLaws {
  import opened Basics
  import opened Wire
  import opened Sorting
  import opened Certificates
  import opened Authority
  import opened Runs
  import Krl
  import KrlLaws

  /** The revocation list that sshd reads from the exported bytes. */
  function Exported(env: Env, revoked: seq<Revocation>, now: int): Krl.Outcome {
    Krl.ParsedList(Krl.Marshalled(KrlOf(env, revoked, now)))
  }

  predicate FitsKrl(env: Env, revoked: seq<Revocation>, now: int) {
    KrlLaws.Fits(KrlOf(env, revoked, now))
  }

  lemma ExportedIs(env: Env, revoked: seq<Revocation>, now: int)
    requires FitsKrl(env, revoked, now)
    ensures Exported(env, revoked, now).Done?
    ensures var k := Exported(env, revoked, now).k;
            && k.version == ToU64(|revoked|) && k.caKey == env.caPub.blob
            && k.serials == SortedSet(LeU64, RevokedSerials(revoked))
            && k.keyIDs == Sort(LeBytes, RevokedKeyIDs(revoked))
            && (forall s :: s in k.serials <==> s in RevokedSerials(revoked))
            && (forall id :: id in k.keyIDs <==> id in RevokedKeyIDs(revoked))
  {
    hide Krl.ParsedList, Krl.Marshalled, KrlLaws.Fits, SortedSet, Sort;
    KrlLaws.ListRoundTrip(KrlOf(env, revoked, now));
    Orders();
    SortedSetKeeps(LeU64, RevokedSerials(revoked));
    SortKeeps(LeBytes, RevokedKeyIDs(revoked));
  }

  /** sshd, given the exported bytes, refuses exactly the certificates that IsRevoked reports. */
  lemma KrlAgrees(env: Env, revoked: seq<Revocation>, now: int, c: Cert)
    requires FitsKrl(env, revoked, now)
    ensures Exported(env, revoked, now).Done?
    ensures FirstCovering(revoked, c).Some? <==>
            c.serial in Exported(env, revoked, now).k.serials || c.keyID in Exported(env, revoked, now).k.keyIDs
  {
    hide Exported, FitsKrl, RevokedSerials, RevokedKeyIDs, FirstCovering, Sort, SortedSet;
    ExportedIs(env, revoked, now);
    if FirstCovering(revoked, c).Some? {
      var r := FirstCovering(revoked, c).value;
      var i :| 0 <= i < |revoked| && revoked[i] == r;
      assert revoked[i].serial == r.serial && revoked[i].keyID == r.keyID;
    }
    if c.serial in RevokedSerials(revoked) {
      var i :| 0 <= i < |revoked| && revoked[i].serial == c.serial && c.serial != 0;
      assert Covers(revoked[i], c);
    }
    if c.keyID in RevokedKeyIDs(revoked) {
      var i :| 0 <= i < |revoked| && revoked[i].serial == 0 && revoked[i].keyID == c.keyID && c.keyID != [];
      assert Covers(revoked[i], c);
    }
  }

  // ---------------------------------------------------------------------
  // Versions
  // ---------------------------------------------------------------------

  ghost predicate NoRepeats(revoked: seq<Revocation>) {
    && (forall i :: 0 <= i < |revoked| ==>
          if revoked[i].serial != 0 then revoked[i].keyID == [] else revoked[i].keyID != [])
    && (forall i, j :: 0 <= i < j < |revoked| ==>
          revoked[i].serial != revoked[j].serial || revoked[i].keyID != revoked[j].keyID)
  }

  lemma {:induction false} RevokedParts(revoked: seq<Revocation>)
    requires NoRepeats(revoked)
    ensures Distinct(RevokedSerials(revoked)) && Distinct(RevokedKeyIDs(revoked))
    ensures |RevokedSerials(revoked)| + |RevokedKeyIDs(revoked)| == |revoked|
  {
    if revoked != [] {
      var r, rest := revoked[0], revoked[1..];
      assert forall i :: 0 <= i < |rest| ==> rest[i] == revoked[i + 1];
      RevokedParts(rest);
      var serials, ids := RevokedSerials(rest), RevokedKeyIDs(rest);
      assert r.serial != 0 ==> r.serial !in serials;
      assert r.serial == 0 ==> r.keyID !in ids;
    }
  }

  lemma FitsIsShort(env: Env, revoked: seq<Revocation>, now: int)
    requires FitsKrl(env, revoked, now) && NoRepeats(revoked)
    ensures |revoked| < 0x2_0000_0000
  {
    hide Sort, Uniq, EncField, Enc;
    var serials, ids := RevokedSerials(revoked), RevokedKeyIDs(revoked);
    RevokedParts(revoked);
    Orders();
    SortedSetOfDistinct(LeU64, serials);
    SortKeeps(LeBytes, ids);
    NumsLength(SortedSet(LeU64, serials));
    StrsLength(Sort(LeBytes, ids));
  }

  /** The version of an export is the number of serials and key IDs in it. */
  lemma VersionCounts(env: Env, revoked: seq<Revocation>, now: int)
    requires FitsKrl(env, revoked, now) && NoRepeats(revoked)
    ensures Exported(env, revoked, now).Done?
    ensures var k := Exported(env, revoked, now).k;
            && k.version == |k.serials| + |k.keyIDs| == |revoked|
            && StrictlySorted(LeU64, k.serials) && StrictlySorted(LeBytes, k.keyIDs)
  {
    hide Exported, FitsKrl, Sort, Uniq, LeBytes;
    ExportedIs(env, revoked, now);
    FitsIsShort(env, revoked, now);
    RevokedParts(revoked);
    Orders();
    SortedSetOfDistinct(LeU64, RevokedSerials(revoked));
    SortedSetOfDistinct(LeBytes, RevokedKeyIDs(revoked));
  }

  // ---------------------------------------------------------------------
  // Runs
  // ---------------------------------------------------------------------

  lemma StepGrows(env: Env, w: World, ev: Event)
    ensures w.st.log <= Step(env, w, ev).st.log
    ensures w.st.revoked <= Step(env, w, ev).st.revoked
    ensures w.issued <= Step(env, w, ev).issued
  {
    match ev
    case Issuing(policy, req, faults) =>
      hide AfterIssue, ToU64, Records;
      IssueShape(env, w.st, policy, req, faults);
    case RevokingSerial(serial, reason, now, faults) =>
    case RevokingKeyID(keyID, reason, now, faults) =>
  }

  /** Along a run nothing is ever taken out of the log, the revocation list or the certificates returned. */
  lemma {:induction false} RunGrows(env: Env, w: World, evs: seq<Event>)
    ensures w.st.log <= Run(env, w, evs).st.log
    ensures w.st.revoked <= Run(env, w, evs).st.revoked
    ensures w.issued <= Run(env, w, evs).issued
    decreases |evs|
  {
    hide Step;
    if evs != [] {
      StepGrows(env, w, evs[0]);
      RunGrows(env, Step(env, w, evs[0]), evs[1..]);
    }
  }

  /** Revocation is permanent: what is covered at one point of a run is covered at every later one. */
  lemma RevocationPermanent(env: Env, w: World, evs: seq<Event>, c: Cert)
    requires FirstCovering(w.st.revoked, c).Some?
    ensures FirstCovering(Run(env, w, evs).st.revoked, c).Some?
  {
    hide Run;
    RunGrows(env, w, evs);
    var later := Run(env, w, evs).st.revoked;
    var i :| 0 <= i < |w.st.revoked| && Covers(w.st.revoked[i], c);
    assert later[i] == w.st.revoked[i];
  }

  lemma InvNoRepeats(env: Env, w: World)
    requires Inv(env, w)
    ensures NoRepeats(w.st.revoked)
  {
    var revoked := w.st.revoked;
    forall i | 0 <= i < |revoked|
      ensures if revoked[i].serial != 0 then revoked[i].keyID == [] else revoked[i].keyID != []
    {
      assert RevocationSound(w.st.log, revoked[i]);
    }
  }

  /** Two exports of one run have the same version exactly when they revoke the same serials and key IDs. */
  lemma VersionsTell(env: Env, w: World, evs: seq<Event>, now: int, later: int)
    requires Inv(env, w)
    requires FitsKrl(env, w.st.revoked, now) && FitsKrl(env, Run(env, w, evs).st.revoked, later)
    ensures Exported(env, w.st.revoked, now).Done? && Exported(env, Run(env, w, evs).st.revoked, later).Done?
    ensures var k, k' := Exported(env, w.st.revoked, now).k, Exported(env, Run(env, w, evs).st.revoked, later).k;
            && (forall s :: s in k.serials ==> s in k'.serials)
            && (forall id :: id in k.keyIDs ==> id in k'.keyIDs)
            && k.version <= k'.version
            && (k.version == k'.version <==>
                  (forall s :: s in k.serials <==> s in k'.serials) &&
                  (forall id :: id in k.keyIDs <==> id in k'.keyIDs))
  {
    hide Run, Exported, FitsKrl, Inv, Sort, Uniq, LeBytes, RevokedSerials, RevokedKeyIDs;
    var w' := Run(env, w, evs);
    RunKeeps(env, w, evs);
    RunGrows(env, w, evs);
    InvNoRepeats(env, w);
    InvNoRepeats(env, w');
    VersionCounts(env, w.st.revoked, now);
    VersionCounts(env, w'.st.revoked, later);
    ExportedIs(env, w.st.revoked, now);
    ExportedIs(env, w'.st.revoked, later);
    PrefixRevokesLess(w.st.revoked, w'.st.revoked);
    Orders();
    var k, k' := Exported(env, w.st.revoked, now).k, Exported(env, w'.st.revoked, later).k;
    if k.version == k'.version {
      assert w.st.revoked == w'.st.revoked;
    }
    if (forall s :: s in k.serials <==> s in k'.serials) && (forall id :: id in k.keyIDs <==> id in k'.keyIDs) {
      EnumerationUnique(LeU64, k.serials, k'.serials);
      EnumerationUnique(LeBytes, k.keyIDs, k'.keyIDs);
    }
  }

  lemma PrefixRevokesLess(a: seq<Revocation>, b: seq<Revocation>)
    requires a <= b
    ensures forall s :: s in RevokedSerials(a) ==> s in RevokedSerials(b)
    ensures forall id :: id in RevokedKeyIDs(a) ==> id in RevokedKeyIDs(b)
  {
    forall s | s in RevokedSerials(a) ensures s in RevokedSerials(b) {
      var i :| 0 <= i < |a| && a[i].serial == s && s != 0;
      assert b[i] == a[i];
    }
    forall id | id in RevokedKeyIDs(a) ensures id in RevokedKeyIDs(b) {
      var i :| 0 <= i < |a| && a[i].serial == 0 && a[i].keyID == id && id != [];
      assert b[i] == a[i];
    }
  }
}
