/** How the log tells of revocations: which of them have an entry, and what happens to those that have none. */
module RevocationTrail {
  import opened Basics
  import opened Authority
  import opened Runs
  import Audit

  /** The revoke entries of a log, in order. */
  function RevokeEntries(log: seq<Audit.Entry>): seq<Audit.Entry> {
    if log == [] then []
    else IfRevoke(log[0]) + RevokeEntries(log[1..])
  }

  predicate Writes(append: Audit.AppendFault) {
    append == Audit.NoFault || append == Audit.CloseFails
  }

  function AppendOf(ev: Event): Audit.AppendFault {
    match ev
    case Issuing(_, _, faults) => faults.append
    case RevokingSerial(_, _, _, faults) => faults.append
    case RevokingKeyID(_, _, _, faults) => faults.append
  }

  predicate Lists(env: Env, w: World, ev: Event) {
    |Step(env, w, ev).st.revoked| > |w.st.revoked|
  }

  function LoggedNow(env: Env, w: World, ev: Event): seq<bool> {
    if Lists(env, w, ev) then [Writes(AppendOf(ev))] else []
  }

  /** For every revocation that a run lists: was its log entry written? */
  function Logged(env: Env, w: World, evs: seq<Event>): seq<bool>
    decreases |evs|
  {
    if evs == [] then []
    else LoggedNow(env, w, evs[0]) + Logged(env, Step(env, w, evs[0]), evs[1..])
  }

  function Selected(revoked: seq<Revocation>, flags: seq<bool>): seq<Revocation>
    requires |revoked| == |flags|
  {
    if revoked == [] then []
    else (if flags[0] then [revoked[0]] else []) + Selected(revoked[1..], flags[1..])
  }

  /** The entries report these revocations, one each and in this order. */
  predicate Report(entries: seq<Audit.Entry>, revoked: seq<Revocation>) {
    |entries| == |revoked| && forall i :: 0 <= i < |entries| ==> Reports(entries[i], revoked[i])
  }

  function IfRevoke(e: Audit.Entry): seq<Audit.Entry> {
    if e.action == Audit.Revoke then [e] else []
  }

  lemma {:induction false} RevokeEntriesAppend(log: seq<Audit.Entry>, more: seq<Audit.Entry>)
    ensures RevokeEntries(log + more) == RevokeEntries(log) + RevokeEntries(more)
  {
    hide IfRevoke;
    if log == [] {
      assert log + more == more;
    } else {
      assert (log + more)[1..] == log[1..] + more;
      RevokeEntriesAppend(log[1..], more);
      var head, tail := IfRevoke(log[0]), RevokeEntries(log[1..]);
      assert head + (tail + RevokeEntries(more)) == (head + tail) + RevokeEntries(more);
    }
  }

  lemma SelectedNone()
    ensures Selected([], []) == []
  {
  }

  lemma SelectedCons(r: seq<Revocation>, f: seq<bool>, head: seq<Revocation>)
    requires |r| == |f| && r != [] && head == if f[0] then [r[0]] else []
    ensures Selected(r, f) == head + Selected(r[1..], f[1..])
  {
  }

  lemma {:induction false} SelectedAppend(r: seq<Revocation>, f: seq<bool>, s: seq<Revocation>, g: seq<bool>)
    requires |r| == |f| && |s| == |g|
    ensures Selected(r + s, f + g) == Selected(r, f) + Selected(s, g)
  {
    hide Selected;
    if r == [] {
      assert Selected(r, f) == [] by { SelectedNone(); }
      assert r + s == s && f + g == g;
    } else {
      var head := if f[0] then [r[0]] else [];
      SelectedCons(r, f, head);
      SelectedCons(r + s, f + g, head);
      assert (r + s)[1..] == r[1..] + s && (f + g)[1..] == f[1..] + g;
      SelectedAppend(r[1..], f[1..], s, g);
      assert head + (Selected(r[1..], f[1..]) + Selected(s, g)) == head + Selected(r[1..], f[1..]) + Selected(s, g);
    }
  }

  lemma {:induction false} SelectedAll(revoked: seq<Revocation>, flags: seq<bool>)
    requires |revoked| == |flags| && forall i :: 0 <= i < |flags| ==> flags[i]
    ensures Selected(revoked, flags) == revoked
  {
    if revoked != [] {
      SelectedAll(revoked[1..], flags[1..]);
      assert revoked == [revoked[0]] + revoked[1..];
    }
  }

  /** What one event adds to the list and to the revoke entries. */
  lemma StepAdds(env: Env, w: World, ev: Event) returns (revs: seq<Revocation>, entries: seq<Audit.Entry>)
    requires Inv(env, w)
    ensures Step(env, w, ev).st.revoked == w.st.revoked + revs
    ensures RevokeEntries(Step(env, w, ev).st.log) == RevokeEntries(w.st.log) + entries
    ensures |revs| == |LoggedNow(env, w, ev)| && Report(entries, Selected(revs, LoggedNow(env, w, ev)))
  {
    hide Step, Inv, Reports;
    var log, log' := w.st.log, Step(env, w, ev).st.log;
    LogGrows(env, w, ev);
    var more := log'[|log|..];
    assert log' == log + more;
    RevokeEntriesAppend(log, more);
    revs, entries := Step(env, w, ev).st.revoked[|w.st.revoked|..], RevokeEntries(more);
    assert more != [] ==> more == [log'[|log|]] && more[1..] == [];
    assert revs != [] ==> revs[1..] == [] && Selected(revs[1..], LoggedNow(env, w, ev)[1..]) == [];
  }

  lemma LogGrows(env: Env, w: World, ev: Event)
    requires Inv(env, w)
    ensures var log, log', revoked, revoked' :=
              w.st.log, Step(env, w, ev).st.log, w.st.revoked, Step(env, w, ev).st.revoked;
            && log <= log' && |log'| <= |log| + 1 && revoked <= revoked' && |revoked'| <= |revoked| + 1
            && (if |log'| > |log| && log'[|log|].action == Audit.Revoke
                then Writes(AppendOf(ev)) && |revoked'| > |revoked| && Reports(log'[|log|], revoked'[|revoked|])
                else |revoked'| > |revoked| ==> !Writes(AppendOf(ev)))
  {
    hide Audit.ComputeHash, AfterIssue, Audit.Chained, CertsLogged, ListSound, RevokesLogged;
    if ev.Issuing? {
      IssueShape(env, w.st, ev.policy, ev.req, ev.faults);
    }
  }

  /**
   * In every run from Init the revoke entries of the log are, in order, those of the listed revocations
   * whose entry was written: every one of them has exactly one entry, and no other has any.
   */
  lemma RevocationsLogged(env: Env, now: int, evs: seq<Event>)
    ensures var w, flags := Run(env, Init(env, now), evs), Logged(env, Init(env, now), evs);
            && |flags| == |w.st.revoked|
            && Report(RevokeEntries(w.st.log), Selected(w.st.revoked, flags))
            && ((forall ev :: ev in evs && !ev.Issuing? ==> Writes(AppendOf(ev))) ==>
                  Report(RevokeEntries(w.st.log), w.st.revoked))
  {
    hide Report, Selected, Inv, Step;
    var w0 := Init(env, now);
    ReachableSound(env, now, []);
    assert Run(env, w0, []) == w0;
    var revs, entries := RunAdds(env, w0, evs);
    var log := w0.st.log;
    assert log[1..] == [] && RevokeEntries(log) == [] + RevokeEntries(log[1..]) == [];
    assert w0.st.revoked + revs == revs && [] + entries == entries;
    if forall ev :: ev in evs && !ev.Issuing? ==> Writes(AppendOf(ev)) {
      AllWritten(env, w0, evs);
      SelectedAll(revs, Logged(env, w0, evs));
    }
  }

  lemma {:induction false} RunAdds(env: Env, w: World, evs: seq<Event>)
    returns (revs: seq<Revocation>, entries: seq<Audit.Entry>)
    requires Inv(env, w)
    ensures Run(env, w, evs).st.revoked == w.st.revoked + revs
    ensures RevokeEntries(Run(env, w, evs).st.log) == RevokeEntries(w.st.log) + entries
    ensures |revs| == |Logged(env, w, evs)| && Report(entries, Selected(revs, Logged(env, w, evs)))
    decreases |evs|
  {
    hide Step, RevokeEntries, Reports, Inv, LoggedNow;
    if evs == [] {
      revs, entries := [], [];
    } else {
      var now, later := LoggedNow(env, w, evs[0]), Logged(env, Step(env, w, evs[0]), evs[1..]);
      var revs1, entries1 := StepAdds(env, w, evs[0]);
      StepKeeps(env, w, evs[0]);
      var revs2, entries2 := RunAdds(env, Step(env, w, evs[0]), evs[1..]);
      revs, entries := revs1 + revs2, entries1 + entries2;
      SelectedAppend(revs1, now, revs2, later);
    }
  }

  lemma {:induction false} AllWritten(env: Env, w: World, evs: seq<Event>)
    requires forall ev :: ev in evs && !ev.Issuing? ==> Writes(AppendOf(ev))
    ensures forall i :: 0 <= i < |Logged(env, w, evs)| ==> Logged(env, w, evs)[i]
    decreases |evs|
  {
    hide Step, Writes;
    if evs != [] {
      assert evs[0] in evs;
      if evs[0].Issuing? {
        IssueListsNothing(env, w, evs[0]);
      }
      AllWritten(env, Step(env, w, evs[0]), evs[1..]);
    }
  }

  lemma IssueListsNothing(env: Env, w: World, ev: Event)
    requires ev.Issuing?
    ensures !Lists(env, w, ev)
  {
    hide AfterIssue;
    IssueShape(env, w.st, ev.policy, ev.req, ev.faults);
  }

  // ---------------------------------------------------------------------
  // A revocation whose entry was not written
  // ---------------------------------------------------------------------

  /** The revocation is in force, and the log does not tell of it. */
  ghost predicate InForceUnlogged(st: State, r: Revocation) {
    && r in st.revoked && (r.serial != 0 || r.keyID != [])
    && forall k :: 0 <= k < |st.log| && st.log[k].action == Audit.Revoke ==>
         !(st.log[k].serial == r.serial && (r.serial == 0 ==> st.log[k].keyID == r.keyID))
  }

  /** Revoking what r revokes once more. */
  function Again(env: Env, st: State, r: Revocation, reason: bytes, now: int, faults: RevokeFaults): (State, RevokeResult) {
    if r.serial != 0 then AfterRevokeSerial(env, st, r.serial, reason, now, faults)
    else AfterRevokeKeyID(env, st, r.keyID, reason, now, faults)
  }

  /**
   * When the entry of a revocation is not written, the revocation is in force for good all the same, no
   * later state's log tells of it, and revoking again is answered with "already revoked".
   */
  lemma UnloggedForEver(
    env: Env, now: int, evs: seq<Event>, ev: Event, more: seq<Event>, reason: bytes, later: int, faults: RevokeFaults)
    returns (r: Revocation)
    requires var w := Run(env, Init(env, now), evs); Lists(env, w, ev) && !Writes(AppendOf(ev))
    ensures var w := Run(env, Init(env, now), evs);
            var w' := Run(env, Step(env, w, ev), more);
            && Step(env, w, ev).st.revoked == w.st.revoked + [r]
            && InForceUnlogged(w'.st, r)
            && (!faults.logReadFails && !faults.listReadFails ==>
                  Again(env, w'.st, r, reason, later, faults) == (w'.st, AlreadyRevoked))
            && forall c :: Covers(r, c) ==> FirstCovering(w'.st.revoked, c).Some?
  {
    hide Run, Step, Inv, InForceUnlogged, FirstCovering;
    var w := Run(env, Init(env, now), evs);
    ReachableSound(env, now, evs);
    StepKeeps(env, w, ev);
    r := NewlyListed(env, w, ev);
    var w1 := Step(env, w, ev);
    ListedUnlogged(env, w, ev, r);
    StaysUnlogged(env, w1, more, r);
    RunKeeps(env, w1, more);
    var w' := Run(env, w1, more);
    if !faults.logReadFails && !faults.listReadFails {
      AgainRefused(env, w', r, reason, later, faults);
    }
    InForceCovers(w'.st, r);
  }

  /** What an event lists was not listed before. */
  lemma NewlyListed(env: Env, w: World, ev: Event) returns (r: Revocation)
    requires Inv(env, w) && Lists(env, w, ev)
    ensures Step(env, w, ev).st.revoked == w.st.revoked + [r]
    ensures r.serial != 0 || r.keyID != []
    ensures forall i :: 0 <= i < |w.st.revoked| ==>
              w.st.revoked[i].serial != r.serial || (r.serial == 0 && w.st.revoked[i].keyID != r.keyID)
  {
    hide Step, Audit.Chained, CertsLogged, RevokesLogged, SerialsAscend;
    LogGrows(env, w, ev);
    StepKeeps(env, w, ev);
    var revoked := Step(env, w, ev).st.revoked;
    r := revoked[|w.st.revoked|];
    assert RevocationSound(Step(env, w, ev).st.log, r);
    if ev.Issuing? {
      IssueListsNothing(env, w, ev);
    }
  }

  lemma ListedUnlogged(env: Env, w: World, ev: Event, r: Revocation)
    requires Inv(env, w) && Lists(env, w, ev) && !Writes(AppendOf(ev))
    requires Step(env, w, ev).st.revoked == w.st.revoked + [r]
    requires r.serial != 0 || r.keyID != []
    requires forall i :: 0 <= i < |w.st.revoked| ==>
               w.st.revoked[i].serial != r.serial || (r.serial == 0 && w.st.revoked[i].keyID != r.keyID)
    ensures InForceUnlogged(Step(env, w, ev).st, r)
  {
    hide Step, Audit.Chained, SerialsAscend, CertsLogged, ListSound;
    LogGrows(env, w, ev);
    if ev.Issuing? {
      IssueListsNothing(env, w, ev);
    }
    forall k | 0 <= k < |w.st.log| && w.st.log[k].action == Audit.Revoke
      ensures !(w.st.log[k].serial == r.serial && (r.serial == 0 ==> w.st.log[k].keyID == r.keyID))
    {
      assert RevokeLogged(w.st.log, w.st.revoked, k);
    }
  }

  lemma {:induction false} StaysUnlogged(env: Env, w: World, evs: seq<Event>, r: Revocation)
    requires Inv(env, w) && InForceUnlogged(w.st, r)
    ensures InForceUnlogged(Run(env, w, evs).st, r)
    decreases |evs|
  {
    hide Step, Inv, InForceUnlogged;
    if evs != [] {
      StepKeeps(env, w, evs[0]);
      StepStaysUnlogged(env, w, evs[0], r);
      StaysUnlogged(env, Step(env, w, evs[0]), evs[1..], r);
    }
  }

  lemma StepStaysUnlogged(env: Env, w: World, ev: Event, r: Revocation)
    requires Inv(env, w) && InForceUnlogged(w.st, r)
    ensures InForceUnlogged(Step(env, w, ev).st, r)
  {
    hide Step, Inv;
    LogGrows(env, w, ev);
    var log, log' := w.st.log, Step(env, w, ev).st.log;
    assert forall k :: 0 <= k < |log| ==> log'[k] == log[k];
    var i :| 0 <= i < |w.st.revoked| && w.st.revoked[i] == r;
    assert Step(env, w, ev).st.revoked[i] == r;
    if Lists(env, w, ev) {
      var latest := NewlyListed(env, w, ev);
      assert Step(env, w, ev).st.revoked[|w.st.revoked|] == latest;
    }
  }

  lemma AgainRefused(env: Env, w: World, r: Revocation, reason: bytes, now: int, faults: RevokeFaults)
    requires Inv(env, w) && InForceUnlogged(w.st, r) && !faults.logReadFails && !faults.listReadFails
    ensures Again(env, w.st, r, reason, now, faults) == (w.st, AlreadyRevoked)
  {
    hide Audit.Chained, SerialsAscend, CertsLogged, RevokesLogged, AfterListing;
    var i :| 0 <= i < |w.st.revoked| && w.st.revoked[i] == r;
    assert RevocationSound(w.st.log, w.st.revoked[i]);
  }

  lemma InForceCovers(st: State, r: Revocation)
    requires InForceUnlogged(st, r)
    ensures forall c :: Covers(r, c) ==> FirstCovering(st.revoked, c).Some?
  {
    var i :| 0 <= i < |st.revoked| && st.revoked[i] == r;
    forall c | Covers(r, c) ensures FirstCovering(st.revoked, c).Some? {
      assert Covers(st.revoked[i], c);
    }
  }
}
