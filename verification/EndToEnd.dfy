/** From a request through policy, signing, bytes and parsing to the acceptance verdict, over whole runs. */
module EndToEnd {
  import opened Basics
  import opened Text
  import opened Sorting
  import opened Wire
  import opened Keys
  import opened Options
  import opened Certificates
  import opened CertificateLaws
  import opened Signing
  import opened Policy
  import opened Authority
  import opened Runs
  import opened RevocationLaws
  import CertificateLines
  import Audit
  import Krl

  /** Durations in whole seconds, rounded up. */
  function CeilSeconds(d: int): int {
    (d + Krl.SECOND - 1) / Krl.SECOND
  }

  // ---------------------------------------------------------------------
  // Issuing
  // ---------------------------------------------------------------------

  /** A certificate is returned only for a granted request, and it is that grant, signed. */
  lemma IssuedForm(env: Env, st: State, policy: Document, req: Request, faults: IssueFaults)
    requires AfterIssue(env, st, policy, req, faults).1.Issued?
    ensures var r := AfterIssue(env, st, policy, req, faults).1;
            && Decide(env.policyLibrary, policy, req.user, req.principals, req.ttl) == Granted(r.grant)
            && req.key.Some? && req.backdate >= 0 && st.counter != 0
            && Signed(env.scheme, Draft(req, req.key.value, r.grant, st.counter), env.caPub, env.caPriv, faults.entropy)
               == Some(r.cert)
  {
    hide Decide, Draft, Signed, Audit.LogAfter, Audit.Sealed;
  }

  /** A refused issue changes nothing at all, and one that fails later never returns a certificate. */
  lemma RefusalChangesNothing(env: Env, st: State, policy: Document, req: Request, faults: IssueFaults)
    ensures var (st', r) := AfterIssue(env, st, policy, req, faults);
            && (r.NoUser? || r.NoKey? || r.Refused? || r.NegativeBackdate? || r.SerialError? ==> st' == st)
            && (st.counter == 0 ==> st' == st && !r.Issued?)
            && (r.Refused? <==>
                  req.user != [] && req.key.Some? &&
                  Decide(env.policyLibrary, policy, req.user, req.principals, req.ttl).Denied?)
            && (!r.Issued? && faults.append != Audit.CloseFails ==> st'.log == st.log)
            && st'.revoked == st.revoked
  {
    hide Decide, Draft, Signed, Audit.Sealed;
  }

  /** The certificate carries exactly what the policy granted. */
  lemma IssuedCarriesGrant(env: Env, st: State, policy: Document, req: Request, faults: IssueFaults)
    requires AfterIssue(env, st, policy, req, faults).1.Issued?
    ensures req.user in policy.users
    ensures var r := AfterIssue(env, st, policy, req, faults).1;
            var rule := Merged(policy.users[req.user], policy.defaults);
            var c := r.cert;
            && c.certType == USER_CERT && c.serial == st.counter && c.key == req.key.value
            && c.principals != [] && WILDCARD !in c.principals
            && (forall pr :: pr in c.principals ==>
                  Matches(pr) && (pr in rule.principals || WILDCARD in rule.principals))
            && (req.principals == [] ==>
                  StrictlySorted(LeBytes, c.principals) &&
                  forall pr :: pr in c.principals <==> pr in policy.users[req.user].principals && pr != WILDCARD)
            && (req.principals != [] ==> c.principals == req.principals)
            && |c.extensions| == |rule.extensions.GetOr([])|
            && (forall i :: 0 <= i < |c.extensions| ==>
                  c.extensions[i] == CertOption(rule.extensions.GetOr([])[i], []))
            && (forall v :: CertOption(Ascii("force-command"), v) in c.critical <==> v != [] && v == rule.forceCommand)
            && (forall v :: CertOption(Ascii("source-address"), v) in c.critical <==>
                  rule.sourceAddress != [] && v == Join(rule.sourceAddress, Ascii(",")))
            && (forall o :: o in c.critical ==> o.name == Ascii("force-command") || o.name == Ascii("source-address"))
            && r.grant.ttl <= MaxTTL(env.policyLibrary, rule)
  {
    hide Decide, MaxTTL, Matches, Join, AfterIssue;
    IssuedForm(env, st, policy, req, faults);
    GrantedExactly(env.policyLibrary, policy, req.user, req.principals, req.ttl);
    GrantSound(env.policyLibrary, policy, req.user, req.principals, req.ttl);
    var g := AfterIssue(env, st, policy, req, faults).1.grant;
    CriticalOptionsAre(g);
    SignedKeeps(env.scheme, Draft(req, req.key.value, g, st.counter), env.caPub, env.caPriv, faults.entropy);
  }

  lemma CriticalOptionsAre(g: Grant)
    ensures forall v :: CertOption(Ascii("force-command"), v) in CriticalOptions(g) <==> v != [] && v == g.forceCommand
    ensures forall v :: CertOption(Ascii("source-address"), v) in CriticalOptions(g) <==>
              g.sourceAddress != [] && v == Join(g.sourceAddress, Ascii(","))
    ensures forall o :: o in CriticalOptions(g) ==> o.name == Ascii("force-command") || o.name == Ascii("source-address")
  {
    hide Join;
    assert |Ascii("force-command")| == 13 && |Ascii("source-address")| == 14;
  }

  lemma {:induction false} DecimalDigits(n: nat)
    ensures DecimalValue(Decimal(n)) == Some(n) && Decimal(n) != []
  {
    var s := Decimal(n);
    if n < 10 {
      assert s[..0] == [];
    } else {
      DecimalDigits(n / 10);
      assert s[..|s| - 1] == Decimal(n / 10);
    }
  }

  /** Default key IDs are as unique as serials: they determine user and serial. */
  lemma DefaultKeyIDsDistinct(x: Request, m: u64, y: Request, n: u64)
    requires x.keyID == [] && y.keyID == [] && KeyIDOf(x, m) == KeyIDOf(y, n)
    ensures m == n && x.user == y.user
  {
    hide DecimalValue, Decimal;
    var mid := Ascii("@certclerk-");
    var dm, dn := Decimal(m), Decimal(n);
    DecimalDigits(m);
    DecimalDigits(n);
    assert mid[|mid| - 1] == '-' as int;
    if |dm| < |dn| {
      TailIsDigit(x.user + mid, dm, y.user + mid, dn);
    } else if |dn| < |dm| {
      TailIsDigit(y.user + mid, dn, x.user + mid, dm);
    }
    assert (x.user + mid + dm)[|x.user + mid|..] == dm;
    assert (y.user + mid + dn)[|y.user + mid|..] == dn;
    assert (x.user + mid + dm)[..|x.user|] == x.user && (y.user + mid + dn)[..|y.user|] == y.user;
  }

  lemma TailIsDigit(a: bytes, d: bytes, b: bytes, e: bytes)
    requires a + d == b + e && |d| < |e| && a != [] && DecimalValue(e).Some?
    ensures IsDigit(a[|a| - 1])
  {
    var i := |a| - 1 - |b|;
    assert (a + d)[|a| - 1] == a[|a| - 1];
    assert (b + e)[|a| - 1] == e[i];
  }

  // ---------------------------------------------------------------------
  // The validity window
  // ---------------------------------------------------------------------

  /** The second from which the certificate is meant to be valid. */
  function StartOf(req: Request): int {
    NowOf(req) - CeilSeconds(req.backdate)
  }

  /** The second from which it is meant to have expired, by the user's rule and the lifetime asked for. */
  function EndOf(env: Env, policy: Document, req: Request): int
    requires req.user in policy.users
  {
    NowOf(req) + EffectiveTTL(env.policyLibrary, Merged(policy.users[req.user], policy.defaults), req.ttl) / Krl.SECOND
  }

  /** The moment of issue is so near to 1970 that both bounds are int64 seconds. */
  predicate ClockFits(req: Request) {
    -0x4000_0000_0000_0000 <= NowOf(req) < 0x4000_0000_0000_0000
  }

  /** Which seconds are inside a window whose bounds were converted from int64 to uint64. */
  predicate Inside(start: int, end: int, at: int) {
    if 0 <= at then 0 <= start <= at && (end < 0 || at < end)
    else (0 <= start || start <= at) && end < 0 && (at < end || end == -1)
  }

  lemma SecondsOf(now: int, backdate: i64, ttl: i64)
    ensures Krl.Unix(now * Krl.SECOND - backdate) == now - CeilSeconds(backdate)
    ensures Krl.Unix(now * Krl.SECOND + ttl) == now + ttl / Krl.SECOND
    ensures -0x3_0000_0000 < CeilSeconds(backdate) < 0x3_0000_0000
    ensures -0x3_0000_0000 < ttl / Krl.SECOND < 0x3_0000_0000
  {
  }

  lemma WindowOf(c: Cert, start: i64, end: i64, at: i64)
    requires c.validAfter == ToU64(start) && c.validBefore == ToU64(end)
    ensures InWindow(c, at) <==> Inside(start, end, at)
    ensures c.validBefore == INFINITE_VALIDITY <==> end == -1
  {
  }

  /**
   * Over the times from 1970 on, the window is the intended one exactly when both bounds are on the
   * same side of 1970. A start before it makes the certificate valid at no time, an end before it
   * makes it valid for ever.
   */
  lemma WindowExact(start: i64, end: i64)
    ensures (forall at: i64 :: 0 <= at ==> (Inside(start, end, at) <==> start <= at < end)) <==>
            (0 <= start && 0 <= end) || (start < 0 && end <= 0)
    ensures start < 0 ==> forall at: i64 :: 0 <= at ==> !Inside(start, end, at)
    ensures 0 <= start && end < 0 ==> forall at: i64 :: start <= at ==> Inside(start, end, at)
  {
    if 0 <= start && end < 0 {
      assert Inside(start, end, start);
    }
    if start < 0 && 0 < end {
      assert !Inside(start, end, 0);
    }
  }

  lemma GrantedTTL(env: Env, policy: Document, req: Request, g: Grant)
    requires Decide(env.policyLibrary, policy, req.user, req.principals, req.ttl) == Granted(g)
    ensures req.user in policy.users
    ensures var rule := Merged(policy.users[req.user], policy.defaults);
            && g.ttl == EffectiveTTL(env.policyLibrary, rule, req.ttl)
            && g.ttl <= g.maxTTL == MaxTTL(env.policyLibrary, rule)
  {
    hide Decide, MaxTTL;
    GrantedExactly(env.policyLibrary, policy, req.user, req.principals, req.ttl);
    GrantSound(env.policyLibrary, policy, req.user, req.principals, req.ttl);
  }

  // ---------------------------------------------------------------------
  // Acceptance
  // ---------------------------------------------------------------------

  /** The certificate's strings are short enough for their length prefixes. */
  predicate StringsFit(c: Cert) {
    forall i :: 0 <= i < 10 ==> SignedTail(c)[i].Fits()
  }

  lemma IssuedIsGenuine(env: Env, st: State, policy: Document, req: Request, faults: IssueFaults)
    requires Correct(env.scheme) && KeyPair(env.scheme, env.caPub, env.caPriv)
    requires AfterIssue(env, st, policy, req, faults).1.Issued?
    requires WellFormedKey(AfterIssue(env, st, policy, req, faults).1.cert.key)
    requires StringsFit(AfterIssue(env, st, policy, req, faults).1.cert)
    ensures var c := AfterIssue(env, st, policy, req, faults).1.cert;
            WellFormed(c) && Genuine(env.scheme, c, env.caPub)
  {
    hide AfterIssue, Decide, WellFormedKey, Genuine, SignedTail, KeyPair;
    IssuedForm(env, st, policy, req, faults);
    var r := AfterIssue(env, st, policy, req, faults).1;
    var draft := Draft(req, req.key.value, r.grant, st.counter);
    SignedKeeps(env.scheme, draft, env.caPub, env.caPriv, faults.entropy);
    SignedIsGenuine(env.scheme, draft, env.caPub, env.caPriv, faults.entropy);
  }

  /** What is assumed of the CA and of the certificate it returns, whatever was asked of it. */
  ghost predicate Returned(env: Env, st: State, policy: Document, req: Request, faults: IssueFaults, r: IssueResult) {
    && Correct(env.scheme) && KeyPair(env.scheme, env.caPub, env.caPriv)
    && r == AfterIssue(env, st, policy, req, faults).1 && r.Issued?
    && ClockFits(req) && WellFormedKey(r.cert.key) && StringsFit(r.cert)
  }

  /** The revocation list after the issue and whatever happens then. */
  function LaterList(
    env: Env, w: World, policy: Document, req: Request, faults: IssueFaults, evs: seq<Event>): seq<Revocation>
  {
    Run(env, Step(env, w, Issuing(policy, req, faults)), evs).st.revoked
  }

  predicate Listed(revoked: seq<Revocation>, c: Cert) {
    SerialListed(revoked, c.serial) || KeyIDListed(revoked, c.keyID)
  }

  /**
   * The whole path, for every policy, every lifetime asked for and every time: a returned certificate,
   * marshalled, parsed back and checked in any later state of the run, is accepted exactly when the
   * time is inside the window that the two bounds make as uint64 seconds and neither its serial nor
   * its key ID is listed. It says "forever" exactly when the end is one second before 1970.
   */
  lemma AcceptedWhen(
    env: Env, w: World, policy: Document, req: Request, faults: IssueFaults, r: IssueResult, evs: seq<Event>, at: i64)
    requires Returned(env, w.st, policy, req, faults, r)
    ensures req.user in policy.users
    ensures Parsed(Marshalled(r.cert)).Some?
    ensures var later := LaterList(env, w, policy, req, faults, evs);
            VerdictOf(env, later, Parsed(Marshalled(r.cert)).value, at) == Accepted <==>
              Inside(StartOf(req), EndOf(env, policy, req), at) && !Listed(later, r.cert)
    ensures r.cert.validBefore == INFINITE_VALIDITY <==> EndOf(env, policy, req) == -1
    ensures EndOf(env, policy, req) == NowOf(req) + r.grant.ttl / Krl.SECOND
  {
    hide AfterIssue, Decide, WellFormedKey, Genuine, Run, Step, StringsFit, Marshalled, Parsed, WellFormed, Tbs,
      InWindow, KeyPair, FirstCovering, Draft, ClockFits, EndOf, StartOf;
    var later := LaterList(env, w, policy, req, faults, evs);
    IssuedIsGenuine(env, w.st, policy, req, faults);
    GenuineThroughBytes(env.scheme, r.cert, env.caPub);
    IssuedWindow(env, w.st, policy, req, faults, r, at);
    IssuedCovered(env, w.st, policy, req, faults, r, later);
    VerdictThroughBytes(env, later, r.cert, at);
  }

  /**
   * The promise is that an unlisted certificate is accepted from its start up to its end. Over the
   * times from 1970 on it is kept exactly when both bounds lie on the same side of 1970.
   */
  lemma PromiseKeptExactly(
    env: Env, w: World, policy: Document, req: Request, faults: IssueFaults, r: IssueResult, evs: seq<Event>)
    requires Returned(env, w.st, policy, req, faults, r)
    requires !Listed(LaterList(env, w, policy, req, faults, evs), r.cert)
    ensures req.user in policy.users && Parsed(Marshalled(r.cert)).Some?
    ensures var start, end, later := StartOf(req), EndOf(env, policy, req), LaterList(env, w, policy, req, faults, evs);
            (forall at: i64 :: 0 <= at ==>
               (VerdictOf(env, later, Parsed(Marshalled(r.cert)).value, at) == Accepted <==> start <= at < end))
            <==> (0 <= start && 0 <= end) || (start < 0 && end <= 0)
  {
    hide AfterIssue, Decide, WellFormedKey, Genuine, Run, Step, StringsFit, Marshalled, Parsed, VerdictOf, KeyPair,
      Inside, EndOf, StartOf, Returned, LaterList, Listed, EffectiveTTL;
    ReturnedIssued(env, w.st, policy, req, faults, r);
    AcceptedWhen(env, w, policy, req, faults, r, evs, 0);
    var start, end, later := StartOf(req), EndOf(env, policy, req), LaterList(env, w, policy, req, faults, evs);
    BoundsFit(env, policy, req, faults, w.st, r);
    WindowExact(start, end);
    forall at: i64
      ensures VerdictOf(env, later, Parsed(Marshalled(r.cert)).value, at) == Accepted <==> Inside(start, end, at)
    {
      AcceptedWhen(env, w, policy, req, faults, r, evs, at);
    }
  }

  lemma ReturnedIssued(env: Env, st: State, policy: Document, req: Request, faults: IssueFaults, r: IssueResult)
    requires Returned(env, st, policy, req, faults, r)
    ensures r.Issued?
  {
  }

  lemma BoundsFit(env: Env, policy: Document, req: Request, faults: IssueFaults, st: State, r: IssueResult)
    requires Returned(env, st, policy, req, faults, r)
    ensures req.user in policy.users
    ensures -0x8000_0000_0000_0000 <= StartOf(req) < 0x8000_0000_0000_0000
    ensures -0x8000_0000_0000_0000 <= EndOf(env, policy, req) < 0x8000_0000_0000_0000
  {
    hide AfterIssue, Decide, WellFormedKey, StringsFit, KeyPair, CeilSeconds, EffectiveTTL;
    IssuedForm(env, st, policy, req, faults);
    GrantedTTL(env, policy, req, r.grant);
    SecondsOf(NowOf(req), req.backdate, r.grant.ttl);
  }

  /** The request is made on valid terms: no overlong cap, no negative lifetime, no start before 1970. */
  ghost predicate InDomain(env: Env, policy: Document, req: Request) {
    && ValidDocument(env.policyLibrary, policy)
    && (req.user in policy.users ==> PositiveCap(Merged(policy.users[req.user], policy.defaults)))
    && 0 <= req.ttl && 0 <= StartOf(req)
  }

  /**
   * On those terms a returned certificate is accepted exactly in
   * [now - ceil(backdate), now + floor(granted TTL)) while it is unlisted, the granted TTL is within
   * the cap of the user's rule, and "forever" is never issued.
   */
  lemma AcceptedExactly(
    env: Env, w: World, policy: Document, req: Request, faults: IssueFaults, r: IssueResult, evs: seq<Event>, at: i64)
    requires Returned(env, w.st, policy, req, faults, r) && InDomain(env, policy, req)
    ensures Parsed(Marshalled(r.cert)).Some?
    ensures var later := LaterList(env, w, policy, req, faults, evs);
            var t := (if req.now == -62_135_596_800 * 1_000_000_000 then req.clock else req.now) / 1_000_000_000;
            VerdictOf(env, later, Parsed(Marshalled(r.cert)).value, at) == Accepted <==>
              && t - (req.backdate + 999_999_999) / 1_000_000_000 <= at < t + r.grant.ttl / 1_000_000_000
              && !Listed(later, r.cert)
    ensures 0 <= r.grant.ttl <= r.grant.maxTTL && r.cert.validBefore != INFINITE_VALIDITY
    ensures req.user in policy.users
    ensures r.grant.maxTTL == MaxTTL(env.policyLibrary, Merged(policy.users[req.user], policy.defaults))
  {
    hide AfterIssue, Decide, WellFormedKey, StringsFit, Run, Step, Marshalled, Parsed, VerdictOf, KeyPair, MaxTTL,
      ValidDocument, PositiveCap, LaterList, Listed;
    AcceptedWhen(env, w, policy, req, faults, r, evs, at);
    IssuedForm(env, w.st, policy, req, faults);
    GrantedTTL(env, policy, req, r.grant);
    CapPositive(env.policyLibrary, policy, req.user);
    BackdateCounts(req.backdate);
  }

  lemma BackdateCounts(backdate: int)
    requires 0 <= backdate
    ensures 0 <= CeilSeconds(backdate)
  {
  }

  // ---------------------------------------------------------------------
  // A certificate without an end
  // ---------------------------------------------------------------------

  /** A policy of one user, whose cap is 106752 days. */
  function LongCap(user: bytes): Document {
    Document(1, Rule([], [], None, [], []), map[user := Rule([user], Ascii("106752d"), None, [], [])])
  }

  function NoFaults(nonce: Nonce): IssueFaults {
    IssueFaults(false, false, Some(nonce), Audit.NoFault)
  }

  /** Anyone of the user's name asks for the default lifetime, some time before the year 2255. */
  ghost predicate PlainRequest(env: Env, req: Request, serial: u64) {
    && Matches(req.user) && |req.user| < 1000 && req.principals == [] && req.ttl == 0
    && req.key.Some? && WellFormedKey(req.key.value)
    && 0 <= req.backdate && 0 <= StartOf(req) && NowOf(req) < 9_000_000_000
    && |KeyIDOf(req, serial)| < 0x1_0000_0000 && |env.caPub.blob| < 0x1_0000_0000
  }

  /**
   * The promise fails on a policy that passes validation: every such request is granted, and the
   * certificate is accepted at its start and at every later time while it is unlisted.
   */
  lemma NeverExpires(env: Env, w: World, req: Request, nonce: Nonce, evs: seq<Event>, at: i64)
    requires Correct(env.scheme) && KeyPair(env.scheme, env.caPub, env.caPriv)
    requires w.st.counter != 0 && PlainRequest(env, req, w.st.counter)
    ensures ValidDocument(env.policyLibrary, LongCap(req.user))
    ensures var policy, faults := LongCap(req.user), NoFaults(nonce);
            var r := AfterIssue(env, w.st, policy, req, faults).1;
            && r.Issued? && Parsed(Marshalled(r.cert)).Some?
            && (StartOf(req) <= at && !Listed(LaterList(env, w, policy, req, faults, evs), r.cert) ==>
                  VerdictOf(env, LaterList(env, w, policy, req, faults, evs), Parsed(Marshalled(r.cert)).value, at)
                  == Accepted)
  {
    hide AfterIssue, WellFormedKey, StringsFit, Run, Step, Marshalled, Parsed, VerdictOf, KeyPair, Matches, KeyIDOf,
      LaterList, Listed, NowOf, ParseTTL, CeilSeconds;
    var policy, faults := LongCap(req.user), NoFaults(nonce);
    LongCapGrants(env.policyLibrary, req.user);
    LongCapIssues(env, w.st, req, nonce);
    AcceptedWhen(env, w, policy, req, faults, AfterIssue(env, w.st, policy, req, faults).1, evs, at);
  }

  lemma LongCapGrants(lib: Library, user: bytes)
    requires Matches(user)
    ensures ValidDocument(lib, LongCap(user))
    ensures var p := LongCap(user);
            var cap := MaxTTL(lib, Merged(p.users[user], p.defaults));
            && cap / Krl.SECOND < -9_000_000_000
            && Decide(lib, p, user, [], 0) == Granted(Grant(user, [user], cap, cap, [], [], []))
  {
    hide ParseTTL, Matches, Ascii;
    var p := LongCap(user);
    var rule := Merged(p.users[user], p.defaults);
    DayTTLCanBeNegative(lib);
    assert rule.maxTTL == Ascii("106752d");
    assert |rule.maxTTL| == 7;
    WildcardNoMatch();
    EmptyRequestGranted(lib, p, user, 0);
    NamedOne(user);
  }

  lemma NamedOne(user: bytes)
    requires user != WILDCARD
    ensures Named([user]) == [user]
  {
    assert [user][1..] == [];
    assert WithoutWildcard([user]) == [user] + WithoutWildcard([]) == [user];
    assert Sort(LeBytes, [user]) == Insert(LeBytes, user, Sort(LeBytes, [])) == [user];
  }

  lemma LongCapIssues(env: Env, st: State, req: Request, nonce: Nonce)
    requires KeyPair(env.scheme, env.caPub, env.caPriv) && Correct(env.scheme)
    requires st.counter != 0 && PlainRequest(env, req, st.counter)
    ensures var r := AfterIssue(env, st, LongCap(req.user), req, NoFaults(nonce)).1;
            Returned(env, st, LongCap(req.user), req, NoFaults(nonce), r)
  {
    hide Decide, WellFormedKey, KeyIDOf, AfterIssue, StringsFit, LongCap, MaxTTL, Draft, Signed, CeilSeconds, NowOf,
      IsPrincipalByte, Ed25519Of, Correct, SignedTail, Merged;
    LongCapGrants(env.policyLibrary, req.user);
    GrantIssued(env, st, LongCap(req.user), req, nonce);
    IssuedForm(env, st, LongCap(req.user), req, NoFaults(nonce));
    var g := AfterIssue(env, st, LongCap(req.user), req, NoFaults(nonce)).1.grant;
    PlainCert(env, req, g, st.counter, Some(nonce));
    BackdateCounts(req.backdate);
  }

  /** With a grant, a counter and no failures a certificate is returned. */
  lemma GrantIssued(env: Env, st: State, policy: Document, req: Request, nonce: Nonce)
    requires Decide(env.policyLibrary, policy, req.user, req.principals, req.ttl).Granted?
    requires req.user != [] && req.key.Some? && req.backdate >= 0 && st.counter != 0 && env.caPub.algo == ED25519
    ensures AfterIssue(env, st, policy, req, NoFaults(nonce)).1.Issued?
  {
    hide Decide, Draft, Tbs, Audit.Sealed, IssueEntry;
  }

  lemma PlainCert(env: Env, req: Request, g: Grant, serial: u64, entropy: Option<Nonce>)
    requires PlainRequest(env, req, serial) && g.principals == [req.user]
    requires g.extensions == [] && g.sourceAddress == [] && g.forceCommand == []
    requires Signed(env.scheme, Draft(req, req.key.value, g, serial), env.caPub, env.caPriv, entropy).Some?
    ensures var c := Signed(env.scheme, Draft(req, req.key.value, g, serial), env.caPub, env.caPriv, entropy).value;
            c.key == req.key.value && StringsFit(c)
  {
    hide KeyIDOf, ToU64, StringsFit, Signed, NowOf, CeilSeconds, WellFormedKey, Matches;
    SignedKeeps(env.scheme, Draft(req, req.key.value, g, serial), env.caPub, env.caPriv, entropy);
    ShortStringsFit(Signed(env.scheme, Draft(req, req.key.value, g, serial), env.caPub, env.caPriv, entropy).value);
  }

  lemma ShortStringsFit(c: Cert)
    requires |c.keyID| < 0x1_0000_0000 && |c.signatureKey| < 0x1_0000_0000 && c.reserved == []
    requires |c.principals| == 1 && |c.principals[0]| < 1000 && c.critical == [] && c.extensions == []
    ensures StringsFit(c)
  {
    assert Strs(c.principals) == [Str(c.principals[0])];
    assert Enc(Strs(c.principals)) == EncField(Str(c.principals[0]));
  }

  /** The verdict on a well-formed certificate does not change on the way through its bytes. */
  lemma VerdictThroughBytes(env: Env, revoked: seq<Revocation>, c: Cert, at: i64)
    requires WellFormed(c)
    ensures Parsed(Marshalled(c)).Some?
    ensures VerdictOf(env, revoked, Parsed(Marshalled(c)).value, at) == VerdictOf(env, revoked, c, at)
  {
    hide WellFormed, Marshalled, Parsed, Genuine, ToU64;
    RoundTrip(c);
    GenuineThroughBytes(env.scheme, c, env.caPub);
    CoveredAlike(revoked, c, Parsed(Marshalled(c)).value);
  }

  lemma {:induction false} CoveredAlike(revoked: seq<Revocation>, x: Cert, y: Cert)
    requires x.serial == y.serial && x.keyID == y.keyID
    ensures FirstCovering(revoked, x) == FirstCovering(revoked, y)
  {
    if revoked != [] {
      CoveredAlike(revoked[1..], x, y);
    }
  }

  /** An issued certificate is covered exactly when its serial or its key ID is listed. */
  lemma IssuedCovered(
    env: Env, st: State, policy: Document, req: Request, faults: IssueFaults, r: IssueResult, revoked: seq<Revocation>)
    requires r == AfterIssue(env, st, policy, req, faults).1 && r.Issued?
    ensures FirstCovering(revoked, r.cert) == None <==>
            !SerialListed(revoked, r.cert.serial) && !KeyIDListed(revoked, r.cert.keyID)
  {
    hide Decide, Draft, Signed, AfterIssue;
    IssuedForm(env, st, policy, req, faults);
    IssuedIdentity(env, st, req, r.grant, faults.entropy);
    assert req.user != [] by { IssuedHasUser(env, st, policy, req, faults); }
  }

  lemma IssuedHasUser(env: Env, st: State, policy: Document, req: Request, faults: IssueFaults)
    requires AfterIssue(env, st, policy, req, faults).1.Issued?
    ensures req.user != []
  {
    hide Decide, Draft, Signed;
  }

  lemma IssuedIdentity(env: Env, st: State, req: Request, g: Grant, entropy: Option<Nonce>)
    requires req.key.Some? && st.counter != 0
    requires Signed(env.scheme, Draft(req, req.key.value, g, st.counter), env.caPub, env.caPriv, entropy).Some?
    ensures var c := Signed(env.scheme, Draft(req, req.key.value, g, st.counter), env.caPub, env.caPriv, entropy).value;
            c.serial == st.counter && c.keyID == KeyIDOf(req, st.counter) && c.certType == USER_CERT
            && (req.user != [] ==> c.keyID != [])
  {
    hide Tbs, Decimal;
    SignedKeeps(env.scheme, Draft(req, req.key.value, g, st.counter), env.caPub, env.caPriv, entropy);
  }

  lemma IssuedWindow(
    env: Env, st: State, policy: Document, req: Request, faults: IssueFaults, r: IssueResult, at: i64)
    requires Returned(env, st, policy, req, faults, r)
    ensures req.user in policy.users && r.cert.certType == USER_CERT
    ensures InWindow(r.cert, at) <==> Inside(StartOf(req), EndOf(env, policy, req), at)
    ensures r.cert.validBefore == INFINITE_VALIDITY <==> EndOf(env, policy, req) == -1
    ensures EndOf(env, policy, req) == NowOf(req) + r.grant.ttl / Krl.SECOND
  {
    hide AfterIssue, Decide, InWindow, Draft, Signed, CeilSeconds, WellFormedKey, StringsFit, KeyPair, Inside,
      EffectiveTTL;
    IssuedForm(env, st, policy, req, faults);
    GrantedTTL(env, policy, req, r.grant);
    var draft := Draft(req, req.key.value, r.grant, st.counter);
    SignedKeeps(env.scheme, draft, env.caPub, env.caPriv, faults.entropy);
    DraftWindow(req, req.key.value, r.grant, st.counter);
    BoundsFit(env, policy, req, faults, st, r);
    WindowOf(r.cert, StartOf(req), EndOf(env, policy, req), at);
  }

  lemma DraftWindow(req: Request, key: PublicKey, g: Grant, serial: u64)
    ensures var c := Draft(req, key, g, serial);
            && c.validAfter == ToU64(StartOf(req))
            && c.validBefore == ToU64(NowOf(req) + g.ttl / Krl.SECOND)
            && c.certType == USER_CERT
  {
    hide NowOf, CeilSeconds, KeyIDOf, CriticalOptions, ExtensionOptions, ToU64, Krl.Unix;
    SecondsOf(NowOf(req), req.backdate, g.ttl);
  }

  /** A covered certificate is never accepted again, at any time and in any later state. */
  lemma RevokedStaysRejected(env: Env, w: World, evs: seq<Event>, c: Cert, at: i64)
    requires FirstCovering(w.st.revoked, c).Some?
    ensures VerdictOf(env, Run(env, w, evs).st.revoked, c, at) != Accepted
  {
    hide Run, Genuine, InWindow;
    RevocationPermanent(env, w, evs, c);
  }

  /** Revoking a key ID rejects every certificate issued under it later, too. */
  lemma KeyIDRevocationCoversLaterIssues(
    env: Env, w: World, evs: seq<Event>, policy: Document, req: Request, faults: IssueFaults, r: IssueResult,
    more: seq<Event>, at: i64)
    requires r == AfterIssue(env, Run(env, w, evs).st, policy, req, faults).1 && r.Issued?
    requires KeyIDListed(w.st.revoked, r.cert.keyID)
    ensures var next := Step(env, Run(env, w, evs), Issuing(policy, req, faults));
            VerdictOf(env, Run(env, next, more).st.revoked, r.cert, at) != Accepted
  {
    hide Run, AfterIssue, Genuine, InWindow;
    var mid := Run(env, w, evs);
    var next := Step(env, mid, Issuing(policy, req, faults));
    RunGrows(env, w, evs);
    StepGrows(env, mid, Issuing(policy, req, faults));
    var i :| 0 <= i < |w.st.revoked| && w.st.revoked[i].keyID == r.cert.keyID && w.st.revoked[i].serial == 0;
    assert mid.st.revoked[i] == w.st.revoked[i] == next.st.revoked[i];
    assert KeyIDListed(next.st.revoked, r.cert.keyID);
    IssuedCovered(env, mid.st, policy, req, faults, r, next.st.revoked);
    RevokedStaysRejected(env, next, more, r.cert, at);
  }

  /** The -cert.pub line handed out with the certificate parses to what its bytes parse to. */
  lemma IssuedLineParses(
    env: Env, base64: Base64, st: State, policy: Document, req: Request, faults: IssueFaults, r: IssueResult)
    requires Correct(env.scheme) && KeyPair(env.scheme, env.caPub, env.caPriv) && GoodBase64(base64)
    requires r == AfterIssue(env, st, policy, req, faults).1 && r.Issued?
    requires WellFormedKey(r.cert.key) && StringsFit(r.cert)
    ensures CertificateLines.ParsedLine(base64, CertificateLines.MarshalLine(base64, r.cert, r.cert.keyID)) ==
            Parsed(Marshalled(r.cert))
    ensures Parsed(Marshalled(r.cert)).Some?
  {
    hide AfterIssue, WellFormed, StringsFit, Marshalled, Parsed, CertificateLines.MarshalLine, CertificateLines.ParsedLine;
    IssuedIsGenuine(env, st, policy, req, faults);
    RoundTrip(r.cert);
    CertificateLines.LineRoundTrip(base64, r.cert, r.cert.keyID);
  }
}
