/** internal/ca/ca.go: the persistent state of the authority and what each operation does to it. */
module Authority {
  import opened Basics
  import opened Text
  import opened Keys
  import opened Options
  import opened Certificates
  import opened Signing
  import opened Policy
  import Audit
  import Krl

  /** One entry of revoked.json: either a serial or a key ID is set. */
  datatype Revocation = Revocation(serial: u64, keyID: bytes, time: bytes, reason: bytes)

  /** The three files that operations write: serial, audit.log and revoked.json. */
  datatype State = State(counter: u64, log: seq<Audit.Entry>, revoked: seq<Revocation>)

  /** The CA's key pair and the library functions it uses. */
  datatype Env = Env(
    scheme: Scheme,
    digest: Audit.Digest,
    policyLibrary: Library,
    rfc3339: int -> bytes,
    fingerprint: bytes -> bytes,
    caPub: PublicKey,
    caPriv: bytes)

  /** Points in time are in nanoseconds since 1970; this one is Go's zero time. */
  const ZERO_TIME: int := -62_135_596_800_000_000_000

  /** clock is what time.Now would return. */
  datatype Request = Request(
    user: bytes,
    key: Option<PublicKey>,
    principals: seq<bytes>,
    ttl: i64,
    keyID: bytes,
    backdate: i64,
    now: int,
    clock: int)

  /** Which of the steps of an issuance fail; entropy is None when reading the nonce fails. */
  datatype IssueFaults = IssueFaults(
    serialReadFails: bool,
    serialWriteFails: bool,
    entropy: Option<Nonce>,
    append: Audit.AppendFault)

  datatype IssueResult =
    | NoUser
    | NoKey
    | Refused(denial: Denial)
    | NegativeBackdate
    | SerialError
    | SignError
    | IssueNotLogged
    | Issued(cert: Cert, grant: Grant, entry: Audit.Entry)

  datatype RevokeFaults = RevokeFaults(
    logReadFails: bool,
    listReadFails: bool,
    listWriteFails: bool,
    append: Audit.AppendFault)

  datatype RevokeResult =
    | ReadError
    | NeverIssued
    | EmptyKeyID
    | AlreadyRevoked
    | WriteError
    | RevocationNotLogged
    | Revoked(revocation: Revocation)

  function InitEntry(env: Env): Audit.Entry {
    Audit.Entry(0, [], Audit.Init, [], 0, [], env.fingerprint(env.caPub.blob), [], [], [], [], [])
  }

  function InitialState(env: Env, now: int): State {
    State(1, [Audit.Sealed(env.digest, [], InitEntry(env), env.rfc3339(Krl.Unix(now)))], [])
  }

  // ---------------------------------------------------------------------
  // Issuing
  // ---------------------------------------------------------------------

  /** The moment of issue in whole seconds. */
  function NowOf(req: Request): int {
    Krl.Unix(if req.now == ZERO_TIME then req.clock else req.now)
  }

  /** strconv.FormatUint in base 10. */
  function Decimal(n: nat): bytes {
    if n < 10 then ['0' as int + n] else Decimal(n / 10) + ['0' as int + n % 10]
  }

  function KeyIDOf(req: Request, serial: u64): bytes {
    if req.keyID == [] then req.user + Ascii("@certclerk-") + Decimal(serial) else req.keyID
  }

  function ExtensionOptions(names: seq<bytes>): seq<CertOption> {
    seq(|names|, i requires 0 <= i < |names| => CertOption(names[i], []))
  }

  function CriticalOptions(grant: Grant): seq<CertOption> {
    (if grant.forceCommand != [] then [CertOption(Ascii("force-command"), grant.forceCommand)] else []) +
    (if grant.sourceAddress != [] then [CertOption(Ascii("source-address"), Join(grant.sourceAddress, Ascii(",")))] else [])
  }

  /** The certificate before it is signed. */
  function Draft(req: Request, key: PublicKey, grant: Grant, serial: u64): Cert {
    Cert([], key, serial, USER_CERT, KeyIDOf(req, serial), grant.principals,
         ToU64(Krl.Unix(NowOf(req) * Krl.SECOND - req.backdate)),
         ToU64(Krl.Unix(NowOf(req) * Krl.SECOND + grant.ttl)),
         CriticalOptions(grant), ExtensionOptions(grant.extensions), [], [], [])
  }

  function IssueEntry(env: Env, req: Request, cert: Cert): Audit.Entry {
    Audit.Entry(0, [], Audit.Issue, req.user, cert.serial, cert.keyID, env.fingerprint(cert.key.blob),
                cert.principals, env.rfc3339(Krl.ToI64(cert.validBefore)), [], [], [])
  }

  /** The counter is written before the serial is used, so a failure later burns the serial. */
  function AfterNextSerial(st: State, faults: IssueFaults): (State, Option<u64>) {
    if faults.serialReadFails || st.counter == 0 || faults.serialWriteFails then (st, None)
    else (st.(counter := ToU64(st.counter + 1)), Some(st.counter))
  }

  function AfterSigning(env: Env, st: State, req: Request, grant: Grant, cert: Cert, append: Audit.AppendFault)
    : (State, IssueResult)
  {
    var e, now := IssueEntry(env, req, cert), env.rfc3339(NowOf(req));
    (st.(log := Audit.LogAfter(env.digest, st.log, e, now, append)),
     if append == Audit.NoFault then Issued(cert, grant, Audit.Sealed(env.digest, st.log, e, now)) else IssueNotLogged)
  }

  function AfterGrant(env: Env, st: State, req: Request, key: PublicKey, grant: Grant, faults: IssueFaults)
    : (State, IssueResult)
  {
    var (st1, serial) := AfterNextSerial(st, faults);
    match serial
    case None => (st1, SerialError)
    case Some(n) =>
      match Signed(env.scheme, Draft(req, key, grant, n), env.caPub, env.caPriv, faults.entropy)
      case None => (st1, SignError)
      case Some(cert) => AfterSigning(env, st1, req, grant, cert, faults.append)
  }

  function AfterIssue(env: Env, st: State, policy: Document, req: Request, faults: IssueFaults)
    : (State, IssueResult)
  {
    if req.user == [] then (st, NoUser)
    else if req.key == None then (st, NoKey)
    else
      match Decide(env.policyLibrary, policy, req.user, req.principals, req.ttl)
      case Denied(denial) => (st, Refused(denial))
      case Granted(grant) =>
        if req.backdate < 0 then (st, NegativeBackdate)
        else AfterGrant(env, st, req, req.key.value, grant, faults)
  }

  // ---------------------------------------------------------------------
  // Revoking
  // ---------------------------------------------------------------------

  /** The first issue entry with the serial. */
  function IssueEntryOf(log: seq<Audit.Entry>, serial: u64): (r: Option<Audit.Entry>)
    ensures r.Some? ==> r.value in log && r.value.action == Audit.Issue && r.value.serial == serial
    ensures r == None ==> forall i :: 0 <= i < |log| ==> !(log[i].action == Audit.Issue && log[i].serial == serial)
  {
    if log == [] then None
    else if log[0].action == Audit.Issue && log[0].serial == serial then Some(log[0])
    else IssueEntryOf(log[1..], serial)
  }

  predicate SerialListed(revoked: seq<Revocation>, serial: u64) {
    exists i :: 0 <= i < |revoked| && revoked[i].serial == serial
  }

  predicate KeyIDListed(revoked: seq<Revocation>, keyID: bytes) {
    exists i :: 0 <= i < |revoked| && revoked[i].keyID == keyID && revoked[i].serial == 0
  }

  function RevokeEntry(user: bytes, serial: u64, keyID: bytes, reason: bytes): Audit.Entry {
    Audit.Entry(0, [], Audit.Revoke, user, serial, keyID, [], [], [], reason, [], [])
  }

  /** The list is written before the log entry, so a failure in between leaves the revocation in force. */
  function AfterListing(env: Env, st: State, rev: Revocation, e: Audit.Entry, faults: RevokeFaults)
    : (State, RevokeResult)
  {
    if faults.listWriteFails then (st, WriteError)
    else
      (State(st.counter, Audit.LogAfter(env.digest, st.log, e, rev.time, faults.append), st.revoked + [rev]),
       if faults.append == Audit.NoFault then Revoked(rev) else RevocationNotLogged)
  }

  function AfterRevokeSerial(env: Env, st: State, serial: u64, reason: bytes, now: int, faults: RevokeFaults)
    : (State, RevokeResult)
  {
    if faults.logReadFails then (st, ReadError)
    else
      match IssueEntryOf(st.log, serial)
      case None => (st, NeverIssued)
      case Some(issued) =>
        if faults.listReadFails then (st, ReadError)
        else if SerialListed(st.revoked, serial) then (st, AlreadyRevoked)
        else
          AfterListing(env, st, Revocation(serial, [], env.rfc3339(Krl.Unix(now)), reason),
                       RevokeEntry(issued.user, serial, issued.keyID, reason), faults)
  }

  function AfterRevokeKeyID(env: Env, st: State, keyID: bytes, reason: bytes, now: int, faults: RevokeFaults)
    : (State, RevokeResult)
  {
    if keyID == [] then (st, EmptyKeyID)
    else if faults.listReadFails then (st, ReadError)
    else if KeyIDListed(st.revoked, keyID) then (st, AlreadyRevoked)
    else
      AfterListing(env, st, Revocation(0, keyID, env.rfc3339(Krl.Unix(now)), reason),
                   RevokeEntry([], 0, keyID, reason), faults)
  }

  // ---------------------------------------------------------------------
  // Checking
  // ---------------------------------------------------------------------

  /** A serial revocation covers one certificate, a key ID revocation all that carry the ID. */
  predicate Covers(r: Revocation, c: Cert) {
    if r.serial != 0 then r.serial == c.serial else r.keyID != [] && r.keyID == c.keyID
  }

  function FirstCovering(revoked: seq<Revocation>, c: Cert): (r: Option<Revocation>)
    ensures r.Some? ==> r.value in revoked && Covers(r.value, c)
    ensures r == None <==> forall i :: 0 <= i < |revoked| ==> !Covers(revoked[i], c)
  {
    if revoked == [] then None
    else if Covers(revoked[0], c) then Some(revoked[0])
    else FirstCovering(revoked[1..], c)
  }

  datatype Verdict = Accepted | NotUserCertificate | NotGenuine | OutsideWindow | CheckFailed | IsRevokedBy(r: Revocation)

  function VerdictOf(env: Env, revoked: seq<Revocation>, c: Cert, at: int): Verdict {
    if c.certType != USER_CERT then NotUserCertificate
    else if !Genuine(env.scheme, c, env.caPub) then NotGenuine
    else if !InWindow(c, at) then OutsideWindow
    else
      match FirstCovering(revoked, c)
      case Some(r) => IsRevokedBy(r)
      case None => Accepted
  }

  function RevokedSerials(revoked: seq<Revocation>): (r: seq<u64>)
    ensures forall s :: s in r <==> exists i :: 0 <= i < |revoked| && revoked[i].serial == s && s != 0
  {
    if revoked == [] then []
    else (if revoked[0].serial != 0 then [revoked[0].serial] else []) + RevokedSerials(revoked[1..])
  }

  function RevokedKeyIDs(revoked: seq<Revocation>): (r: seq<bytes>)
    ensures forall k :: k in r <==> exists i :: 0 <= i < |revoked| && revoked[i].serial == 0 && revoked[i].keyID == k && k != []
  {
    if revoked == [] then []
    else (if revoked[0].serial == 0 && revoked[0].keyID != [] then [revoked[0].keyID] else []) + RevokedKeyIDs(revoked[1..])
  }

  /** The list that KRL exports. */
  function KrlOf(env: Env, revoked: seq<Revocation>, now: int): Krl.RevocationList {
    Krl.RevocationList(ToU64(|revoked|), now, Ascii("certclerk revocation list"), env.caPub.blob,
                       RevokedSerials(revoked), RevokedKeyIDs(revoked))
  }

  lemma {:induction false} RevokedSnoc(revoked: seq<Revocation>, r: Revocation)
    ensures RevokedSerials(revoked + [r]) == RevokedSerials(revoked) + (if r.serial != 0 then [r.serial] else [])
    ensures RevokedKeyIDs(revoked + [r]) ==
            RevokedKeyIDs(revoked) + (if r.serial == 0 && r.keyID != [] then [r.keyID] else [])
  {
    if revoked == [] {
      assert [] + [r] == [r] && [r][1..] == [];
    } else {
      assert (revoked + [r])[1..] == revoked[1..] + [r];
      RevokedSnoc(revoked[1..], r);
    }
  }
}
