/** The Certificate object of internal/sshcert/cert.go and its operations on buffers and readers. */
module SshCert {
  import opened Basics
  import opened Wire
  import opened Keys
  import opened Options
  import opened Certificates
  import opened Signing

  class Certificate {
    var nonce: bytes
    var key: PublicKey
    var serial: u64
    var certType: u32
    var keyID: bytes
    var principals: seq<bytes>
    var validAfter: u64
    var validBefore: u64
    var critical: seq<CertOption>
    var extensions: seq<CertOption>
    var reserved: bytes
    var signatureKey: bytes
    var signature: bytes

    constructor (key: PublicKey)
      ensures Value() == Cert([], key, 0, 0, [], [], 0, 0, [], [], [], [], [])
    {
      nonce, this.key, serial, certType, keyID := [], key, 0, 0, [];
      principals, validAfter, validBefore := [], 0, 0;
      critical, extensions, reserved, signatureKey, signature := [], [], [], [], [];
    }

    function Value(): Cert
      reads this
    {
      Cert(nonce, key, serial, certType, keyID, principals, validAfter, validBefore,
           critical, extensions, reserved, signatureKey, signature)
    }

    method TbsBytes() returns (r: bytes)
      ensures r == Tbs(Value())
    {
      hide EncField, Enc, KeyFieldsOf, CertAlgo, SignedTail;
      var w := new Buffer();
      w.String(CertAlgo(key.algo));
      assert w.b == EncField(Str(CertAlgo(key.algo)));
      w.Bytes32(nonce);
      var keyFields := KeyFields(key);
      w.Raw(keyFields);
      WriteIdentity(w);
      WriteConstraints(w);
      ghost var t := SignedTail(Value());
      assert t == t[..4] + t[4..];
      EncAppend(t[..4], t[4..]);
      r := w.Bytes();
    }

    /** The serial number to the principals. */
    method WriteIdentity(w: Buffer)
      modifies w
      ensures w.b == old(w.b) + Enc(SignedTail(Value())[..4])
    {
      hide EncField, Enc, Strs, SignedTail;
      ghost var head, t := w.b, SignedTail(Value());
      SignedTailIs(Value());
      w.Uint64(serial);
      Grown(head, t, 0);
      assert w.b == head + Enc(t[..1]);
      w.Uint32(certType);
      Grown(head, t, 1);
      assert w.b == head + Enc(t[..2]);
      w.String(keyID);
      Grown(head, t, 2);
      assert w.b == head + Enc(t[..3]);
      var list := PackStringList(principals);
      w.Bytes32(list);
      Grown(head, t, 3);
      assert w.b == head + Enc(t[..4]);
    }

    /** The validity window to the signature key. */
    method WriteConstraints(w: Buffer)
      modifies w
      ensures w.b == old(w.b) + Enc(SignedTail(Value())[4..])
    {
      hide EncField, Enc, Packed, SignedTail;
      ghost var head, t := w.b, SignedTail(Value())[4..];
      SignedTailIs(Value());
      w.Uint64(validAfter);
      Grown(head, t, 0);
      assert w.b == head + Enc(t[..1]);
      w.Uint64(validBefore);
      Grown(head, t, 1);
      assert w.b == head + Enc(t[..2]);
      var crit := PackOptions(critical);
      w.Bytes32(crit);
      Grown(head, t, 2);
      assert w.b == head + Enc(t[..3]);
      var exts := PackOptions(extensions);
      w.Bytes32(exts);
      Grown(head, t, 3);
      assert w.b == head + Enc(t[..4]);
      w.Bytes32(reserved);
      Grown(head, t, 4);
      assert w.b == head + Enc(t[..5]);
      w.Bytes32(signatureKey);
      Grown(head, t, 5);
      assert w.b == head + Enc(t[..6]);
      assert t[..6] == t;
    }

    /** entropy is the 32 bytes read from the random source, None when the read fails. */
    method Sign(scheme: Scheme, caPub: PublicKey, priv: bytes, entropy: Option<Nonce>) returns (ok: bool)
      modifies this
      ensures match Signed(scheme, old(Value()), caPub, priv, entropy)
              case None => !ok && Value() == old(Value())
              case Some(signed) => ok && Value() == signed
    {
      hide EncField, Tbs;
      if caPub.algo != ED25519 {
        return false;
      }
      if |nonce| == 0 {
        if entropy == None {
          return false;
        }
        nonce := entropy.value;
      }
      signatureKey := caPub.blob;
      var tbs := TbsBytes();
      var sig := scheme.sign(priv, tbs);
      var w := new Buffer();
      w.String(ED25519);
      w.Bytes32(sig);
      assert [] + EncField(Str(ED25519)) == EncField(Str(ED25519));
      signature := w.Bytes();
      ok := true;
    }

    method Marshal() returns (r: bytes)
      ensures r == Marshalled(Value())
    {
      hide EncField, Tbs;
      var w := new Buffer();
      var tbs := TbsBytes();
      w.Raw(tbs);
      w.Bytes32(signature);
      assert [] + tbs == tbs;
      r := w.Bytes();
    }

    method SignatureCA() returns (ca: Option<PublicKey>)
      ensures ca == SignatureCAOf(Value())
    {
      hide PubKeyFieldCount;
      var r := new Reader(signatureKey);
      var algo := r.String();
      if algo == None || !Known(algo.value) {
        return None;
      }
      return Some(PublicKey(algo.value, signatureKey, []));
    }

    method Verify(scheme: Scheme, caPub: PublicKey) returns (ok: bool)
      ensures ok <==> Genuine(scheme, Value(), caPub)
    {
      hide SignatureCAOf, Ed25519Of, Tbs, GetField;
      var ca := SignatureCA();
      if ca == None || ca.value.blob != caPub.blob {
        return false;
      }
      var pk := Ed25519(caPub);
      if pk == None {
        return false;
      }
      var r := new Reader(signature);
      ghost var ks := [KStr, KStr];
      DecPrefix(ks, 0, signature);
      DecPrefix(ks, 1, signature);
      assert ks[..0] == [] && ks[..2] == ks;
      var algo := r.String();
      if algo == None || algo.value != ED25519 {
        return false;
      }
      var raw := r.Bytes32();
      var whole := r.Empty();
      if raw == None || !whole {
        return false;
      }
      var tbs := TbsBytes();
      ok := scheme.verify(pk.value, tbs, raw.value);
    }

    method ValidAt(t: int) returns (ok: bool)
      ensures ok <==> InWindow(Value(), t)
    {
      var ts := ToU64(t);
      if ts < validAfter {
        return false;
      }
      if validBefore != INFINITE_VALIDITY && ts >= validBefore {
        return false;
      }
      ok := true;
    }
  }

  lemma SignedTailIs(c: Cert)
    ensures var t := SignedTail(c);
            && t[0] == U64(c.serial) && t[1] == U32(c.certType) && t[2] == Str(c.keyID)
            && t[3] == Str(Enc(Strs(c.principals))) && t[4] == U64(c.validAfter) && t[5] == U64(c.validBefore)
            && t[6] == Str(Packed(c.critical)) && t[7] == Str(Packed(c.extensions))
            && t[8] == Str(c.reserved) && t[9] == Str(c.signatureKey)
  {
  }

  /** What one more write does to a buffer that holds the first i fields. */
  lemma Grown(head: bytes, t: seq<Field>, i: nat)
    requires i < |t|
    ensures i == 0 ==> head == head + Enc(t[..0])
    ensures head + Enc(t[..i]) + EncField(t[i]) == head + Enc(t[..i + 1])
  {
    assert t[..i + 1] == t[..i] + [t[i]];
    EncSnoc(t[..i], t[i]);
  }

  /** Whatever follows, this body makes no certificate. */
  ghost predicate BodyRejected(algo: bytes, rest: bytes)
    requires Known(algo)
  {
    match Dec(BodyKinds(FieldCount(algo)), rest)
    case None => true
    case Some((fs, _)) => HasKinds(BodyKinds(FieldCount(algo)), fs) ==> Assembled(algo, fs) == None
  }

  /** One read of the body: the fields so far grow by the one read, or there is no certificate. */
  lemma ReadPart(algo: bytes, rest: bytes, i: nat, fs: seq<Field>, before: bytes, after: bytes, read: Option<Field>)
    requires Known(algo) && i < FieldCount(algo) + 12
    requires Reading(BodyKinds(FieldCount(algo)), rest, i, fs, before)
    requires ReadStep(BodyKinds(FieldCount(algo))[i], before, after, read)
    ensures match read
            case None => BodyRejected(algo, rest)
            case Some(f) => Reading(BodyKinds(FieldCount(algo)), rest, i + 1, fs + [f], after)
  {
    hide BodyKinds, Dec, GetField, PubKeyFieldCount, Reading;
    ReadNext(BodyKinds(FieldCount(algo)), rest, i, fs, before, after, read);
  }

  /** A part that has been read and is not acceptable spoils the whole. */
  lemma BadPart(algo: bytes, rest: bytes, i: nat, fs: seq<Field>, b: bytes)
    requires Known(algo) && i <= FieldCount(algo) + 12 && Reading(BodyKinds(FieldCount(algo)), rest, i, fs, b)
    requires var n := FieldCount(algo);
             || (i > n + 2 && fs[n + 2].U32? && fs[n + 2].v32 !in {USER_CERT, HOST_CERT})
             || (i > n + 4 && fs[n + 4].Str? && DecStrings(fs[n + 4].s) == None)
             || (i > n + 7 && fs[n + 7].Str? && Unpacked(fs[n + 7].s) == None)
             || (i > n + 8 && fs[n + 8].Str? && Unpacked(fs[n + 8].s) == None)
    ensures BodyRejected(algo, rest)
  {
    hide BodyKinds, Dec, Unpacked, DecStrings, Enc, PubKeyFieldCount;
    ReadSoFar(BodyKinds(FieldCount(algo)), rest, i, fs, b);
  }

  /** Parsing in terms of the body once the algorithm name is read. */
  lemma ParsedFromBody(blob: bytes, name: bytes, rest: bytes, algo: bytes)
    requires GetField(KStr, blob) == Some((Str(name), rest)) && BaseAlgo(name) == Some(algo)
    ensures var n := FieldCount(algo);
            match Dec(BodyKinds(n), rest)
            case None => Parsed(blob) == None
            case Some((fs, end)) =>
              && HasKinds(BodyKinds(n), fs)
              && Parsed(blob) == (if end != [] then None else Assembled(algo, fs))
    ensures BodyRejected(algo, rest) ==> Parsed(blob) == None
  {
    hide PubKeyFieldCount, BodyKinds, BaseAlgo, Assembled;
    var n := FieldCount(algo);
    match Dec(BodyKinds(n), rest)
    case None =>
    case Some((fs, end)) => DecExact(BodyKinds(n), rest, fs, end);
  }

  method ParseCertificate(blob: bytes) returns (c: Certificate?)
    ensures match Parsed(blob)
            case None => c == null
            case Some(v) => c != null && fresh(c) && c.Value() == v
  {
    hide PubKeyFieldCount, BaseAlgo, BodyKinds, Dec, GetField, Parsed, BodyRejected, Assembled;
    var r := new Reader(blob);
    var algoName := r.String();
    ParsedWithoutName(blob);
    if algoName == None {
      return null;
    }
    var keyAlgo := BaseAlgo(algoName.value);
    if keyAlgo == None {
      return null;
    }
    ParsedFromBody(blob, algoName.value, r.b, keyAlgo.value);
    c := new Certificate(PublicKey(keyAlgo.value, [], []));
    var ok, _ := ParseBody(r, c, keyAlgo.value);
    if !ok {
      return null;
    }
    var whole := r.Empty();
    if !whole {
      return null;
    }
  }

  /** Everything after the algorithm name. */
  method ParseBody(r: Reader, c: Certificate, algo: bytes) returns (ok: bool, ghost fs: seq<Field>)
    requires Known(algo)
    modifies r, c
    ensures !ok ==> BodyRejected(algo, old(r.b))
    ensures ok ==> Dec(BodyKinds(FieldCount(algo)), old(r.b)) == Some((fs, r.b))
    ensures ok ==> HasKinds(BodyKinds(FieldCount(algo)), fs) && Assembled(algo, fs) == Some(c.Value())
  {
    hide PubKeyFieldCount, BodyKinds, Dec, GetField, Reading, BodyRejected, Assembled;
    hide Extends, KeyRead, IdentityRead, ConstraintsRead, SignatureRead;
    var n := PubKeyFieldCount(algo).value;
    ghost var rest := r.b;
    ghost var read;
    ok, read := ParseCertifiedKey(r, c, algo);
    if !ok {
      return false, [];
    }
    ghost var read1, read2;
    ok, read1 := ParseIdentity(r, c, n, algo, rest, read);
    if !ok {
      return false, [];
    }
    ok, read2 := ParseConstraints(r, c, n, algo, rest, read1);
    if !ok {
      return false, [];
    }
    ok, fs := ParseSignature(r, c, n, algo, rest, read2);
    if !ok {
      return false, [];
    }
    ReadSoFar(BodyKinds(n), rest, n + 12, fs, r.b);
    CertificateOf(algo, read, read1, read2, fs, c.Value());
  }

  /** The nonce and the certified key. */
  method ParseCertifiedKey(r: Reader, c: Certificate, algo: bytes) returns (ok: bool, ghost fs: seq<Field>)
    requires Known(algo)
    modifies r, c`nonce, c`key
    ensures !ok ==> BodyRejected(algo, old(r.b))
    ensures ok ==> Reading(BodyKinds(FieldCount(algo)), old(r.b), FieldCount(algo) + 1, fs, r.b)
    ensures ok ==> KeyRead(FieldCount(algo), fs, c.nonce, algo, c.key)
  {
    hide PubKeyFieldCount, BodyKinds, Dec, GetField, EncField, Enc, Reading, BodyRejected;
    ghost var n, rest := FieldCount(algo), r.b;
    BodyKindsAt(n);
    StartReading(BodyKinds(n), rest);
    var nonce := r.Bytes32();
    ReadPart(algo, rest, 0, [], rest, r.b, Read(nonce));
    if nonce == None {
      return false, [];
    }
    c.nonce := nonce.value;
    var keyBlob;
    ok, keyBlob, fs := ParseKeyFields(r, algo, rest, [] + [Str(nonce.value)]);
    if !ok {
      return false, [];
    }
    c.key := PublicKey(algo, keyBlob, []);
  }

  ghost predicate Extends(long: seq<Field>, short: seq<Field>) {
    |short| <= |long| && forall i :: 0 <= i < |short| ==> long[i] == short[i]
  }

  ghost predicate KeyRead(n: nat, fs: seq<Field>, nonce: bytes, algo: bytes, key: PublicKey) {
    && |fs| == n + 1
    && fs[0] == Str(nonce) && key == PublicKey(algo, EncField(Str(algo)) + Enc(fs[1..]), [])
  }

  ghost predicate IdentityRead(
    n: nat, fs: seq<Field>, serial: u64, certType: u32, keyID: bytes, principals: seq<bytes>)
  {
    && |fs| == n + 5
    && fs[n + 1] == U64(serial) && fs[n + 2] == U32(certType) && fs[n + 3] == Str(keyID)
    && (certType == USER_CERT || certType == HOST_CERT)
    && fs[n + 4].Str? && DecStrings(fs[n + 4].s) == Some(principals)
  }

  ghost predicate ConstraintsRead(
    n: nat, fs: seq<Field>, validAfter: u64, validBefore: u64, critical: seq<CertOption>, extensions: seq<CertOption>)
  {
    && |fs| == n + 9
    && fs[n + 5] == U64(validAfter) && fs[n + 6] == U64(validBefore)
    && fs[n + 7].Str? && Unpacked(fs[n + 7].s) == Some(critical)
    && fs[n + 8].Str? && Unpacked(fs[n + 8].s) == Some(extensions)
  }

  ghost predicate SignatureRead(n: nat, fs: seq<Field>, reserved: bytes, signatureKey: bytes, signature: bytes) {
    && |fs| == n + 12
    && fs[n + 9] == Str(reserved) && fs[n + 10] == Str(signatureKey) && fs[n + 11] == Str(signature)
  }

  /** Reassembles the certified key's own blob from the fields embedded in the certificate. */
  method ParseKeyFields(r: Reader, algo: bytes, ghost rest: bytes, ghost read: seq<Field>)
    returns (ok: bool, blob: bytes, ghost fs: seq<Field>)
    requires Known(algo) && Reading(BodyKinds(FieldCount(algo)), rest, 1, read, r.b)
    modifies r
    ensures !ok ==> BodyRejected(algo, rest)
    ensures ok ==> Reading(BodyKinds(FieldCount(algo)), rest, FieldCount(algo) + 1, fs, r.b)
    ensures ok ==> |fs| == FieldCount(algo) + 1 && fs[0] == read[0] && blob == EncField(Str(algo)) + Enc(fs[1..])
  {
    hide PubKeyFieldCount, BodyKinds, GetField, EncField, Enc, Reading, BodyRejected;
    var n := PubKeyFieldCount(algo).value;
    BodyKindsAt(n);
    fs := read;
    ReadSoFar(BodyKinds(n), rest, 1, fs, r.b);
    var kw := new Buffer();
    kw.String(algo);
    EmptyEnc();
    assert kw.b == EncField(Str(algo)) && fs[1..] == [];
    for i := 0 to n
      invariant Reading(BodyKinds(n), rest, i + 1, fs, r.b) && |fs| == i + 1 && fs[0] == read[0]
      invariant kw.b == EncField(Str(algo)) + Enc(fs[1..])
    {
      ghost var at := r.b;
      var f := r.Bytes32();
      ReadPart(algo, rest, i + 1, fs, at, r.b, Read(f));
      if f == None {
        return false, [], fs;
      }
      EncSnoc(fs[1..], Str(f.value));
      assert (fs + [Str(f.value)])[1..] == fs[1..] + [Str(f.value)];
      kw.Bytes32(f.value);
      fs := fs + [Str(f.value)];
    }
    blob := kw.Bytes();
    ok := true;
  }

  /** The certificate that the parts read, each on top of the one before, make up. */
  lemma CertificateOf(
    algo: bytes, fs0: seq<Field>, fs1: seq<Field>, fs2: seq<Field>, fs: seq<Field>, c: Cert)
    requires Known(algo) && HasKinds(BodyKinds(FieldCount(algo)), fs)
    requires Extends(fs1, fs0) && Extends(fs2, fs1) && Extends(fs, fs2)
    requires KeyRead(FieldCount(algo), fs0, c.nonce, algo, c.key)
    requires IdentityRead(FieldCount(algo), fs1, c.serial, c.certType, c.keyID, c.principals)
    requires ConstraintsRead(FieldCount(algo), fs2, c.validAfter, c.validBefore, c.critical, c.extensions)
    requires SignatureRead(FieldCount(algo), fs, c.reserved, c.signatureKey, c.signature)
    ensures Assembled(algo, fs) == Some(c)
  {
    hide PubKeyFieldCount, BodyKinds, Unpacked, DecStrings, Enc, EncField;
    assert fs[1..FieldCount(algo) + 1] == fs0[1..];
  }

  /** The serial number to the principals. */
  method ParseIdentity(r: Reader, c: Certificate, n: nat, ghost algo: bytes, ghost rest: bytes, ghost read: seq<Field>)
    returns (ok: bool, ghost fs: seq<Field>)
    requires Known(algo) && n == FieldCount(algo) && Reading(BodyKinds(n), rest, n + 1, read, r.b)
    modifies r, c`serial, c`certType, c`keyID, c`principals
    ensures !ok ==> BodyRejected(algo, rest)
    ensures ok ==> Reading(BodyKinds(n), rest, n + 5, fs, r.b) && Extends(fs, read)
    ensures ok ==> IdentityRead(n, fs, c.serial, c.certType, c.keyID, c.principals)
  {
    hide PubKeyFieldCount, BodyKinds, Dec, GetField, Enc, Reading, Unpacked, DecStrings, BodyRejected;
    BodyKindsAt(n);
    fs := read;
    ghost var at := r.b;
    ReadSoFar(BodyKinds(n), rest, n + 1, fs, r.b);
    var serial := r.Uint64();
    ReadPart(algo, rest, n + 1, fs, at, r.b, match serial case None => None case Some(v) => Some(U64(v)));
    if serial == None {
      return false, fs;
    }
    fs, at := fs + [U64(serial.value)], r.b;
    c.serial := serial.value;
    var certType := r.Uint32();
    ReadPart(algo, rest, n + 2, fs, at, r.b, match certType case None => None case Some(v) => Some(U32(v)));
    if certType == None {
      return false, fs;
    }
    fs, at := fs + [U32(certType.value)], r.b;
    c.certType := certType.value;
    if c.certType != USER_CERT && c.certType != HOST_CERT {
      BadPart(algo, rest, n + 3, fs, r.b);
      return false, fs;
    }
    var keyID := r.String();
    ReadPart(algo, rest, n + 3, fs, at, r.b, Read(keyID));
    if keyID == None {
      return false, fs;
    }
    fs, at := fs + [Str(keyID.value)], r.b;
    c.keyID := keyID.value;
    var list := r.Bytes32();
    ReadPart(algo, rest, n + 4, fs, at, r.b, Read(list));
    if list == None {
      return false, fs;
    }
    fs, at := fs + [Str(list.value)], r.b;
    var principals := StringList(list.value);
    if principals == None {
      BadPart(algo, rest, n + 5, fs, r.b);
      return false, fs;
    }
    c.principals := principals.value;
    ok := true;
  }

  /** The validity window to the extensions. */
  method ParseConstraints(r: Reader, c: Certificate, n: nat, ghost algo: bytes, ghost rest: bytes, ghost read: seq<Field>)
    returns (ok: bool, ghost fs: seq<Field>)
    requires Known(algo) && n == FieldCount(algo) && Reading(BodyKinds(n), rest, n + 5, read, r.b)
    modifies r, c`validAfter, c`validBefore, c`critical, c`extensions
    ensures !ok ==> BodyRejected(algo, rest)
    ensures ok ==> Reading(BodyKinds(n), rest, n + 9, fs, r.b) && Extends(fs, read)
    ensures ok ==> ConstraintsRead(n, fs, c.validAfter, c.validBefore, c.critical, c.extensions)
  {
    hide PubKeyFieldCount, BodyKinds, Dec, GetField, Enc, Reading, Unpacked, DecStrings, BodyRejected;
    BodyKindsAt(n);
    fs := read;
    ghost var at := r.b;
    ReadSoFar(BodyKinds(n), rest, n + 5, fs, r.b);
    var validAfter := r.Uint64();
    ReadPart(algo, rest, n + 5, fs, at, r.b, match validAfter case None => None case Some(v) => Some(U64(v)));
    if validAfter == None {
      return false, fs;
    }
    fs, at := fs + [U64(validAfter.value)], r.b;
    c.validAfter := validAfter.value;
    var validBefore := r.Uint64();
    ReadPart(algo, rest, n + 6, fs, at, r.b, match validBefore case None => None case Some(v) => Some(U64(v)));
    if validBefore == None {
      return false, fs;
    }
    fs, at := fs + [U64(validBefore.value)], r.b;
    c.validBefore := validBefore.value;
    var crit := r.Bytes32();
    ReadPart(algo, rest, n + 7, fs, at, r.b, Read(crit));
    if crit == None {
      return false, fs;
    }
    fs, at := fs + [Str(crit.value)], r.b;
    var critical := UnpackOptions(crit.value);
    if critical == None {
      BadPart(algo, rest, n + 8, fs, r.b);
      return false, fs;
    }
    c.critical := critical.value;
    var exts := r.Bytes32();
    ReadPart(algo, rest, n + 8, fs, at, r.b, Read(exts));
    if exts == None {
      return false, fs;
    }
    fs, at := fs + [Str(exts.value)], r.b;
    var extensions := UnpackOptions(exts.value);
    if extensions == None {
      BadPart(algo, rest, n + 9, fs, r.b);
      return false, fs;
    }
    c.extensions := extensions.value;
    ok := true;
  }

  /** The reserved field to the signature. */
  method ParseSignature(r: Reader, c: Certificate, n: nat, ghost algo: bytes, ghost rest: bytes, ghost read: seq<Field>)
    returns (ok: bool, ghost fs: seq<Field>)
    requires Known(algo) && n == FieldCount(algo) && Reading(BodyKinds(n), rest, n + 9, read, r.b)
    modifies r, c`reserved, c`signatureKey, c`signature
    ensures !ok ==> BodyRejected(algo, rest)
    ensures ok ==> Reading(BodyKinds(n), rest, n + 12, fs, r.b) && Extends(fs, read)
    ensures ok ==> SignatureRead(n, fs, c.reserved, c.signatureKey, c.signature)
  {
    hide PubKeyFieldCount, BodyKinds, Dec, GetField, Enc, Reading, Unpacked, DecStrings, BodyRejected;
    BodyKindsAt(n);
    fs := read;
    ghost var at := r.b;
    ReadSoFar(BodyKinds(n), rest, n + 9, fs, r.b);
    var reserved := r.Bytes32();
    ReadPart(algo, rest, n + 9, fs, at, r.b, Read(reserved));
    if reserved == None {
      return false, fs;
    }
    fs, at := fs + [Str(reserved.value)], r.b;
    c.reserved := reserved.value;
    var signatureKey := r.Bytes32();
    ReadPart(algo, rest, n + 10, fs, at, r.b, Read(signatureKey));
    if signatureKey == None {
      return false, fs;
    }
    fs, at := fs + [Str(signatureKey.value)], r.b;
    c.signatureKey := signatureKey.value;
    var signature := r.Bytes32();
    ReadPart(algo, rest, n + 11, fs, at, r.b, Read(signature));
    if signature == None {
      return false, fs;
    }
    fs, at := fs + [Str(signature.value)], r.b;
    c.signature := signature.value;
    ok := true;
  }

  function Read(r: Option<bytes>): Option<Field> {
    match r
    case None => None
    case Some(s) => Some(Str(s))
  }

  lemma EmptyEnc()
    ensures Enc([]) == []
  {
  }

  lemma ParsedWithoutName(blob: bytes)
    ensures GetField(KStr, blob) == None ==> Parsed(blob) == None
    ensures GetField(KStr, blob).Some? && BaseAlgo(GetField(KStr, blob).value.0.s) == None ==> Parsed(blob) == None
  {
  }
}
