/** internal/sshcert/cert.go: what certificates are, their bytes and the parser's results. */
module Certificates {
  import opened Basics
  import opened Text
  import opened Wire
  import opened Keys
  import opened Options

  const USER_CERT: u32 := 1
  const HOST_CERT: u32 := 2

  /** OpenSSH's "forever" sentinel. */
  const INFINITE_VALIDITY: u64 := MAX_U64

  const CERT_SUFFIX: bytes := Ascii("-cert-v01@openssh.com")

  datatype Cert = Cert(
    nonce: bytes,
    key: PublicKey,
    serial: u64,
    certType: u32,
    keyID: bytes,
    principals: seq<bytes>,
    validAfter: u64,
    validBefore: u64,
    critical: seq<CertOption>,
    extensions: seq<CertOption>,
    reserved: bytes,
    signatureKey: bytes,
    signature: bytes)

  // ---------------------------------------------------------------------
  // Algorithm names
  // ---------------------------------------------------------------------

  function CertAlgo(keyAlgo: bytes): bytes {
    match CutSuffix(keyAlgo, OPENSSH)
    case Some(base) => base + CERT_SUFFIX
    case None => keyAlgo + CERT_SUFFIX
  }

  function BaseAlgo(name: bytes): (r: Option<bytes>)
    ensures r.Some? ==> Known(r.value)
  {
    match CutSuffix(name, CERT_SUFFIX)
    case None => None
    case Some(trimmed) =>
      if Known(trimmed) then Some(trimmed)
      else if Known(trimmed + OPENSSH) then Some(trimmed + OPENSSH)
      else None
  }

  lemma CutSuffixOf(base: bytes, suffix: bytes)
    ensures CutSuffix(base + suffix, suffix) == Some(base)
  {
    var r := CutSuffix(base + suffix, suffix);
    assert r.Some? && base + suffix == r.value + suffix;
    assert |r.value| == |base|;
    assert (base + suffix)[..|base|] == base && (r.value + suffix)[..|base|] == r.value;
  }

  /** No algorithm of the table is another one followed by "@openssh.com". */
  lemma TableUnambiguous(algo: bytes)
    requires Known(algo + OPENSSH)
    ensures !Known(algo)
  {
    assert |OPENSSH| == 12;
    assert algo != [] ==> (algo + OPENSSH)[0] == algo[0];
  }

  /** The certificate algorithm determines the key algorithm. */
  lemma BaseOfCertAlgo(algo: bytes)
    requires Known(algo)
    ensures BaseAlgo(CertAlgo(algo)) == Some(algo)
  {
    hide PubKeyFieldCount, CutSuffix;
    match CutSuffix(algo, OPENSSH)
    case Some(base) =>
      CutSuffixOf(base, CERT_SUFFIX);
      assert base + OPENSSH == algo;
      TableUnambiguous(base);
    case None => CutSuffixOf(algo, CERT_SUFFIX);
  }

  // ---------------------------------------------------------------------
  // Layout
  // ---------------------------------------------------------------------

  /** Everything the signature covers after the certified key. */
  function SignedTail(c: Cert): (fs: seq<Field>)
    ensures |fs| == 10
  {
    [U64(c.serial), U32(c.certType), Str(c.keyID), Str(Enc(Strs(c.principals))),
     U64(c.validAfter), U64(c.validBefore),
     Str(Packed(c.critical)), Str(Packed(c.extensions)),
     Str(c.reserved), Str(c.signatureKey)]
  }

  function TailKinds(): (ks: seq<Kind>)
    ensures |ks| == 10
  {
    [K64, K32, KStr, KStr, K64, K64, KStr, KStr, KStr, KStr]
  }

  /** The signed bytes. */
  function Tbs(c: Cert): bytes {
    EncField(Str(CertAlgo(c.key.algo))) + EncField(Str(c.nonce)) + KeyFieldsOf(c.key) + Enc(SignedTail(c))
  }

  function Marshalled(c: Cert): bytes {
    Tbs(c) + EncField(Str(c.signature))
  }

  /** The fields after the algorithm name that the signature covers. */
  function SignedKinds(n: nat): (ks: seq<Kind>)
    ensures |ks| == n + 11
  {
    [KStr] + Strings(n) + TailKinds()
  }

  function BodyKinds(n: nat): (ks: seq<Kind>)
    ensures |ks| == n + 12
  {
    SignedKinds(n) + [KStr]
  }

  function FieldCount(algo: bytes): nat
    requires Known(algo)
  {
    PubKeyFieldCount(algo).value
  }

  function SignedFields(c: Cert): (fs: seq<Field>)
    requires WellFormedKey(c.key)
    ensures |fs| == FieldCount(c.key.algo) + 11
  {
    [Str(c.nonce)] + KeyItems(c.key) + SignedTail(c)
  }

  /** Fields are below 2^32 bytes, so every length prefix is the length. */
  predicate Signable(c: Cert) {
    WellFormedKey(c.key) && Str(c.nonce).Fits() && forall i :: 0 <= i < 10 ==> SignedTail(c)[i].Fits()
  }

  predicate WellFormed(c: Cert) {
    Signable(c) && c.certType in {USER_CERT, HOST_CERT} && Str(c.signature).Fits()
  }

  lemma SignedLayout(c: Cert)
    requires Signable(c)
    ensures HasKinds(SignedKinds(FieldCount(c.key.algo)), SignedFields(c))
    ensures Tbs(c) == EncField(Str(CertAlgo(c.key.algo))) + Enc(SignedFields(c))
    ensures Str(CertAlgo(c.key.algo)).Fits()
  {
    hide PubKeyFieldCount, EncField, WellFormedKey, KeyFieldsOf, Packed, CertAlgo;
    var n := FieldCount(c.key.algo);
    var items, tail := KeyItems(c.key), SignedTail(c);
    assert HasKinds(TailKinds(), tail);
    assert HasKinds([KStr] + Strings(n), [Str(c.nonce)] + items);
    assert HasKinds(SignedKinds(n), SignedFields(c)) by {
      HasKindsAppend([KStr] + Strings(n), [Str(c.nonce)] + items, TailKinds(), tail);
    }
    EncAppend([Str(c.nonce)] + items, tail);
    assert ([Str(c.nonce)] + items)[1..] == items;
    assert Enc([Str(c.nonce)] + items) == EncField(Str(c.nonce)) + Enc(items);
    CertAlgoLength(c.key.algo);
  }

  lemma CertAlgoLength(algo: bytes)
    requires Known(algo)
    ensures |CertAlgo(algo)| <= |algo| + |CERT_SUFFIX| < 100
  {
  }

  lemma HasKindsAppend(ks1: seq<Kind>, fs1: seq<Field>, ks2: seq<Kind>, fs2: seq<Field>)
    requires HasKinds(ks1, fs1) && HasKinds(ks2, fs2)
    ensures HasKinds(ks1 + ks2, fs1 + fs2)
  {
  }

  lemma MarshalledLayout(c: Cert)
    requires WellFormed(c)
    ensures HasKinds(BodyKinds(FieldCount(c.key.algo)), SignedFields(c) + [Str(c.signature)])
    ensures Marshalled(c) ==
            EncField(Str(CertAlgo(c.key.algo))) + Enc(SignedFields(c) + [Str(c.signature)])
  {
    hide PubKeyFieldCount, EncField, WellFormedKey, SignedFields, Tbs, CertAlgo, SignedKinds, SignedTail;
    SignedLayout(c);
    HasKindsAppend(SignedKinds(FieldCount(c.key.algo)), SignedFields(c), [KStr], [Str(c.signature)]);
    EncSnoc(SignedFields(c), Str(c.signature));
  }

  // ---------------------------------------------------------------------
  // Parsing
  // ---------------------------------------------------------------------

  /** The algorithm name as embedded, the key algorithm and the remaining fields. */
  datatype Raw = Raw(name: bytes, algo: bytes, fs: seq<Field>)

  ghost predicate ValidRaw(raw: Raw) {
    && Known(raw.algo)
    && BaseAlgo(raw.name) == Some(raw.algo)
    && Str(raw.name).Fits()
    && HasKinds(BodyKinds(FieldCount(raw.algo)), raw.fs)
  }

  function RawOf(blob: bytes): (r: Option<Raw>)
    ensures r.Some? ==> Known(r.value.algo) && HasKinds(BodyKinds(FieldCount(r.value.algo)), r.value.fs)
  {
    match GetField(KStr, blob)
    case None => None
    case Some((name, rest)) =>
      match BaseAlgo(name.s)
      case None => None
      case Some(algo) =>
        match Dec(BodyKinds(FieldCount(algo)), rest)
        case None => None
        case Some((fs, end)) =>
          DecExact(BodyKinds(FieldCount(algo)), rest, fs, end);
          if end != [] then None else Some(Raw(name.s, algo, fs))
  }

  /** The certificate of a complete list of fields, unless one of them is not acceptable. */
  function Assembled(algo: bytes, fs: seq<Field>): Option<Cert>
    requires Known(algo) && HasKinds(BodyKinds(FieldCount(algo)), fs)
  {
    var n := FieldCount(algo);
    KindsAt(n, fs);
    if fs[n + 2].v32 != USER_CERT && fs[n + 2].v32 != HOST_CERT then None
    else
      match (DecStrings(fs[n + 4].s), Unpacked(fs[n + 7].s), Unpacked(fs[n + 8].s))
      case (Some(principals), Some(critical), Some(extensions)) =>
        Some(Cert(
          fs[0].s,
          PublicKey(algo, EncField(Str(algo)) + Enc(fs[1..n + 1]), []),
          fs[n + 1].v64, fs[n + 2].v32, fs[n + 3].s, principals,
          fs[n + 5].v64, fs[n + 6].v64, critical, extensions,
          fs[n + 9].s, fs[n + 10].s, fs[n + 11].s))
      case _ => None
  }

  lemma KindsAt(n: nat, fs: seq<Field>)
    requires HasKinds(BodyKinds(n), fs)
    ensures |fs| == n + 12
    ensures fs[0].Str? && fs[n + 1].U64? && fs[n + 2].U32? && fs[n + 3].Str? && fs[n + 4].Str?
    ensures fs[n + 5].U64? && fs[n + 6].U64? && fs[n + 7].Str? && fs[n + 8].Str?
    ensures fs[n + 9].Str? && fs[n + 10].Str? && fs[n + 11].Str?
    ensures HasKinds(Strings(n), fs[1..n + 1])
  {
    hide BodyKinds;
    BodyKindsAt(n);
    var ks := BodyKinds(n);
    assert fs[0].Kind() == ks[0] && fs[n + 1].Kind() == ks[n + 1] && fs[n + 2].Kind() == ks[n + 2];
    assert fs[n + 3].Kind() == ks[n + 3] && fs[n + 4].Kind() == ks[n + 4] && fs[n + 5].Kind() == ks[n + 5];
    assert fs[n + 6].Kind() == ks[n + 6] && fs[n + 7].Kind() == ks[n + 7] && fs[n + 8].Kind() == ks[n + 8];
    assert fs[n + 9].Kind() == ks[n + 9] && fs[n + 10].Kind() == ks[n + 10] && fs[n + 11].Kind() == ks[n + 11];
    forall i | 0 <= i < n ensures fs[1..n + 1][i].Kind() == Strings(n)[i] && fs[1..n + 1][i].Fits() {
      assert fs[1..n + 1][i] == fs[i + 1] && fs[i + 1].Kind() == ks[i + 1];
    }
  }

  lemma BodyKindsAt(n: nat)
    ensures var ks := BodyKinds(n);
            && ks[0] == KStr && (forall i :: 1 <= i <= n ==> ks[i] == KStr)
            && ks[n + 1] == K64 && ks[n + 2] == K32 && ks[n + 3] == KStr && ks[n + 4] == KStr
            && ks[n + 5] == K64 && ks[n + 6] == K64 && ks[n + 7] == KStr && ks[n + 8] == KStr
            && ks[n + 9] == KStr && ks[n + 10] == KStr && ks[n + 11] == KStr
            && (forall i :: 0 <= i < n + 11 ==> ks[i] == SignedKinds(n)[i])
  {
    var ks, signed := BodyKinds(n), SignedKinds(n);
    assert signed[n + 1] == TailKinds()[0] && signed[n + 2] == TailKinds()[1];
    assert signed[n + 3] == TailKinds()[2] && signed[n + 4] == TailKinds()[3];
    assert signed[n + 5] == TailKinds()[4] && signed[n + 6] == TailKinds()[5];
    assert signed[n + 7] == TailKinds()[6] && signed[n + 8] == TailKinds()[7];
    assert signed[n + 9] == TailKinds()[8] && signed[n + 10] == TailKinds()[9];
  }

  function Parsed(blob: bytes): Option<Cert> {
    match RawOf(blob)
    case None => None
    case Some(raw) => Assembled(raw.algo, raw.fs)
  }

  /** A blob has these raw fields exactly when it is their encoding. */
  lemma RawExact(blob: bytes, raw: Raw)
    ensures RawOf(blob) == Some(raw) <==>
            ValidRaw(raw) && blob == EncField(Str(raw.name)) + Enc(raw.fs)
  {
    hide PubKeyFieldCount, BaseAlgo, BodyKinds, GetField, EncField, Dec, Enc;
    if ValidRaw(raw) && blob == EncField(Str(raw.name)) + Enc(raw.fs) {
      GetFieldExact(KStr, blob, Str(raw.name), Enc(raw.fs));
      assert Enc(raw.fs) == Enc(raw.fs) + [];
      DecExact(BodyKinds(FieldCount(raw.algo)), Enc(raw.fs), raw.fs, []);
    }
    if RawOf(blob) == Some(raw) {
      var (f, rest) := GetField(KStr, blob).value;
      GetFieldExact(KStr, blob, f, rest);
      DecExact(BodyKinds(FieldCount(raw.algo)), rest, raw.fs, []);
      assert Enc(raw.fs) + [] == Enc(raw.fs);
    }
  }
}
