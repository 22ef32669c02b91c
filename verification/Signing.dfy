/** Signing and verification of certificates under an abstract signature scheme. */
module Signing {
  import opened Basics
  import opened Wire
  import opened Keys
  import opened Certificates
  import opened CertificateLaws

  /** crypto/ed25519: the public key of a private key, signing and verification. */
  datatype Scheme = Scheme(
    pub: bytes -> bytes,
    sign: (bytes, bytes) -> bytes,
    verify: (bytes, bytes, bytes) -> bool)

  /** What is assumed of the scheme: a message's own signature verifies. */
  ghost predicate Correct(scheme: Scheme) {
    forall priv: bytes, m: bytes ::
      scheme.verify(scheme.pub(priv), m, scheme.sign(priv, m)) && |scheme.sign(priv, m)| == 64
  }

  /** What is assumed of one signature: it verifies only for the message it was made for. */
  ghost predicate Binds(scheme: Scheme, pk: bytes, m: bytes, sig: bytes) {
    forall other: bytes :: scheme.verify(pk, other, sig) ==> other == m
  }

  /** ca.pub and ca.key belong together. */
  predicate KeyPair(scheme: Scheme, caPub: PublicKey, priv: bytes) {
    WellFormedKey(caPub) && caPub.algo == ED25519 && Ed25519Of(caPub) == Some(scheme.pub(priv))
  }

  type Nonce = b: bytes | |b| == 32 witness seq(32, _ => 0)

  function SignatureBlob(sig: bytes): bytes {
    EncField(Str(ED25519)) + EncField(Str(sig))
  }

  /** Sign; entropy is None when reading the nonce fails. */
  function Signed(scheme: Scheme, c: Cert, caPub: PublicKey, priv: bytes, entropy: Option<Nonce>): Option<Cert> {
    if caPub.algo != ED25519 || (c.nonce == [] && entropy == None) then None
    else
      var ready := c.(nonce := if c.nonce == [] then entropy.value else c.nonce, signatureKey := caPub.blob);
      Some(ready.(signature := SignatureBlob(scheme.sign(priv, Tbs(ready)))))
  }

  function SignatureCAOf(c: Cert): Option<PublicKey> {
    match GetField(KStr, c.signatureKey)
    case None => None
    case Some((algo, _)) => if Known(algo.s) then Some(PublicKey(algo.s, c.signatureKey, [])) else None
  }

  /** The raw signature inside a signature blob, if the blob is well formed and ed25519. */
  function RawSignature(blob: bytes): Option<bytes> {
    match Dec([KStr, KStr], blob)
    case None => None
    case Some((fs, rest)) =>
      DecExact([KStr, KStr], blob, fs, rest);
      assert fs[0].Kind() == [KStr, KStr][0] && fs[1].Kind() == [KStr, KStr][1];
      if rest == [] && fs[0].s == ED25519 then Some(fs[1].s) else None
  }

  /** The signature is by exactly this CA. */
  predicate Genuine(scheme: Scheme, c: Cert, caPub: PublicKey) {
    match (SignatureCAOf(c), Ed25519Of(caPub), RawSignature(c.signature))
    case (Some(ca), Some(pk), Some(sig)) => ca.blob == caPub.blob && scheme.verify(pk, Tbs(c), sig)
    case _ => false
  }

  /** The window check on Unix seconds, which are converted to uint64 first. */
  predicate InWindow(c: Cert, t: int) {
    ToU64(t) >= c.validAfter && (c.validBefore == INFINITE_VALIDITY || ToU64(t) < c.validBefore)
  }

  lemma RawSignatureOfBlob(sig: bytes)
    requires |sig| < 0x1_0000_0000
    ensures RawSignature(SignatureBlob(sig)) == Some(sig)
  {
    hide EncField, Dec;
    var fs := [Str(ED25519), Str(sig)];
    assert |ED25519| == 11;
    assert fs[1..] == [Str(sig)] && fs[1..][1..] == [];
    assert Enc(fs[1..]) == EncField(Str(sig)) + Enc(fs[1..][1..]) == EncField(Str(sig));
    assert Enc(fs) == SignatureBlob(sig);
    assert SignatureBlob(sig) == Enc(fs) + [];
    DecExact([KStr, KStr], SignatureBlob(sig), fs, []);
  }

  lemma SignatureCAOfSigned(c: Cert, caPub: PublicKey)
    requires WellFormedKey(caPub) && c.signatureKey == caPub.blob
    ensures SignatureCAOf(c) == Some(PublicKey(caPub.algo, caPub.blob, []))
  {
    hide EncField, GetField;
    var items := KeyItems(caPub);
    CertAlgoLength(caPub.algo);
    GetFieldExact(KStr, caPub.blob, Str(caPub.algo), Enc(items));
  }

  /** The signer a certificate names: its key blob, when that starts with the name of a known algorithm. */
  lemma SignatureCAExactly(c: Cert, k: PublicKey)
    ensures SignatureCAOf(c) == Some(k) <==>
            && k.blob == c.signatureKey && k.comment == [] && Known(k.algo)
            && |k.algo| < 0x1_0000_0000 && EncField(Str(k.algo)) <= c.signatureKey
  {
    hide GetField, EncField, PubKeyFieldCount;
    var b := c.signatureKey;
    if |k.algo| < 0x1_0000_0000 && EncField(Str(k.algo)) <= b {
      GetFieldExact(KStr, b, Str(k.algo), b[|EncField(Str(k.algo))|..]);
    }
    if GetField(KStr, b).Some? {
      var (f, rest) := GetField(KStr, b).value;
      GetFieldExact(KStr, b, f, rest);
    }
  }

  /** A freshly signed certificate verifies, and so does everything with the same signed bytes. */
  lemma SignedIsGenuine(scheme: Scheme, c: Cert, caPub: PublicKey, priv: bytes, entropy: Option<Nonce>)
    requires Correct(scheme) && KeyPair(scheme, caPub, priv)
    requires Signed(scheme, c, caPub, priv, entropy).Some?
    ensures var s := Signed(scheme, c, caPub, priv, entropy).value;
            Genuine(scheme, s, caPub) && |s.signature| == 83
  {
    hide WellFormedKey, Ed25519Of, GetField, KeyFieldsOf;
    var s := Signed(scheme, c, caPub, priv, entropy).value;
    var ready := s.(signature := c.signature);
    SignedBytesIgnoreSignature(s, ready);
    var sig := scheme.sign(priv, Tbs(ready));
    assert |sig| == 64;
    assert |ED25519| == 11;
    RawSignatureOfBlob(sig);
    SignatureCAOfSigned(s, caPub);
  }

  /** Signing changes nothing but the nonce, the signature key and the signature. */
  lemma SignedKeeps(scheme: Scheme, c: Cert, caPub: PublicKey, priv: bytes, entropy: Option<Nonce>)
    requires Signed(scheme, c, caPub, priv, entropy).Some?
    ensures var s := Signed(scheme, c, caPub, priv, entropy).value;
            && s == c.(nonce := s.nonce, signatureKey := caPub.blob, signature := s.signature)
            && (c.nonce == [] ==> |s.nonce| == 32)
  {
    hide Tbs;
  }

  lemma SignedBytesIgnoreSignature(x: Cert, y: Cert)
    requires x == y.(signature := x.signature)
    ensures Tbs(x) == Tbs(y)
  {
    assert SignedTail(x) == SignedTail(y);
  }

  /**
   * After Sign, the signature is good for exactly the certificates that agree on everything
   * signed: changing any signed field makes verification fail, changing nothing signed does not.
   */
  lemma SignatureCoversEverySignedField(
    scheme: Scheme, c: Cert, caPub: PublicKey, priv: bytes, entropy: Option<Nonce>, other: Cert)
    requires Correct(scheme) && KeyPair(scheme, caPub, priv)
    requires Signed(scheme, c, caPub, priv, entropy).Some?
    requires var s := Signed(scheme, c, caPub, priv, entropy).value;
             && Signable(s) && Signable(other) && other.signature == s.signature
             && Binds(scheme, scheme.pub(priv), Tbs(s), RawSignature(s.signature).GetOr([]))
    ensures Genuine(scheme, other, caPub) <==>
            SameSigned(Signed(scheme, c, caPub, priv, entropy).value, other)
  {
    hide WellFormedKey, Ed25519Of, GetField, KeyFieldsOf, Tbs, RawSignature, Signable, SignatureCAOf, SameSigned;
    var s := Signed(scheme, c, caPub, priv, entropy).value;
    SignedIsGenuine(scheme, c, caPub, priv, entropy);
    UniqueSigningImage(s, other);
    if SameSigned(s, other) {
      SameKeySameCA(s, other);
    }
  }

  /**
   * Over bytes: an accepted blob that carries the signature of a signed certificate verifies
   * exactly when it re-marshals to the bytes of that certificate.
   */
  lemma SignatureCoversBytes(
    scheme: Scheme, c: Cert, caPub: PublicKey, priv: bytes, entropy: Option<Nonce>, blob: bytes)
    requires Correct(scheme) && KeyPair(scheme, caPub, priv)
    requires Signed(scheme, c, caPub, priv, entropy).Some? && Parsed(blob).Some?
    requires var s := Signed(scheme, c, caPub, priv, entropy).value;
             && Signable(s) && Parsed(blob).value.signature == s.signature
             && Binds(scheme, scheme.pub(priv), Tbs(s), RawSignature(s.signature).GetOr([]))
    ensures Genuine(scheme, Parsed(blob).value, caPub) <==>
            Marshalled(Parsed(blob).value) == Marshalled(Signed(scheme, c, caPub, priv, entropy).value)
  {
    hide Tbs, Parsed, WellFormedKey, Genuine, RawSignature, KeyPair, Signed, SameSigned, SignedTail;
    var s, p := Signed(scheme, c, caPub, priv, entropy).value, Parsed(blob).value;
    Normaliser(blob);
    SignatureCoversEverySignedField(scheme, c, caPub, priv, entropy, p);
    UniqueSigningImage(s, p);
    var tail := EncField(Str(s.signature));
    assert Marshalled(p) == Tbs(p) + tail && Marshalled(s) == Tbs(s) + tail;
    assert |Tbs(p) + tail| == |Tbs(p)| + |tail| && (Tbs(p) + tail)[..|Tbs(p)|] == Tbs(p);
    assert |Tbs(s) + tail| == |Tbs(s)| + |tail| && (Tbs(s) + tail)[..|Tbs(s)|] == Tbs(s);
  }

  lemma SameKeySameCA(x: Cert, y: Cert)
    requires SameSigned(x, y)
    ensures SignatureCAOf(x) == SignatureCAOf(y)
  {
  }

  /** Verification only looks at the bytes that survive marshalling and parsing. */
  lemma GenuineThroughBytes(scheme: Scheme, c: Cert, caPub: PublicKey)
    requires WellFormed(c)
    ensures Parsed(Marshalled(c)).Some?
    ensures Genuine(scheme, Parsed(Marshalled(c)).value, caPub) <==> Genuine(scheme, c, caPub)
  {
    hide Tbs, Parsed, Marshalled, WellFormed, Ed25519Of, RawSignature;
    RoundTrip(c);
  }
}
