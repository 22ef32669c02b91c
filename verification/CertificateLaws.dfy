/** Round trip, normal form, unique signing image and self-delimitation of certificates. */
module CertificateLaws {
  import opened Basics
  import opened Wire
  import opened Sorting
  import opened Keys
  import opened Options
  import opened Certificates

  /** What a certificate becomes on the way through its bytes. */
  function Normal(c: Cert): Cert {
    c.(key := c.key.(comment := []),
       critical := SortOptions(c.critical),
       extensions := SortOptions(c.extensions))
  }

  function Body(c: Cert): (fs: seq<Field>)
    requires WellFormedKey(c.key)
    ensures |fs| == FieldCount(c.key.algo) + 12
  {
    SignedFields(c) + [Str(c.signature)]
  }

  // ---------------------------------------------------------------------
  // Lengths
  // ---------------------------------------------------------------------

  lemma {:induction false} ItemsFit(items: seq<bytes>)
    requires |Enc(Strs(items))| < 0x1_0000_0000
    ensures AllFit(items)
  {
    if items != [] {
      assert Strs(items)[1..] == Strs(items[1..]);
      ItemsFit(items[1..]);
      assert forall s :: s in items ==> s == items[0] || s in items[1..];
    }
  }

  lemma {:induction false} OptionsFit(opts: seq<CertOption>)
    requires |EncOptions(opts)| < 0x1_0000_0000
    ensures AllOptionsFit(opts)
  {
    if opts != [] {
      OptionsFit(opts[1..]);
      forall i | 0 <= i < |opts| ensures opts[i].Fits() {
        assert i > 0 ==> opts[i] == opts[1..][i - 1];
      }
    }
  }

  lemma PackedFits(opts: seq<CertOption>)
    requires |Packed(opts)| < 0x1_0000_0000
    ensures AllOptionsFit(opts)
  {
    PackedLength(opts);
    OptionsFit(opts);
  }

  // ---------------------------------------------------------------------
  // Fields to certificates and back
  // ---------------------------------------------------------------------

  /** Where each part of a certificate stands in its list of fields. */
  lemma BodyAt(c: Cert)
    requires WellFormedKey(c.key)
    ensures var n, fs, t := FieldCount(c.key.algo), Body(c), SignedTail(c);
            && fs[0] == Str(c.nonce) && fs[1..n + 1] == KeyItems(c.key)
            && fs[n + 1] == t[0] && fs[n + 2] == t[1] && fs[n + 3] == t[2] && fs[n + 4] == t[3]
            && fs[n + 5] == t[4] && fs[n + 6] == t[5] && fs[n + 7] == t[6] && fs[n + 8] == t[7]
            && fs[n + 9] == t[8] && fs[n + 10] == t[9] && fs[n + 11] == Str(c.signature)
  {
    hide SignedTail, WellFormedKey, PubKeyFieldCount, KeyItems, Enc, EncField, KeyFieldsOf;
    Places(Str(c.nonce), KeyItems(c.key), SignedTail(c), Str(c.signature));
  }

  lemma Places(first: Field, items: seq<Field>, t: seq<Field>, last: Field)
    requires |t| == 10
    ensures var n, fs := |items|, [first] + items + t + [last];
            && fs[0] == first && fs[1..n + 1] == items
            && (forall i :: 0 <= i < 10 ==> fs[n + 1 + i] == t[i])
            && fs[n + 11] == last
  {
  }

  lemma AssembledOfBody(c: Cert)
    requires WellFormed(c)
    ensures HasKinds(BodyKinds(FieldCount(c.key.algo)), Body(c))
    ensures Assembled(c.key.algo, Body(c)) == Some(Normal(c))
  {
    MarshalledLayout(c);
    BodyAt(c);
    hide WellFormedKey, PubKeyFieldCount, EncField, KeyFieldsOf, Enc, Packed, Unpacked, SortOptions, DecStrings, BodyKinds,
      SignedFields, Body, Strs;
    var t := SignedTail(c);
    assert t[3].Fits() && t[6].Fits() && t[7].Fits();
    PrincipalsReadBack(c.principals);
    OptionsReadBack(c.critical);
    OptionsReadBack(c.extensions);
  }

  lemma PrincipalsReadBack(items: seq<bytes>)
    requires |Enc(Strs(items))| < 0x1_0000_0000
    ensures DecStrings(Enc(Strs(items))) == Some(items)
  {
    hide Enc, DecStrings;
    ItemsFit(items);
    DecStringsExact(Enc(Strs(items)), items);
  }

  lemma OptionsReadBack(opts: seq<CertOption>)
    requires |Packed(opts)| < 0x1_0000_0000
    ensures Unpacked(Packed(opts)) == Some(SortOptions(opts))
  {
    hide Packed;
    PackedFits(opts);
    UnpackedOfPacked(opts);
  }

  lemma RepackedShorter(b: bytes)
    requires Unpacked(b).Some?
    ensures |Packed(Unpacked(b).value)| <= |b|
  {
    hide Packed, Unpacked, EncOptions;
    UnpackedSound(b);
    PackedLength(Unpacked(b).value);
  }

  lemma AssembledSound(algo: bytes, fs: seq<Field>)
    requires Known(algo) && HasKinds(BodyKinds(FieldCount(algo)), fs)
    requires Assembled(algo, fs).Some?
    ensures var n, c := FieldCount(algo), Assembled(algo, fs).value;
            && WellFormed(c)
            && c.key.algo == algo && c.key.comment == []
            && Unpacked(fs[n + 7].s) == Some(c.critical)
            && Unpacked(fs[n + 8].s) == Some(c.extensions)
            && Body(c) == fs[n + 7 := Str(Packed(c.critical))][n + 8 := Str(Packed(c.extensions))]
  {
    hide PubKeyFieldCount, EncField, KeyFieldsOf, Enc, BodyKinds, WellFormedKey, Unpacked, EncOptions, DecStrings,
      Packed, Body, NoNestedEmpty, AllOptionsFit, AllFit;
    KindsAt(FieldCount(algo), fs);
    var n, c := FieldCount(algo), Assembled(algo, fs).value;
    assert forall i :: 0 <= i < |fs| ==> fs[i].Fits();
    WellFormedFrom(c.key, fs[1..n + 1]);
    DecStringsExact(fs[n + 4].s, c.principals);
    RepackedShorter(fs[n + 7].s);
    RepackedShorter(fs[n + 8].s);
    BodyAt(c);
    SameByParts(n, Body(c), fs[n + 7 := Str(Packed(c.critical))][n + 8 := Str(Packed(c.extensions))]);
  }

  lemma SameByParts(n: nat, x: seq<Field>, y: seq<Field>)
    requires |x| == |y| == n + 12
    requires x[0] == y[0] && x[1..n + 1] == y[1..n + 1]
    requires x[n + 1] == y[n + 1] && x[n + 2] == y[n + 2] && x[n + 3] == y[n + 3] && x[n + 4] == y[n + 4]
    requires x[n + 5] == y[n + 5] && x[n + 6] == y[n + 6] && x[n + 7] == y[n + 7] && x[n + 8] == y[n + 8]
    requires x[n + 9] == y[n + 9] && x[n + 10] == y[n + 10] && x[n + 11] == y[n + 11]
    ensures x == y
  {
    forall i | 0 <= i < n + 12 ensures x[i] == y[i] {
      if 1 <= i <= n {
        assert x[i] == x[1..n + 1][i - 1] == y[1..n + 1][i - 1];
      }
    }
  }

  // ---------------------------------------------------------------------
  // Round trip and normal form
  // ---------------------------------------------------------------------

  /** Every field of a well-formed certificate survives its bytes; options come back sorted. */
  lemma RoundTrip(c: Cert)
    requires WellFormed(c)
    ensures Parsed(Marshalled(c)) == Some(Normal(c))
    ensures WellFormed(Normal(c))
    ensures Tbs(Normal(c)) == Tbs(c) && Marshalled(Normal(c)) == Marshalled(c)
  {
    hide PubKeyFieldCount, EncField, Enc, Assembled, WellFormedKey;
    MarshalledLayout(c);
    AssembledOfBody(c);
    BaseOfCertAlgo(c.key.algo);
    CertAlgoLength(c.key.algo);
    RawExact(Marshalled(c), Raw(CertAlgo(c.key.algo), c.key.algo, Body(c)));
    NormalSameBytes(c);
  }

  lemma NormalSameBytes(c: Cert)
    requires WellFormed(c)
    ensures WellFormed(Normal(c))
    ensures Tbs(Normal(c)) == Tbs(c) && Marshalled(Normal(c)) == Marshalled(c)
  {
    var t := SignedTail(c);
    assert t[6].Fits() && t[7].Fits();
    PackedFits(c.critical);
    UnpackedOfPacked(c.critical);
    PackedFits(c.extensions);
    UnpackedOfPacked(c.extensions);
    assert SignedTail(Normal(c)) == t;
  }

  /** The blob's own algorithm name and option blobs, for blobs the parser accepts. */
  predicate InNormalForm(blob: bytes)
    requires Parsed(blob).Some?
  {
    var raw := RawOf(blob).value;
    var n := FieldCount(raw.algo);
    KindsAt(n, raw.fs);
    && raw.name == CertAlgo(raw.algo)
    && Sorted(LeOption, Parsed(blob).value.critical) && NoNestedEmpty(raw.fs[n + 7].s)
    && Sorted(LeOption, Parsed(blob).value.extensions) && NoNestedEmpty(raw.fs[n + 8].s)
  }

  /**
   * Printing what was parsed is a normaliser: the result is accepted again, denotes the same
   * certificate with sorted options, and a second pass changes no byte.
   */
  lemma Normaliser(blob: bytes)
    requires Parsed(blob).Some?
    ensures var c := Parsed(blob).value;
            && WellFormed(c)
            && Parsed(Marshalled(c)) == Some(c.(critical := SortOptions(c.critical),
                                                extensions := SortOptions(c.extensions)))
            && Marshalled(Parsed(Marshalled(c)).value) == Marshalled(c)
            && InNormalForm(Marshalled(c))
  {
    hide Assembled, WellFormed, Marshalled, RawOf;
    var raw := RawOf(blob).value;
    AssembledSound(raw.algo, raw.fs);
    var c := Parsed(blob).value;
    RoundTrip(c);
    OptionOrder();
    SortIdempotent(LeOption, c.critical);
    SortIdempotent(LeOption, c.extensions);
    NormalFormExact(Marshalled(c));
  }

  /** It changes no byte at all exactly on the blobs that are in normal form. */
  lemma NormalFormExact(blob: bytes)
    requires Parsed(blob).Some?
    ensures Marshalled(Parsed(blob).value) == blob <==> InNormalForm(blob)
  {
    hide PubKeyFieldCount, EncField, Enc, Assembled, WellFormedKey, RawOf, BaseAlgo, CertAlgo, Marshalled, Body,
      SignedFields, SignedTail, BodyKinds, Unpacked, Packed, NoNestedEmpty, Sorted, LeOption;
    var raw := RawOf(blob).value;
    var c := Parsed(blob).value;
    var n := FieldCount(raw.algo);
    KindsAt(n, raw.fs);
    RawExact(blob, raw);
    AssembledSound(raw.algo, raw.fs);
    MarshalledLayout(c);
    BodyIs(c);
    BaseOfCertAlgo(c.key.algo);
    CertAlgoLength(c.key.algo);
    var raw' := Raw(CertAlgo(c.key.algo), c.key.algo, Body(c));
    RawExact(Marshalled(c), raw');
    RepackExact(raw.fs[n + 7].s);
    RepackExact(raw.fs[n + 8].s);
    var update := raw.fs[n + 7 := Str(Packed(c.critical))][n + 8 := Str(Packed(c.extensions))];
    assert update == raw.fs <==> update[n + 7] == raw.fs[n + 7] && update[n + 8] == raw.fs[n + 8];
  }

  lemma BodyIs(c: Cert)
    requires WellFormedKey(c.key)
    ensures Body(c) == SignedFields(c) + [Str(c.signature)]
  {
  }

  // ---------------------------------------------------------------------
  // Self-delimitation
  // ---------------------------------------------------------------------

  /** No accepted blob is a proper prefix of another accepted blob. */
  lemma SelfDelimiting(blob: bytes, extra: bytes)
    requires extra != [] && Parsed(blob).Some?
    ensures Parsed(blob + extra) == None
  {
    hide PubKeyFieldCount, EncField, BaseAlgo, Assembled, BodyKinds;
    var (name, rest) := GetField(KStr, blob).value;
    GetFieldExtends(KStr, blob, extra);
    var algo := BaseAlgo(name.s).value;
    DecExtends(BodyKinds(FieldCount(algo)), rest, extra);
  }

  /** So an accepted blob cut short anywhere is rejected. */
  lemma CutShort(blob: bytes, k: nat)
    requires k < |blob| && Parsed(blob).Some?
    ensures Parsed(blob[..k]) == None
  {
    hide Parsed;
    if Parsed(blob[..k]).Some? {
      assert blob == blob[..k] + blob[k..];
      SelfDelimiting(blob[..k], blob[k..]);
      assert false;
    }
  }

  // ---------------------------------------------------------------------
  // The signing image
  // ---------------------------------------------------------------------

  /** The two certificates agree on everything a signature covers. */
  ghost predicate SameSigned(x: Cert, y: Cert) {
    && x.key.algo == y.key.algo && x.key.blob == y.key.blob
    && x.nonce == y.nonce && x.serial == y.serial && x.certType == y.certType && x.keyID == y.keyID
    && x.principals == y.principals && x.validAfter == y.validAfter && x.validBefore == y.validBefore
    && SortOptions(x.critical) == SortOptions(y.critical)
    && SortOptions(x.extensions) == SortOptions(y.extensions)
    && x.reserved == y.reserved && x.signatureKey == y.signatureKey
  }

  /** Two certificates have the same signed bytes exactly when they agree on everything signed. */
  lemma UniqueSigningImage(x: Cert, y: Cert)
    requires Signable(x) && Signable(y)
    ensures Tbs(x) == Tbs(y) <==> SameSigned(x, y)
    ensures Tbs(x) == Tbs(y) ==> multiset(x.critical) == multiset(y.critical)
    ensures Tbs(x) == Tbs(y) ==> multiset(x.extensions) == multiset(y.extensions)
  {
    if Tbs(x) == Tbs(y) {
      SameImageSameFields(x, y);
      SameFieldsSameParts(x, y);
    }
    SortKeeps(LeOption, x.critical);
    SortKeeps(LeOption, y.critical);
    SortKeeps(LeOption, x.extensions);
    SortKeeps(LeOption, y.extensions);
    if SameSigned(x, y) {
      assert SignedTail(x) == SignedTail(y);
    }
  }

  lemma SameImageSameFields(x: Cert, y: Cert)
    requires Signable(x) && Signable(y) && Tbs(x) == Tbs(y)
    ensures x.key.algo == y.key.algo && SignedFields(x) == SignedFields(y)
  {
    hide PubKeyFieldCount, EncField, Enc, GetField, BaseAlgo, CertAlgo, Tbs, WellFormedKey, SignedFields;
    SignedLayout(x);
    SignedLayout(y);
    var nameX, nameY := Str(CertAlgo(x.key.algo)), Str(CertAlgo(y.key.algo));
    GetFieldExact(KStr, Tbs(x), nameX, Enc(SignedFields(x)));
    GetFieldExact(KStr, Tbs(y), nameY, Enc(SignedFields(y)));
    BaseOfCertAlgo(x.key.algo);
    BaseOfCertAlgo(y.key.algo);
    var ks, b := SignedKinds(FieldCount(x.key.algo)), Enc(SignedFields(x));
    assert b + [] == b;
    DecExact(ks, b, SignedFields(x), []);
    DecExact(ks, b, SignedFields(y), []);
  }

  lemma SameFieldsSameParts(x: Cert, y: Cert)
    requires Signable(x) && Signable(y)
    requires x.key.algo == y.key.algo && SignedFields(x) == SignedFields(y)
    ensures SameSigned(x, y)
  {
    SignedFieldsAt(x);
    SignedFieldsAt(y);
    hide PubKeyFieldCount, EncField, WellFormedKey, SignedFields, SignedTail, KeyFieldsOf, Enc;
    SameTailSameParts(x, y);
  }

  lemma SignedFieldsAt(c: Cert)
    requires WellFormedKey(c.key)
    ensures var n, fs := FieldCount(c.key.algo), SignedFields(c);
            fs[0] == Str(c.nonce) && fs[1..n + 1] == KeyItems(c.key) && fs[n + 1..] == SignedTail(c)
  {
    hide SignedTail, WellFormedKey;
  }

  lemma SameTailSameParts(x: Cert, y: Cert)
    requires Signable(x) && Signable(y) && SignedTail(x) == SignedTail(y)
    ensures x.serial == y.serial && x.certType == y.certType && x.keyID == y.keyID
    ensures x.principals == y.principals && x.validAfter == y.validAfter && x.validBefore == y.validBefore
    ensures SortOptions(x.critical) == SortOptions(y.critical)
    ensures SortOptions(x.extensions) == SortOptions(y.extensions)
    ensures x.reserved == y.reserved && x.signatureKey == y.signatureKey
  {
    hide PubKeyFieldCount, EncField, WellFormedKey, EncOptions, Sort;
    var t, u := SignedTail(x), SignedTail(y);
    assert t[3].Fits() && t[6].Fits() && t[7].Fits();
    assert t[0] == u[0] && t[1] == u[1] && t[2] == u[2] && t[3] == u[3] && t[4] == u[4];
    assert t[5] == u[5] && t[6] == u[6] && t[7] == u[7] && t[8] == u[8] && t[9] == u[9];
    ItemsFit(x.principals);
    ItemsFit(y.principals);
    DecStringsExact(t[3].s, x.principals);
    DecStringsExact(t[3].s, y.principals);
    PackedFits(x.critical);
    PackedFits(y.critical);
    UnpackedOfPacked(x.critical);
    UnpackedOfPacked(y.critical);
    PackedFits(x.extensions);
    PackedFits(y.extensions);
    UnpackedOfPacked(x.extensions);
    UnpackedOfPacked(y.extensions);
  }
}
