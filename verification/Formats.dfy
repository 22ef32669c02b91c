/** The bytes of every format, written out: RFC 4251 integers and strings, key and certificate names, options,
    certificates and key revocation lists. */
module Formats {
  import opened Basics
  import opened Text
  import opened Sorting
  import opened Wire
  import opened Keys
  import opened Options
  import opened Certificates

  // ---------------------------------------------------------------------
  // Integers and strings
  // ---------------------------------------------------------------------

  /** A uint32 is four bytes, the most significant first. */
  function Bytes4(v: u32): bytes {
    [v / 0x100_0000, v / 0x1_0000 % 256, v / 0x100 % 256, v % 256]
  }

  /** A uint64 is eight. */
  function Bytes8(v: u64): bytes {
    [v / 0x100_0000_0000_0000, v / 0x1_0000_0000_0000 % 256, v / 0x100_0000_0000 % 256, v / 0x1_0000_0000 % 256,
     v / 0x100_0000 % 256, v / 0x1_0000 % 256, v / 0x100 % 256, v % 256]
  }

  function LengthAnd(s: bytes): bytes {
    Bytes4(|s| % 0x1_0000_0000) + s
  }

  lemma FieldBytes(f: Field)
    ensures EncField(f) == match f
                           case U8(v) => [v]
                           case U32(v) => Bytes4(v)
                           case U64(v) => Bytes8(v)
                           case Str(s) => LengthAnd(s)
  {
    hide BigEndian;
    match f
    case U8(_) =>
    case U32(v) => FourBytes(v);
    case U64(v) => EightBytes(v);
    case Str(s) => FourBytes(|s| % 0x1_0000_0000);
  }

  lemma FourBytes(v: u32)
    ensures BigEndian(4, v) == Bytes4(v)
  {
    assert v / 256 / 256 == v / 0x1_0000 && v / 256 / 256 / 256 == v / 0x100_0000;
    assert BigEndian(0, v / 256 / 256 / 256 / 256) == [];
    assert BigEndian(1, v / 256 / 256 / 256) == [v / 0x100_0000];
    assert BigEndian(2, v / 256 / 256) == [v / 0x100_0000, v / 0x1_0000 % 256];
    assert BigEndian(3, v / 256) == [v / 0x100_0000, v / 0x1_0000 % 256, v / 0x100 % 256];
  }

  lemma EightBytes(v: u64)
    ensures BigEndian(8, v) == Bytes8(v)
  {
    hide BigEndian;
    var a, b, c, d := v / 0x100, v / 0x1_0000, v / 0x100_0000, v / 0x1_0000_0000;
    assert a / 256 == b && b / 256 == c && c / 256 == d;
    LastByte(8, v);
    LastByte(7, a);
    LastByte(6, b);
    LastByte(5, c);
    FourBytes(d);
    UpperHalf(v);
  }

  lemma LastByte(n: nat, v: nat)
    requires n > 0
    ensures BigEndian(n, v) == BigEndian(n - 1, v / 256) + [v % 256]
  {
  }

  lemma UpperHalf(v: u64)
    ensures var d := v / 0x1_0000_0000;
            && d / 0x100_0000 == v / 0x100_0000_0000_0000
            && d / 0x1_0000 == v / 0x1_0000_0000_0000
            && d / 0x100 == v / 0x100_0000_0000
  {
  }

  // ---------------------------------------------------------------------
  // Names
  // ---------------------------------------------------------------------

  /** The key types that can be certified are these. */
  lemma KeyTypes(algo: bytes)
    ensures Known(algo) <==>
            algo == Ascii("ssh-ed25519") ||
            algo == Ascii("ssh-rsa") ||
            algo == Ascii("ssh-dss") ||
            algo == Ascii("ecdsa-sha2-nistp256") ||
            algo == Ascii("ecdsa-sha2-nistp384") ||
            algo == Ascii("ecdsa-sha2-nistp521") ||
            algo == Ascii("sk-ssh-ed25519@openssh.com") ||
            algo == Ascii("sk-ecdsa-sha2-nistp256@openssh.com")
  {
    hide Ascii;
  }

  /** Their numbers of fields. */
  lemma FieldCounts()
    ensures PubKeyFieldCount(Ascii("ssh-ed25519")) == Some(1)
    ensures PubKeyFieldCount(Ascii("ssh-rsa")) == Some(2)
    ensures PubKeyFieldCount(Ascii("ssh-dss")) == Some(4)
    ensures PubKeyFieldCount(Ascii("ecdsa-sha2-nistp256")) == Some(2)
    ensures PubKeyFieldCount(Ascii("ecdsa-sha2-nistp384")) == Some(2)
    ensures PubKeyFieldCount(Ascii("ecdsa-sha2-nistp521")) == Some(2)
    ensures PubKeyFieldCount(Ascii("sk-ssh-ed25519@openssh.com")) == Some(2)
    ensures PubKeyFieldCount(Ascii("sk-ecdsa-sha2-nistp256@openssh.com")) == Some(3)
  {
    var p256, p384, p521 := Ascii("ecdsa-sha2-nistp256"), Ascii("ecdsa-sha2-nistp384"), Ascii("ecdsa-sha2-nistp521");
    assert p256[16] == '2' as int && p384[16] == '3' as int && p521[16] == '5' as int;
    assert Ascii("ssh-rsa")[4] == 'r' as int && Ascii("ssh-dss")[4] == 'd' as int;
  }

  /** A certificate is named after its key, with "-cert-v01@openssh.com" at the end. */
  lemma CertificateName(name: string)
    requires forall i :: 0 <= i < |name| ==> name[i] as int < 128 && name[i] != '@'
    ensures CertAlgo(Ascii(name)) == Ascii(name + "-cert-v01@openssh.com")
  {
    var cut := CutSuffix(Ascii(name), OPENSSH);
    if cut.Some? {
      assert (cut.value + OPENSSH)[|cut.value|] == OPENSSH[0] == '@' as int;
    }
    assert Ascii(name) + CERT_SUFFIX == Ascii(name + "-cert-v01@openssh.com");
  }

  /** An "@openssh.com" at the end of the name of the key is dropped. */
  lemma SecurityKeyName(name: string)
    ensures CertAlgo(Ascii(name + "@openssh.com")) == Ascii(name + "-cert-v01@openssh.com")
  {
    assert Ascii(name + "@openssh.com") == Ascii(name) + OPENSSH;
    CutSuffixOf(Ascii(name), OPENSSH);
    assert Ascii(name) + CERT_SUFFIX == Ascii(name + "-cert-v01@openssh.com");
  }

  // ---------------------------------------------------------------------
  // Lists of strings, of integers and of options
  // ---------------------------------------------------------------------

  function TextList(items: seq<bytes>): bytes {
    if items == [] then [] else LengthAnd(items[0]) + TextList(items[1..])
  }

  function NumberList(items: seq<u64>): bytes {
    if items == [] then [] else Bytes8(items[0]) + NumberList(items[1..])
  }

  /** An option is its name and a string that is empty or holds the value as a string. */
  function OptionList(opts: seq<CertOption>): bytes {
    if opts == [] then []
    else
      LengthAnd(opts[0].name) + LengthAnd(if opts[0].data == [] then [] else LengthAnd(opts[0].data))
      + OptionList(opts[1..])
  }

  lemma {:induction false} TextListBytes(items: seq<bytes>)
    ensures Enc(Strs(items)) == TextList(items)
  {
    hide EncField, LengthAnd;
    if items != [] {
      FieldBytes(Str(items[0]));
      assert Strs(items)[1..] == Strs(items[1..]);
      TextListBytes(items[1..]);
    }
  }

  lemma {:induction false} NumberListBytes(items: seq<u64>)
    ensures Enc(Nums(items)) == NumberList(items)
  {
    hide EncField, Bytes8;
    if items != [] {
      FieldBytes(U64(items[0]));
      assert Nums(items)[1..] == Nums(items[1..]);
      NumberListBytes(items[1..]);
    }
  }

  lemma {:induction false} OptionListBytes(opts: seq<CertOption>)
    ensures EncOptions(opts) == OptionList(opts)
  {
    hide EncField, LengthAnd;
    if opts != [] {
      FieldBytes(Str(opts[0].name));
      FieldBytes(Str(opts[0].data));
      FieldBytes(Str(DataBlob(opts[0].data)));
      OptionListBytes(opts[1..]);
    }
  }

  /** Options are written in ascending order of their names' bytes, none lost and none added. */
  lemma PackedBytes(opts: seq<CertOption>)
    ensures Packed(opts) == OptionList(SortOptions(opts))
    ensures |SortOptions(opts)| == |opts| && multiset(SortOptions(opts)) == multiset(opts)
    ensures forall i, j :: 0 <= i < j < |opts| ==> InByteOrder(SortOptions(opts)[i].name, SortOptions(opts)[j].name)
  {
    hide LeBytes, InByteOrder, Sort;
    OptionListBytes(SortOptions(opts));
    OptionOrder();
    SortKeeps(LeOption, opts);
    var t := SortOptions(opts);
    forall i, j | 0 <= i < j < |opts| ensures InByteOrder(t[i].name, t[j].name) {
      assert LeOption(t[i], t[j]);
      LeBytesExact(t[i].name, t[j].name);
    }
  }

  // ---------------------------------------------------------------------
  // Certificates
  // ---------------------------------------------------------------------

  /** Who the certificate is for and from when. */
  function IdentityPart(c: Cert): bytes {
    Bytes8(c.serial) + Bytes4(c.certType) + LengthAnd(c.keyID) + LengthAnd(TextList(c.principals)) + Bytes8(c.validAfter)
  }

  /** Until when, under which conditions and by whom. */
  function ConstraintsPart(c: Cert): bytes {
    Bytes8(c.validBefore) + LengthAnd(OptionList(SortOptions(c.critical))) + LengthAnd(OptionList(SortOptions(c.extensions)))
    + LengthAnd(c.reserved) + LengthAnd(c.signatureKey)
  }

  /** What is signed, with the bytes that follow the name in the blob of the key. */
  function CertificateBody(c: Cert, keyFields: bytes): bytes {
    LengthAnd(CertAlgo(c.key.algo)) + LengthAnd(c.nonce) + keyFields + (IdentityPart(c) + ConstraintsPart(c))
  }

  /** A certificate on the wire: the fields in this order, then the signature. */
  lemma CertificateBytes(c: Cert, keyFields: bytes)
    requires |c.key.algo| < 0x1_0000_0000 && c.key.blob == LengthAnd(c.key.algo) + keyFields
    ensures Tbs(c) == CertificateBody(c, keyFields)
    ensures Marshalled(c) == CertificateBody(c, keyFields) + LengthAnd(c.signature)
  {
    hide EncField, LengthAnd, Bytes4, Bytes8, GetField, CertAlgo, Packed, SortOptions, TextList, OptionList, Strs;
    FieldBytes(Str(c.key.algo));
    GetFieldExact(KStr, c.key.blob, Str(c.key.algo), keyFields);
    FieldBytes(Str(CertAlgo(c.key.algo)));
    FieldBytes(Str(c.nonce));
    FieldBytes(Str(c.signature));
    TailBytes(c);
  }

  lemma TailBytes(c: Cert)
    ensures Enc(SignedTail(c)) == IdentityPart(c) + ConstraintsPart(c)
  {
    hide EncField, LengthAnd, Bytes4, Bytes8, Packed, SortOptions, TextList, OptionList, Strs;
    TextListBytes(c.principals);
    PackedBytes(c.critical);
    PackedBytes(c.extensions);
    var t := SignedTail(c);
    FieldBytes(t[0]);
    FieldBytes(t[1]);
    FieldBytes(t[2]);
    FieldBytes(t[3]);
    FieldBytes(t[4]);
    FieldBytes(t[5]);
    FieldBytes(t[6]);
    FieldBytes(t[7]);
    FieldBytes(t[8]);
    FieldBytes(t[9]);
    EncFive(t[..5]);
    EncFive(t[5..]);
    EncAppend(t[..5], t[5..]);
    assert t[..5] + t[5..] == t;
  }

  lemma EncFive(t: seq<Field>)
    requires |t| == 5
    ensures Enc(t) == EncField(t[0]) + EncField(t[1]) + EncField(t[2]) + EncField(t[3]) + EncField(t[4])
  {
    hide EncField, Enc;
    EncNext(t, 0);
    EncNext(t, 1);
    EncNext(t, 2);
    EncNext(t, 3);
    EncNext(t, 4);
    assert t[..5] == t;
  }

  lemma EncNext(t: seq<Field>, i: nat)
    requires i < |t|
    ensures Enc(t[..i + 1]) == if i == 0 then EncField(t[0]) else Enc(t[..i]) + EncField(t[i])
  {
    hide EncField;
    assert t[..i + 1] == t[..i] + [t[i]];
    EncSnoc(t[..i], t[i]);
  }

  /** What a parsed certificate is, and which certificates round trips are about. */
  lemma CertificateTypes(c: Cert, blob: bytes)
    ensures WellFormed(c) <==>
            && WellFormedKey(c.key) && (c.certType == 1 || c.certType == 2)
            && |c.nonce| < 0x1_0000_0000 && |c.keyID| < 0x1_0000_0000 && |TextList(c.principals)| < 0x1_0000_0000
            && |OptionList(SortOptions(c.critical))| < 0x1_0000_0000
            && |OptionList(SortOptions(c.extensions))| < 0x1_0000_0000
            && |c.reserved| < 0x1_0000_0000 && |c.signatureKey| < 0x1_0000_0000 && |c.signature| < 0x1_0000_0000
    ensures Parsed(blob).Some? ==> Parsed(blob).value.certType == 1 || Parsed(blob).value.certType == 2
  {
    hide RawOf, WellFormedKey, Packed, SortOptions, TextList, OptionList, Strs, Unpacked, DecStrings, Enc;
    TextListBytes(c.principals);
    PackedBytes(c.critical);
    PackedBytes(c.extensions);
    var t := SignedTail(c);
    assert WellFormed(c) ==> t[2].Fits() && t[3].Fits() && t[6].Fits() && t[7].Fits() && t[8].Fits() && t[9].Fits();
  }
}
