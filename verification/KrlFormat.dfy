/** Key revocation lists byte by byte: what is written, and what the reader does with what others write. */
module KrlFormat {
  import opened Basics
  import opened Wire
  import opened Sorting
  import opened Formats
  import opened Krl
  import opened KrlLaws
  import opened Authority

  /** "SSHKRL\n\0" and format version 1. */
  const PREAMBLE: bytes := [0x53, 0x53, 0x48, 0x4b, 0x52, 0x4c, 0x0a, 0x00, 0, 0, 0, 1]

  lemma PreambleBytes()
    ensures EncField(U64(MAGIC)) + EncField(U32(FORMAT_VERSION)) == PREAMBLE
  {
    hide EncField;
    MagicBytes();
    FieldBytes(U32(FORMAT_VERSION));
    assert Bytes4(1) == [0, 0, 0, 1];
  }

  lemma MagicBytes()
    ensures EncField(U64(MAGIC)) == [0x53, 0x53, 0x48, 0x4b, 0x52, 0x4c, 0x0a, 0x00]
  {
    hide BigEndian;
    LastByte(8, 0x5353_484b_524c_0a00);
    LastByte(7, 0x53_5348_4b52_4c0a);
    LastByte(6, 0x5353_484b_524c);
    LastByte(5, 0x53_5348_4b52);
    FourBytes(0x5353_484b);
  }

  /** A section or subsection: its tag, its length and its data. */
  function Part(tag: byte, data: bytes): bytes {
    [tag] + LengthAnd(data)
  }

  lemma PartBytes(tag: byte, data: bytes)
    ensures Tagged(tag, data) == Part(tag, data)
  {
    FieldBytes(U8(tag));
    FieldBytes(Str(data));
  }

  // ---------------------------------------------------------------------
  // Writing
  // ---------------------------------------------------------------------

  function HeaderText(version: u64, seconds: u64, flags: u64, reserved: bytes, comment: bytes): bytes {
    PREAMBLE + Bytes8(version) + Bytes8(seconds) + Bytes8(flags) + LengthAnd(reserved) + LengthAnd(comment)
  }

  /** One certificate section: the CA key, nothing reserved, 0x20 for serials and 0x23 for key IDs. */
  function SectionText(caKey: bytes, serials: seq<u64>, keyIDs: seq<bytes>): bytes {
    LengthAnd(caKey) + LengthAnd([])
    + (if serials == [] then [] else Part(0x20, NumberList(serials)))
    + (if keyIDs == [] then [] else Part(0x23, TextList(keyIDs)))
  }

  lemma HeaderBytes(version: u64, seconds: u64, flags: u64, reserved: bytes, comment: bytes)
    ensures Enc([U64(MAGIC), U32(FORMAT_VERSION), U64(version), U64(seconds), U64(flags), Str(reserved), Str(comment)])
            == HeaderText(version, seconds, flags, reserved, comment)
  {
    hide EncField, Bytes8, LengthAnd, Enc;
    var t := [U64(MAGIC), U32(FORMAT_VERSION), U64(version), U64(seconds), U64(flags), Str(reserved), Str(comment)];
    PreambleBytes();
    EncNext(t, 0);
    EncNext(t, 1);
    EncNext(t, 2);
    EncNext(t, 3);
    EncNext(t, 4);
    EncNext(t, 5);
    EncNext(t, 6);
    assert t[..7] == t;
    FieldBytes(U64(version));
    FieldBytes(U64(seconds));
    FieldBytes(U64(flags));
    FieldBytes(Str(reserved));
    FieldBytes(Str(comment));
  }

  /** The file: serials in strictly ascending order and key IDs in ascending byte order, with multiplicities. */
  lemma FileBytes(k: RevocationList) returns (serials: seq<u64>, keyIDs: seq<bytes>)
    ensures Marshalled(k) ==
            HeaderText(k.version, k.generatedAt / 1_000_000_000 % 0x1_0000_0000_0000_0000, 0, [], k.comment)
            + Part(0x01, SectionText(k.caKey, serials, keyIDs))
    ensures forall i, j :: 0 <= i < j < |serials| ==> serials[i] < serials[j]
    ensures forall s :: s in serials <==> s in k.serials
    ensures Ascending(keyIDs) && multiset(keyIDs) == multiset(k.keyIDs)
  {
    hide LeBytes, Sort, Uniq, InByteOrder, HeaderText, LengthAnd, NumberList, TextList, Part, Strs, Nums, Tagged;
    serials, keyIDs := SortedSet(LeU64, k.serials), Sort(LeBytes, k.keyIDs);
    Orders();
    SortedSetKeeps(LeU64, k.serials);
    SortKeeps(LeBytes, k.keyIDs);
    SortedAscends(keyIDs);
    HeaderBytes(k.version, ToU64(Unix(k.generatedAt)), 0, [], k.comment);
    FieldBytes(Str(k.caKey));
    FieldBytes(Str([]));
    NumberListBytes(serials);
    TextListBytes(keyIDs);
    PartBytes(0x20, NumberList(serials));
    PartBytes(0x23, TextList(keyIDs));
    PartBytes(0x01, SectionOf(k));
  }

  /** What the authority exports: the number of revocations as version, its key, the listed serials and key IDs. */
  lemma ExportBytes(env: Env, revoked: seq<Revocation>, now: int) returns (serials: seq<u64>, keyIDs: seq<bytes>)
    ensures Marshalled(KrlOf(env, revoked, now)) ==
            HeaderText(|revoked| % 0x1_0000_0000_0000_0000, now / 1_000_000_000 % 0x1_0000_0000_0000_0000, 0, [],
                       Ascii("certclerk revocation list"))
            + Part(0x01, SectionText(env.caPub.blob, serials, keyIDs))
    ensures forall i, j :: 0 <= i < j < |serials| ==> serials[i] < serials[j]
    ensures forall s: u64 :: s in serials <==> s != 0 && exists i :: 0 <= i < |revoked| && revoked[i].serial == s
    ensures Ascending(keyIDs)
    ensures forall id: bytes :: id in keyIDs <==>
              id != [] && exists i :: 0 <= i < |revoked| && revoked[i].serial == 0 && revoked[i].keyID == id
  {
    hide RevokedSerials, RevokedKeyIDs, Marshalled, HeaderText, SectionText, InByteOrder;
    serials, keyIDs := FileBytes(KrlOf(env, revoked, now));
    SameElements(keyIDs, RevokedKeyIDs(revoked));
  }

  // ---------------------------------------------------------------------
  // Reading
  // ---------------------------------------------------------------------

  /** Without the preamble there is nothing to read. */
  lemma PreambleNeeded(b: bytes)
    requires ParsedList(b) != Rejected
    ensures PREAMBLE <= b
  {
    hide Dec, Enc, EncField, Sections;
    var (h, rest) := Dec(HeaderKinds(), b).value;
    DecExact(HeaderKinds(), b, h, rest);
    assert h[0].Kind() == HeaderKinds()[0] && h[1].Kind() == HeaderKinds()[1];
    assert h[0] == U64(MAGIC) && h[1] == U32(FORMAT_VERSION);
    EncNext(h, 0);
    EncNext(h, 1);
    EncAppend(h[..2], h[2..]);
    assert h[..2] + h[2..] == h;
    PreambleBytes();
    assert b == PREAMBLE + (Enc(h[2..]) + rest);
  }

  /** Flags and the reserved string are read over; the date is taken as int64 seconds. */
  lemma HeaderAlone(version: u64, seconds: u64, flags: u64, reserved: bytes, comment: bytes)
    requires |reserved| < 0x1_0000_0000 && |comment| < 0x1_0000_0000
    ensures ParsedList(HeaderText(version, seconds, flags, reserved, comment)) ==
            Done(RevocationList(
              version, (if seconds < 0x8000_0000_0000_0000 then seconds else seconds - 0x1_0000_0000_0000_0000) * 1_000_000_000,
              comment, [], [], []))
  {
    hide Dec, Enc, HeaderText;
    var h := [U64(MAGIC), U32(FORMAT_VERSION), U64(version), U64(seconds), U64(flags), Str(reserved), Str(comment)];
    HeaderBytes(version, seconds, flags, reserved, comment);
    assert HasKinds(HeaderKinds(), h);
    assert Enc(h) + [] == Enc(h);
    DecExact(HeaderKinds(), Enc(h), h, []);
  }

  /** Sections of other kinds are skipped, whatever is in them. */
  lemma OtherSectionsSkipped(file: bytes, tag: byte, data: bytes)
    requires ParsedList(file).Done? && tag != 0x01 && |data| < 0x1_0000_0000
    ensures ParsedList(file + Part(tag, data)) == ParsedList(file)
  {
    hide ParsedList, Sections, Tagged, CertSection, Part;
    PartBytes(tag, data);
    ParseAppend(file, Tagged(tag, data));
    TaggedSection(tag, data, [], ParsedList(file).k);
    assert Tagged(tag, data) + [] == Tagged(tag, data);
    EmptyEnds(ParsedList(file).k, ParsedList(file).k);
  }

  /** A place behind accepted material where a subsection stands; more and rest follow it. */
  function With(file: bytes, section: bytes, tag: byte, sub: bytes, more: bytes, rest: bytes): bytes {
    file + (Part(0x01, section + (Part(tag, sub) + more)) + rest)
  }

  predicate Behind(file: bytes, section: bytes, tag: byte, sub: bytes, more: bytes) {
    && ParsedList(file).Done? && ParsedList(file + Part(0x01, section)).Done?
    && |section + (Part(tag, sub) + more)| < 0x1_0000_0000
  }

  /** What happens at that place is decided by the subsection, given the list that was read before it. */
  lemma SubsectionAt(file: bytes, section: bytes, tag: byte, sub: bytes, more: bytes, rest: bytes)
    requires Behind(file, section, tag, sub, more)
    ensures var k := ParsedList(file + Part(0x01, section)).k;
            ParsedList(With(file, section, tag, sub, more, rest)) ==
            AfterSection(AfterSubsection(Subsection(tag, sub, k), more), rest)
  {
    hide ParsedList, Sections, Tagged, CertSection, Subsection, Subsections, Part;
    var k := ParsedList(file).k;
    PartBytes(0x01, section);
    PartBytes(tag, sub);
    var data := section + (Tagged(tag, sub) + more);
    PartBytes(0x01, data);
    ParseAppend(file, Tagged(0x01, data) + rest);
    ParseAppend(file, Tagged(0x01, section));
    OneSection(section, k);
    TaggedSection(0x01, data, rest, k);
    CertSectionAppend(section, Tagged(tag, sub) + more, k);
    SubLonger(tag, sub);
    TaggedSubsection(tag, sub, more, CertSection(section, k).k);
  }

  lemma SubLonger(tag: byte, sub: bytes)
    ensures |Tagged(tag, sub)| > |sub|
  {
  }

  /** A subsection of any other kind rejects the file. */
  lemma OtherSubsectionsRejected(file: bytes, section: bytes, tag: byte, sub: bytes, more: bytes, rest: bytes)
    requires Behind(file, section, tag, sub, more) && tag != 0x20 && tag != 0x21 && tag != 0x23
    ensures ParsedList(With(file, section, tag, sub, more, rest)) == Rejected
  {
    hide ParsedList, With, Behind;
    SubsectionAt(file, section, tag, sub, more, rest);
  }

  /** A serial list adds exactly its eight-byte numbers, and rejects the file if it has a shorter one. */
  lemma SerialListAt(file: bytes, section: bytes, sub: bytes, rest: bytes)
    requires Behind(file, section, 0x20, sub, [])
    ensures var k := ParsedList(file + Part(0x01, section)).k;
            var r := ParsedList(With(file, section, 0x20, sub, [], rest));
            && (forall serials :: sub == NumberList(serials) ==>
                  r == AfterSection(Done(k.(serials := k.serials + serials)), rest))
            && ((forall serials :: sub != NumberList(serials)) ==> r == Rejected)
  {
    hide ParsedList, With, Behind, Sections, DecNums, NumberList;
    SubsectionAt(file, section, 0x20, sub, [], rest);
    forall serials ensures sub == NumberList(serials) <==> DecNums(sub) == Some(serials) {
      NumberListBytes(serials);
      DecNumsExact(sub, serials);
    }
  }

  /** A list of key IDs adds exactly its strings, and rejects the file if one is cut short. */
  lemma KeyIDListAt(file: bytes, section: bytes, sub: bytes, rest: bytes)
    requires Behind(file, section, 0x23, sub, [])
    ensures var k := ParsedList(file + Part(0x01, section)).k;
            var r := ParsedList(With(file, section, 0x23, sub, [], rest));
            && (forall keyIDs :: AllFit(keyIDs) && sub == TextList(keyIDs) ==>
                  r == AfterSection(Done(k.(keyIDs := k.keyIDs + keyIDs)), rest))
            && ((forall keyIDs :: AllFit(keyIDs) ==> sub != TextList(keyIDs)) ==> r == Rejected)
  {
    hide ParsedList, With, Behind, Sections, DecStrings, TextList, AllFit;
    SubsectionAt(file, section, 0x23, sub, [], rest);
    forall keyIDs ensures AllFit(keyIDs) && sub == TextList(keyIDs) <==> DecStrings(sub) == Some(keyIDs) {
      TextListBytes(keyIDs);
      DecStringsExact(sub, keyIDs);
    }
  }

  /** A range is rejected when it is empty or longer than 2^20; else it adds lo to hi or, up to 2^64-1, does not end. */
  lemma RangeAt(file: bytes, section: bytes, lo: u64, hi: u64, extra: bytes, more: bytes, rest: bytes)
    requires Behind(file, section, 0x21, Bytes8(lo) + Bytes8(hi) + extra, more)
    ensures var k := ParsedList(file + Part(0x01, section)).k;
            ParsedList(With(file, section, 0x21, Bytes8(lo) + Bytes8(hi) + extra, more, rest)) ==
            if hi < lo || hi - lo >= 1_048_576 then Rejected
            else if hi == 0xFFFF_FFFF_FFFF_FFFF then Endless
            else AfterSection(
              Subsections(more, k.(serials := k.serials + seq(hi - lo + 1, i requires 0 <= i < hi - lo + 1 => lo + i))), rest)
  {
    hide ParsedList, With, Behind, Sections, Subsections, GetField, EncField, Bytes8;
    var b1 := Bytes8(hi) + extra;
    var sub := Bytes8(lo) + b1;
    assert Bytes8(lo) + Bytes8(hi) + extra == sub;
    SubsectionAt(file, section, 0x21, sub, more, rest);
    FieldBytes(U64(lo));
    FieldBytes(U64(hi));
    GetFieldExact(K64, sub, U64(lo), b1);
    GetFieldExact(K64, b1, U64(hi), extra);
    if lo <= hi {
      RangeNumbers(lo, hi);
    }
  }

  lemma {:induction false} RangeNumbers(lo: u64, hi: u64)
    requires lo <= hi
    ensures Range(lo, hi) == seq(hi - lo + 1, i requires 0 <= i < hi - lo + 1 => lo + i)
    decreases hi - lo
  {
    if lo < hi {
      RangeNumbers(lo + 1, hi);
    }
  }
}
