/** Round trip, canonical bytes, bounds and termination of key revocation lists. */
module KrlLaws {
  import opened Basics
  import opened Wire
  import opened Sorting
  import opened Krl

  /** The parts of the list fit their length prefixes and its date an int64. */
  predicate Fits(k: RevocationList) {
    && |k.comment| < 0x1_0000_0000
    && |SectionOf(k)| < 0x1_0000_0000
    && -0x8000_0000_0000_0000 <= Unix(k.generatedAt) < 0x8000_0000_0000_0000
  }

  /** What a list becomes on the way through its bytes. */
  function Normal(k: RevocationList): RevocationList {
    k.(generatedAt := Unix(k.generatedAt) * SECOND,
       serials := SortedSet(LeU64, k.serials),
       keyIDs := Sort(LeBytes, k.keyIDs))
  }

  lemma GetTaggedOf(tag: byte, data: bytes, rest: bytes)
    requires |data| < 0x1_0000_0000
    ensures GetTagged(Tagged(tag, data) + rest) == Some((tag, data, rest))
  {
    hide GetField, EncField;
    var mid := EncField(Str(data)) + rest;
    assert Tagged(tag, data) + rest == EncField(U8(tag)) + mid;
    GetFieldExact(K8, Tagged(tag, data) + rest, U8(tag), mid);
    GetFieldExact(KStr, mid, Str(data), rest);
  }

  lemma TaggedSubsection(tag: byte, data: bytes, rest: bytes, k: RevocationList)
    requires |data| < 0x1_0000_0000
    ensures Subsections(Tagged(tag, data) + rest, k) == AfterSubsection(Subsection(tag, data, k), rest)
  {
    hide GetTagged, Subsection, Subsections;
    GetTaggedOf(tag, data, rest);
    assert |Tagged(tag, data)| > 0;
    SubsectionsStep(Tagged(tag, data) + rest, k);
  }

  lemma CertSectionOf(caKey: bytes, serials: seq<u64>, keyIDs: seq<bytes>, k: RevocationList)
    requires |Body(caKey, serials, keyIDs)| < 0x1_0000_0000
    ensures CertSection(Body(caKey, serials, keyIDs), k) ==
            Done(k.(caKey := caKey, serials := k.serials + serials, keyIDs := k.keyIDs + keyIDs))
  {
    hide GetField, EncField, Enc, DecNums, DecStrings, Subsections, Strs, Nums, Tagged;
    var s := if serials == [] then [] else Tagged(SERIAL_LIST, Enc(Nums(serials)));
    var t := if keyIDs == [] then [] else Tagged(KEY_ID, Enc(Strs(keyIDs)));
    var b := Body(caKey, serials, keyIDs);
    assert b == EncField(Str(caKey)) + (EncField(Str([])) + (s + t));
    GetFieldExact(KStr, b, Str(caKey), EncField(Str([])) + (s + t));
    GetFieldExact(KStr, EncField(Str([])) + (s + t), Str([]), s + t);
    var k1 := k.(caKey := caKey);
    SerialPart(serials, t, k1);
    KeyIDPart(keyIDs, k1.(serials := k1.serials + serials));
  }

  lemma SerialPart(serials: seq<u64>, rest: bytes, k: RevocationList)
    requires serials != [] ==> |Enc(Nums(serials))| < 0x1_0000_0000
    ensures var s := if serials == [] then [] else Tagged(SERIAL_LIST, Enc(Nums(serials)));
            Subsections(s + rest, k) == Subsections(rest, k.(serials := k.serials + serials))
  {
    hide Enc, DecNums, Subsections, Tagged;
    if serials == [] {
      assert [] + rest == rest && k.serials + serials == k.serials;
    } else {
      DecNumsExact(Enc(Nums(serials)), serials);
      TaggedSubsection(SERIAL_LIST, Enc(Nums(serials)), rest, k);
    }
  }

  lemma KeyIDPart(keyIDs: seq<bytes>, k: RevocationList)
    requires keyIDs != [] ==> |Enc(Strs(keyIDs))| < 0x1_0000_0000
    ensures var t := if keyIDs == [] then [] else Tagged(KEY_ID, Enc(Strs(keyIDs)));
            Subsections(t, k) == Done(k.(keyIDs := k.keyIDs + keyIDs))
  {
    hide Enc, DecStrings, Subsections, Tagged;
    EmptyEnds(k, k.(keyIDs := k.keyIDs + keyIDs));
    if keyIDs == [] {
      assert k.keyIDs + keyIDs == k.keyIDs;
    } else {
      StrsLength(keyIDs);
      assert AllFit(keyIDs);
      DecStringsExact(Enc(Strs(keyIDs)), keyIDs);
      TaggedSubsection(KEY_ID, Enc(Strs(keyIDs)), [], k);
      assert Tagged(KEY_ID, Enc(Strs(keyIDs))) + [] == Tagged(KEY_ID, Enc(Strs(keyIDs)));
    }
  }

  lemma EmptyEnds(k: RevocationList, k': RevocationList)
    ensures Subsections([], k) == Done(k) && Subsections([], k') == Done(k')
    ensures Sections([], k) == Done(k)
  {
  }

  lemma HeaderKindsOf(k: RevocationList)
    requires |k.comment| < 0x1_0000_0000
    ensures HasKinds(HeaderKinds(), Header(k))
    ensures FromHeader(Header(k)) ==
            Some(RevocationList(k.version, ToI64(ToU64(Unix(k.generatedAt))) * SECOND, k.comment, [], [], []))
  {
  }

  lemma DateThroughU64(t: int)
    requires -0x8000_0000_0000_0000 <= t < 0x8000_0000_0000_0000
    ensures ToI64(ToU64(t)) == t
  {
  }

  /** A list survives its bytes: serials as an ascending set, key IDs sorted, the date in seconds. */
  lemma ListRoundTrip(k: RevocationList)
    requires Fits(k)
    ensures ParsedList(Marshalled(k)) == Done(Normal(k))
  {
    hide Dec, Enc, Header, HeaderKinds, FromHeader, SectionOf, CertSection, Unix, Sections;
    var h, section := Header(k), SectionOf(k);
    var rest := Tagged(SECTION_CERTIFICATES, section);
    HeaderKindsOf(k);
    DecExact(HeaderKinds(), Marshalled(k), h, rest);
    DateThroughU64(Unix(k.generatedAt));
    var k0 := FromHeader(h).value;
    SectionIs(k);
    CertSectionOf(k.caKey, SortedSet(LeU64, k.serials), Sort(LeBytes, k.keyIDs), k0);
    assert k0.serials + SortedSet(LeU64, k.serials) == SortedSet(LeU64, k.serials);
    assert k0.keyIDs + Sort(LeBytes, k.keyIDs) == Sort(LeBytes, k.keyIDs);
    OneSection(section, k0);
  }

  lemma SectionIs(k: RevocationList)
    ensures SectionOf(k) == Body(k.caKey, SortedSet(LeU64, k.serials), Sort(LeBytes, k.keyIDs))
  {
  }

  lemma OneSection(section: bytes, k: RevocationList)
    requires |section| < 0x1_0000_0000
    ensures Sections(Tagged(SECTION_CERTIFICATES, section), k) == CertSection(section, k)
  {
    hide GetTagged, CertSection;
    GetTaggedOf(SECTION_CERTIFICATES, section, []);
    assert Tagged(SECTION_CERTIFICATES, section) + [] == Tagged(SECTION_CERTIFICATES, section);
    assert |Tagged(SECTION_CERTIFICATES, section)| > 0;
    if CertSection(section, k).Done? {
      EmptyEnds(CertSection(section, k).k, k);
    }
  }

  // ---------------------------------------------------------------------
  // Canonical bytes
  // ---------------------------------------------------------------------

  /** The lists say the same: same header, same CA, same set of serials, same multiset of key IDs. */
  ghost predicate SameMeaning(x: RevocationList, y: RevocationList) {
    && x.version == y.version && Unix(x.generatedAt) == Unix(y.generatedAt)
    && x.comment == y.comment && x.caKey == y.caKey
    && (forall s :: s in x.serials <==> s in y.serials)
    && multiset(x.keyIDs) == multiset(y.keyIDs)
  }

  /** Lists have the same bytes exactly when they say the same. */
  lemma CanonicalBytes(x: RevocationList, y: RevocationList)
    ensures SameMeaning(x, y) ==> Marshalled(x) == Marshalled(y)
    ensures Fits(x) && Fits(y) && Marshalled(x) == Marshalled(y) ==> SameMeaning(x, y)
  {
    hide Marshalled, Sort, Uniq, ParsedList, LeBytes, SectionOf, Unix;
    Orders();
    SortedSetKeeps(LeU64, x.serials);
    SortedSetKeeps(LeU64, y.serials);
    SortKeeps(LeBytes, x.keyIDs);
    SortKeeps(LeBytes, y.keyIDs);
    if SameMeaning(x, y) {
      EnumerationUnique(LeU64, SortedSet(LeU64, x.serials), SortedSet(LeU64, y.serials));
      ArrangementUnique(LeBytes, Sort(LeBytes, x.keyIDs), Sort(LeBytes, y.keyIDs));
      NormalBytes(x, y);
    }
    if Fits(x) && Fits(y) && Marshalled(x) == Marshalled(y) {
      ListRoundTrip(x);
      ListRoundTrip(y);
      assert Normal(x) == Normal(y);
      assert Unix(x.generatedAt) * SECOND == Unix(y.generatedAt) * SECOND;
      assert forall s :: s in x.serials <==> s in SortedSet(LeU64, x.serials);
      assert forall s :: s in y.serials <==> s in SortedSet(LeU64, y.serials);
    }
  }

  lemma NormalBytes(x: RevocationList, y: RevocationList)
    requires x.version == y.version && Unix(x.generatedAt) == Unix(y.generatedAt)
    requires x.comment == y.comment && x.caKey == y.caKey
    requires SortedSet(LeU64, x.serials) == SortedSet(LeU64, y.serials)
    requires Sort(LeBytes, x.keyIDs) == Sort(LeBytes, y.keyIDs)
    ensures Marshalled(x) == Marshalled(y)
  {
  }

  // ---------------------------------------------------------------------
  // Ranges, termination and bounds
  // ---------------------------------------------------------------------

  /** The loop variable of the expansion of lo..hi after n increments of a uint64. */
  function Counter(lo: u64, n: nat): u64 {
    ToU64(lo + n)
  }

  /** The expansion loop leaves its guard exactly when hi is not the largest uint64. */
  lemma RangeLoopEnds(lo: u64, hi: u64)
    requires lo <= hi
    ensures (exists n: nat :: Counter(lo, n) > hi) <==> hi != MAX_U64
    ensures hi != MAX_U64 ==> forall n: nat :: n <= hi - lo ==> Counter(lo, n) == lo + n
  {
    if hi != MAX_U64 {
      assert Counter(lo, hi - lo + 1) == hi + 1;
    }
  }

  /** A range subsection means the list of its members. */
  lemma RangeIsList(lo: u64, hi: u64, extra: bytes, k: RevocationList)
    requires lo <= hi < MAX_U64 && hi - lo < MAX_RANGE
    ensures Subsection(SERIAL_RANGE, Enc([U64(lo), U64(hi)]) + extra, k) ==
            Subsection(SERIAL_LIST, Enc(Nums(Range(lo, hi))), k)
    ensures forall s: u64 :: s in Range(lo, hi) <==> lo <= s <= hi
  {
    hide GetField, EncField, DecNums;
    DecNumsExact(Enc(Nums(Range(lo, hi))), Range(lo, hi));
    RangeMembers(lo, hi);
    var b1 := EncField(U64(hi)) + extra;
    assert [U64(lo), U64(hi)][1..] == [U64(hi)] && [U64(hi)][1..] == [];
    assert Enc([U64(hi)]) == EncField(U64(hi));
    assert Enc([U64(lo), U64(hi)]) + extra == EncField(U64(lo)) + b1;
    GetFieldExact(K64, Enc([U64(lo), U64(hi)]) + extra, U64(lo), b1);
    GetFieldExact(K64, b1, U64(hi), extra);
  }

  lemma {:induction false} RangeMembers(lo: u64, hi: u64)
    requires lo <= hi
    ensures forall s: u64 :: s in Range(lo, hi) <==> lo <= s <= hi
    decreases hi - lo
  {
    if lo < hi {
      RangeMembers(lo + 1, hi);
    }
  }

  /** A serial range of acceptable size whose last serial is the largest uint64. */
  predicate EndlessRange(tag: byte, sub: bytes) {
    tag == SERIAL_RANGE && |sub| >= 16 && sub[8..16] == EncField(U64(MAX_U64)) &&
    FromBigEndian(sub[..8]) > MAX_U64 - MAX_RANGE
  }

  /** Such ranges are the only endless subsections. */
  lemma EndlessSubsection(tag: byte, sub: bytes, k: RevocationList)
    ensures Subsection(tag, sub, k) == Endless <==> EndlessRange(tag, sub)
  {
    if tag == SERIAL_RANGE && |sub| >= 16 {
      var hi := GetField(K64, sub[8..]).value.0;
      assert sub[8..][..8] == sub[8..16];
      EncodingOfGetField(K64, sub[8..]);
      EncodingOfGetField(K64, sub);
      assert EncField(hi) == sub[8..16];
      MaxBytes(hi.v64);
    }
  }

  predicate SubsectionsEnd(b: bytes)
    decreases |b|
  {
    match GetTagged(b)
    case None => true
    case Some((tag, sub, rest)) => !EndlessRange(tag, sub) && SubsectionsEnd(rest)
  }

  predicate CertSectionEnds(data: bytes) {
    match GetField(KStr, data)
    case None => true
    case Some((_, b1)) =>
      match GetField(KStr, b1)
      case None => true
      case Some((_, rest)) => SubsectionsEnd(rest)
  }

  predicate SectionsEnd(b: bytes)
    decreases |b|
  {
    match GetTagged(b)
    case None => true
    case Some((tag, data, rest)) => (tag == SECTION_CERTIFICATES ==> CertSectionEnds(data)) && SectionsEnd(rest)
  }

  /** No certificate section of the file has such a range. */
  predicate NoEndlessRange(b: bytes) {
    match Dec(HeaderKinds(), b)
    case None => true
    case Some((_, rest)) => SectionsEnd(rest)
  }

  lemma {:induction false} SubsectionsEndOK(b: bytes, k: RevocationList)
    requires SubsectionsEnd(b)
    ensures Subsections(b, k) != Endless
    decreases |b|
  {
    hide GetTagged, Subsection, EndlessRange;
    if b != [] && GetTagged(b).Some? {
      var (tag, sub, rest) := GetTagged(b).value;
      EndlessSubsection(tag, sub, k);
      if Subsection(tag, sub, k).Done? {
        SubsectionsEndOK(rest, Subsection(tag, sub, k).k);
      }
    }
  }

  lemma {:induction false} SectionsEndOK(b: bytes, k: RevocationList)
    requires SectionsEnd(b)
    ensures Sections(b, k) != Endless
    decreases |b|
  {
    hide GetTagged, GetField, Subsections;
    if b != [] && GetTagged(b).Some? {
      var (tag, data, rest) := GetTagged(b).value;
      if tag != SECTION_CERTIFICATES {
        SectionsEndOK(rest, k);
      } else if GetField(KStr, data).Some? {
        var (caKey, b1) := GetField(KStr, data).value;
        if GetField(KStr, b1).Some? {
          SubsectionsEndOK(GetField(KStr, b1).value.1, k.(caKey := caKey.s));
          if CertSection(data, k).Done? {
            SectionsEndOK(rest, CertSection(data, k).k);
          }
        }
      }
    }
  }

  /** On every file without such a range Parse ends. */
  lemma ParseEnds(b: bytes)
    requires NoEndlessRange(b)
    ensures ParsedList(b) != Endless
  {
    hide Dec, FromHeader, Sections;
    match Dec(HeaderKinds(), b)
    case None =>
    case Some((h, rest)) =>
      DecExact(HeaderKinds(), b, h, rest);
      if FromHeader(h).Some? {
        SectionsEndOK(rest, FromHeader(h).value);
      }
  }

  // ---------------------------------------------------------------------
  // Exactly which files Parse does not end on
  // ---------------------------------------------------------------------

  lemma TaggedOfGet(b: bytes)
    requires GetTagged(b).Some?
    ensures var t := GetTagged(b).value;
            b == Tagged(t.0, t.1) + t.2 && |t.1| < 0x1_0000_0000
  {
    hide GetField, EncField;
    var (tag, b1) := GetField(K8, b).value;
    var (data, rest) := GetField(KStr, b1).value;
    GetFieldExact(K8, b, tag, b1);
    GetFieldExact(KStr, b1, data, rest);
    assert EncField(tag) + (EncField(data) + rest) == EncField(tag) + EncField(data) + rest;
  }

  lemma TaggedSection(tag: byte, data: bytes, rest: bytes, k: RevocationList)
    requires |data| < 0x1_0000_0000
    ensures Sections(Tagged(tag, data) + rest, k) ==
            AfterSection(if tag == SECTION_CERTIFICATES then CertSection(data, k) else Done(k), rest)
  {
    hide GetTagged, CertSection, Sections;
    GetTaggedOf(tag, data, rest);
    assert |Tagged(tag, data)| > 0;
    SectionsStep(Tagged(tag, data) + rest, k);
  }

  /** Behind accepted subsections the parser goes on with the list so far. */
  lemma {:induction false} SubsectionsAppend(a: bytes, more: bytes, k: RevocationList)
    requires Subsections(a, k).Done?
    ensures Subsections(a + more, k) == Subsections(more, Subsections(a, k).k)
    decreases |a|
  {
    hide GetTagged, Subsection, Tagged;
    if a == [] {
      assert a + more == more;
    } else {
      var (tag, sub, rest) := GetTagged(a).value;
      TaggedOfGet(a);
      assert a + more == Tagged(tag, sub) + (rest + more);
      TaggedSubsection(tag, sub, rest + more, k);
      SubsectionsAppend(rest, more, Subsection(tag, sub, k).k);
    }
  }

  /** Behind accepted sections too. */
  lemma {:induction false} SectionsAppend(a: bytes, more: bytes, k: RevocationList)
    requires Sections(a, k).Done?
    ensures Sections(a + more, k) == Sections(more, Sections(a, k).k)
    decreases |a|
  {
    hide GetTagged, CertSection, Tagged;
    if a == [] {
      assert a + more == more;
    } else {
      var (tag, data, rest) := GetTagged(a).value;
      TaggedOfGet(a);
      assert a + more == Tagged(tag, data) + (rest + more);
      TaggedSection(tag, data, rest + more, k);
      SectionsAppend(rest, more, if tag == SECTION_CERTIFICATES then CertSection(data, k).k else k);
    }
  }

  lemma CertSectionAppend(a: bytes, more: bytes, k: RevocationList)
    requires CertSection(a, k).Done?
    ensures CertSection(a + more, k) == Subsections(more, CertSection(a, k).k)
  {
    hide GetField, Subsections;
    var (caKey, b1) := GetField(KStr, a).value;
    var (_, rest) := GetField(KStr, b1).value;
    GetFieldExtends(KStr, a, more);
    GetFieldExtends(KStr, b1, more);
    SubsectionsAppend(rest, more, k.(caKey := caKey.s));
  }

  /** An accepted file may be continued with further sections. */
  lemma ParseAppend(a: bytes, more: bytes)
    requires ParsedList(a).Done?
    ensures ParsedList(a + more) == Sections(more, ParsedList(a).k)
  {
    hide Dec, Enc, FromHeader, Sections, HasKinds, HeaderKinds;
    var (h, rest) := Dec(HeaderKinds(), a).value;
    DecExact(HeaderKinds(), a, h, rest);
    assert a + more == Enc(h) + (rest + more);
    DecExact(HeaderKinds(), a + more, h, rest + more);
    SectionsAppend(rest, more, FromHeader(h).value);
  }

  /** Where an endless range stands: behind accepted subsections of a certificate section behind an accepted file. */
  datatype Place = Place(file: bytes, section: bytes, range: bytes, more: bytes, rest: bytes)

  function Around(p: Place): bytes {
    Tagged(SECTION_CERTIFICATES, p.section + Tagged(SERIAL_RANGE, p.range) + p.more) + p.rest
  }

  predicate PlaceFits(p: Place) {
    && |p.section + Tagged(SERIAL_RANGE, p.range) + p.more| < 0x1_0000_0000
    && EndlessRange(SERIAL_RANGE, p.range)
  }

  /** The range at p is the first thing the parser cannot get past. */
  predicate EndlessAt(b: bytes, p: Place) {
    && b == p.file + Around(p) && PlaceFits(p)
    && ParsedList(p.file).Done?
    && ParsedList(p.file + Tagged(SECTION_CERTIFICATES, p.section)).Done?
  }

  lemma {:induction false} EndlessSubsectionFound(b: bytes, k: RevocationList) returns (a: bytes, range: bytes, more: bytes)
    requires Subsections(b, k) == Endless
    ensures b == a + Tagged(SERIAL_RANGE, range) + more
    ensures Subsections(a, k).Done? && EndlessRange(SERIAL_RANGE, range)
    decreases |b|
  {
    hide GetTagged, Subsection, Tagged, EndlessRange;
    var (tag, sub, rest) := GetTagged(b).value;
    TaggedOfGet(b);
    EndlessSubsection(tag, sub, k);
    if Subsection(tag, sub, k) == Endless {
      a, range, more := [], sub, rest;
      EndlessTag(tag, sub);
    } else {
      a, range, more := EndlessSubsectionFound(rest, Subsection(tag, sub, k).k);
      TaggedSubsection(tag, sub, a, k);
      a := Tagged(tag, sub) + a;
    }
  }

  lemma EndlessTag(tag: byte, sub: bytes)
    requires EndlessRange(tag, sub)
    ensures tag == SERIAL_RANGE
  {
  }

  lemma EndlessCertSectionFound(b: bytes, k: RevocationList) returns (a: bytes, range: bytes, more: bytes)
    requires CertSection(b, k) == Endless
    ensures b == a + Tagged(SERIAL_RANGE, range) + more
    ensures CertSection(a, k).Done? && EndlessRange(SERIAL_RANGE, range)
  {
    hide GetField, EncField, Subsections, Tagged, EndlessRange;
    var (caKey, b1) := GetField(KStr, b).value;
    var (reserved, b2) := GetField(KStr, b1).value;
    GetFieldExact(KStr, b, caKey, b1);
    GetFieldExact(KStr, b1, reserved, b2);
    a, range, more := EndlessSubsectionFound(b2, k.(caKey := caKey.s));
    GetFieldExact(KStr, EncField(reserved) + a, reserved, a);
    GetFieldExact(KStr, EncField(caKey) + (EncField(reserved) + a), caKey, EncField(reserved) + a);
    a := EncField(caKey) + (EncField(reserved) + a);
  }

  lemma {:induction false} EndlessSectionFound(b: bytes, k: RevocationList) returns (p: Place)
    requires Sections(b, k) == Endless
    ensures b == p.file + Around(p) && PlaceFits(p)
    ensures Sections(p.file, k).Done? && CertSection(p.section, Sections(p.file, k).k).Done?
    decreases |b|
  {
    hide GetTagged, CertSection, Tagged, EndlessRange;
    var (tag, data, rest) := GetTagged(b).value;
    TaggedOfGet(b);
    if tag == SECTION_CERTIFICATES && CertSection(data, k) == Endless {
      var a, range, more := EndlessCertSectionFound(data, k);
      p := Place([], a, range, more, rest);
      assert p.file + Around(p) == Around(p);
    } else {
      var q := EndlessSectionFound(rest, if tag == SECTION_CERTIFICATES then CertSection(data, k).k else k);
      TaggedSection(tag, data, q.file, k);
      p := q.(file := Tagged(tag, data) + q.file);
      assert Around(p) == Around(q);
      assert p.file + Around(p) == Tagged(tag, data) + (q.file + Around(q));
    }
  }

  /** Parse fails to end exactly on accepted files continued by an endless range, whatever follows. */
  lemma EndlessExactly(b: bytes)
    ensures ParsedList(b) == Endless <==> exists p :: EndlessAt(b, p)
  {
    hide ParsedList, PlaceFits, Around;
    if ParsedList(b) == Endless {
      var p := EndlessFileFound(b);
      assert EndlessAt(b, p);
    }
    forall p | EndlessAt(b, p) ensures ParsedList(b) == Endless {
      EndlessAtLoops(b, p);
    }
  }

  lemma EndlessFileFound(b: bytes) returns (p: Place)
    requires ParsedList(b) == Endless
    ensures EndlessAt(b, p)
  {
    hide Dec, Enc, FromHeader, Sections, HasKinds, HeaderKinds, Tagged, CertSection, PlaceFits, Around;
    var (h, rest) := Dec(HeaderKinds(), b).value;
    DecExact(HeaderKinds(), b, h, rest);
    var q := EndlessSectionFound(rest, FromHeader(h).value);
    p := q.(file := Enc(h) + q.file);
    SamePlace(q, p.file);
    DecExact(HeaderKinds(), p.file, h, q.file);
    assert b == p.file + Around(p);
    ParseAppend(p.file, Tagged(SECTION_CERTIFICATES, p.section));
    OneMoreSection(q, ParsedList(p.file).k);
  }

  lemma SamePlace(q: Place, file: bytes)
    ensures Around(q.(file := file)) == Around(q) && PlaceFits(q.(file := file)) == PlaceFits(q)
  {
  }

  lemma OneMoreSection(p: Place, k: RevocationList)
    requires PlaceFits(p)
    ensures Sections(Tagged(SECTION_CERTIFICATES, p.section), k) == CertSection(p.section, k)
  {
    OneSection(p.section, k);
  }

  lemma EndlessAtLoops(b: bytes, p: Place)
    requires EndlessAt(b, p)
    ensures ParsedList(b) == Endless
  {
    hide ParsedList, Sections, Tagged, CertSection, EndlessRange, Subsection, Subsections;
    var k := ParsedList(p.file).k;
    ParseAppend(p.file, Around(p));
    ParseAppend(p.file, Tagged(SECTION_CERTIFICATES, p.section));
    OneSection(p.section, k);
    var t := Tagged(SERIAL_RANGE, p.range) + p.more;
    assert p.section + Tagged(SERIAL_RANGE, p.range) + p.more == p.section + t;
    TaggedSection(SECTION_CERTIFICATES, p.section + t, p.rest, k);
    CertSectionAppend(p.section, t, k);
    var k' := CertSection(p.section, k).k;
    TaggedLonger(p.range);
    TaggedSubsection(SERIAL_RANGE, p.range, p.more, k');
    EndlessSubsection(SERIAL_RANGE, p.range, k');
  }

  lemma TaggedLonger(range: bytes)
    ensures |Tagged(SERIAL_RANGE, range)| > |range|
  {
  }

  lemma MaxBytes(v: u64)
    ensures EncField(U64(v)) == EncField(U64(MAX_U64)) <==> v == MAX_U64
  {
    hide GetField, EncField;
    var b := EncField(U64(v));
    assert b + [] == b && EncField(U64(MAX_U64)) + [] == EncField(U64(MAX_U64));
    GetFieldExact(K64, b, U64(v), []);
    GetFieldExact(K64, b, U64(MAX_U64), []);
  }

  /** A file with one range of one serial: the largest. */
  function EndlessFile(k: RevocationList): bytes {
    var max := EncField(U64(MAX_U64));
    Enc(Header(k)) +
    Tagged(SECTION_CERTIFICATES, EncField(Str(k.caKey)) + (EncField(Str([])) + Tagged(SERIAL_RANGE, max + max)))
  }

  /** Parse does not end on every file: here is one it does not end on, for any header. */
  lemma ParseCanBeEndless(k: RevocationList)
    requires |k.comment| < 0x1_0000_0000 && |k.caKey| < 1000
    ensures ParsedList(EndlessFile(k)) == Endless
  {
    hide Dec, GetField, Enc, EncField, Header, HeaderKinds, FromHeader, Sections, Subsections;
    HeaderKindsOf(k);
    var max := EncField(U64(MAX_U64));
    var t := Tagged(SERIAL_RANGE, max + max);
    var section := EncField(Str(k.caKey)) + (EncField(Str([])) + t);
    assert |max + max| == 16 && |section| < 2000;
    DecExact(HeaderKinds(), EndlessFile(k), Header(k), Tagged(SECTION_CERTIFICATES, section));
    var k0 := FromHeader(Header(k)).value;
    OneSection(section, k0);
    GetFieldExact(KStr, section, Str(k.caKey), EncField(Str([])) + t);
    GetFieldExact(KStr, EncField(Str([])) + t, Str([]), t);
    TaggedSubsection(SERIAL_RANGE, max + max, [], k0.(caKey := k.caKey));
    assert t + [] == t && max + [] == max;
    GetFieldExact(K64, max + max, U64(MAX_U64), max);
    GetFieldExact(K64, max, U64(MAX_U64), []);
  }

  /** What one subsection adds is paid for by its bytes. */
  lemma SubsectionBound(tag: byte, sub: bytes, k: RevocationList)
    requires Subsection(tag, sub, k).Done?
    ensures var k' := Subsection(tag, sub, k).k;
            && 21 * (|k'.serials| - |k.serials|) <= MAX_RANGE * (|sub| + 5)
            && 4 * (|k'.keyIDs| - |k.keyIDs|) <= |sub|
            && k'.keyIDs[..|k.keyIDs|] == k.keyIDs
  {
    hide GetField, DecNums, DecStrings;
    if tag == SERIAL_LIST {
      var serials := DecNums(sub).value;
      DecNumsExact(sub, serials);
      NumsLength(serials);
    } else if tag == SERIAL_RANGE {
      var (lo, b1) := GetField(K64, sub).value;
      GetFieldLength(K64, sub);
      GetFieldLength(K64, b1);
      EncodingOfGetField(K64, sub);
      EncodingOfGetField(K64, b1);
    } else {
      var ids := DecStrings(sub).value;
      DecStringsExact(sub, ids);
      StrsLength(ids);
    }
  }

  lemma {:induction false} SubsectionsBound(b: bytes, k: RevocationList)
    requires Subsections(b, k).Done?
    ensures var k' := Subsections(b, k).k;
            && 21 * (|k'.serials| - |k.serials|) <= MAX_RANGE * |b|
            && 4 * (|k'.keyIDs| - |k.keyIDs|) <= |b|
    decreases |b|
  {
    hide GetTagged, Subsection;
    if b != [] {
      var (tag, sub, rest) := GetTagged(b).value;
      SubsectionBound(tag, sub, k);
      SubsectionsBound(rest, Subsection(tag, sub, k).k);
    }
  }

  lemma {:induction false} SectionsBound(b: bytes, k: RevocationList)
    requires Sections(b, k).Done?
    ensures var k' := Sections(b, k).k;
            && 21 * (|k'.serials| - |k.serials|) <= MAX_RANGE * |b|
            && 4 * (|k'.keyIDs| - |k.keyIDs|) <= |b|
    decreases |b|
  {
    hide GetTagged, GetField, Subsections;
    if b != [] {
      var (tag, data, rest) := GetTagged(b).value;
      if tag != SECTION_CERTIFICATES {
        SectionsBound(rest, k);
      } else {
        var (caKey, b1) := GetField(KStr, data).value;
        var (_, b2) := GetField(KStr, b1).value;
        SubsectionsBound(b2, k.(caKey := caKey.s));
        SectionsBound(rest, CertSection(data, k).k);
      }
    }
  }

  /** However ranges expand, what Parse returns is linear in the size of the file. */
  lemma ParseBound(b: bytes)
    requires ParsedList(b).Done?
    ensures 21 * |ParsedList(b).k.serials| <= MAX_RANGE * |b|
    ensures 4 * |ParsedList(b).k.keyIDs| <= |b|
  {
    hide Dec, FromHeader, Sections;
    var (h, rest) := Dec(HeaderKinds(), b).value;
    DecExact(HeaderKinds(), b, h, rest);
    HeaderStarts(h);
    SectionsBound(rest, FromHeader(h).value);
  }

  lemma HeaderStarts(h: seq<Field>)
    requires HasKinds(HeaderKinds(), h) && FromHeader(h).Some?
    ensures FromHeader(h).value.serials == [] && FromHeader(h).value.keyIDs == []
  {
  }
}
