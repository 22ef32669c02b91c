/** internal/krl/krl.go: what key revocation lists are, their bytes and the parser's results. */
module Krl {
  import opened Basics
  import opened Wire
  import opened Sorting

  /** "SSHKRL\n\0" read as a big-endian uint64. */
  const MAGIC: u64 := 0x5353484b524c0a00
  const FORMAT_VERSION: u32 := 1
  const SECTION_CERTIFICATES: byte := 1
  const SERIAL_LIST: byte := 0x20
  const SERIAL_RANGE: byte := 0x21
  const KEY_ID: byte := 0x23
  const MAX_RANGE: int := 0x10_0000

  const SECOND: int := 1_000_000_000

  /** generatedAt is a point in time in nanoseconds since 1970. */
  datatype RevocationList = RevocationList(
    version: u64,
    generatedAt: int,
    comment: bytes,
    caKey: bytes,
    serials: seq<u64>,
    keyIDs: seq<bytes>)

  /** Time.Unix: whole seconds, rounded down. */
  function Unix(t: int): int {
    t / SECOND
  }

  /** Go's conversion int64(x) of a uint64. */
  function ToI64(x: u64): int {
    if x < 0x8000_0000_0000_0000 then x else x - TWO_TO_64
  }

  // ---------------------------------------------------------------------
  // Writing
  // ---------------------------------------------------------------------

  function Header(k: RevocationList): seq<Field> {
    [U64(MAGIC), U32(FORMAT_VERSION), U64(k.version), U64(ToU64(Unix(k.generatedAt))),
     U64(0), Str([]), Str(k.comment)]
  }

  /** A tagged blob: how sections and their subsections are framed. */
  function Tagged(tag: byte, data: bytes): (r: bytes)
    ensures |r| == |data| + 5
  {
    EncField(U8(tag)) + EncField(Str(data))
  }

  function Body(caKey: bytes, serials: seq<u64>, keyIDs: seq<bytes>): bytes {
    EncField(Str(caKey)) + EncField(Str([]))
    + (if serials == [] then [] else Tagged(SERIAL_LIST, Enc(Nums(serials))))
    + (if keyIDs == [] then [] else Tagged(KEY_ID, Enc(Strs(keyIDs))))
  }

  /** What is written into the certificate section. */
  function SectionOf(k: RevocationList): bytes {
    Body(k.caKey, SortedSet(LeU64, k.serials), Sort(LeBytes, k.keyIDs))
  }

  function Marshalled(k: RevocationList): bytes {
    Enc(Header(k)) + Tagged(SECTION_CERTIFICATES, SectionOf(k))
  }

  // ---------------------------------------------------------------------
  // Reading
  // ---------------------------------------------------------------------

  /** Endless: the loop that expands a serial range does not end. */
  datatype Outcome = Rejected | Endless | Done(k: RevocationList)

  function GetTagged(b: bytes): (r: Option<(byte, bytes, bytes)>)
    ensures r.Some? ==> |r.value.1| + |r.value.2| + 5 == |b|
  {
    match GetField(K8, b)
    case None => None
    case Some((tag, b1)) =>
      GetFieldLength(K8, b);
      match GetField(KStr, b1)
      case None => None
      case Some((data, rest)) =>
        GetFieldLength(KStr, b1);
        Some((tag.v8, data.s, rest))
  }

  lemma GetFieldLength(k: Kind, b: bytes)
    requires GetField(k, b).Some?
    ensures |EncField(GetField(k, b).value.0)| + |GetField(k, b).value.1| == |b|
  {
    EncodingOfGetField(k, b);
  }

  function Range(lo: u64, hi: u64): (r: seq<u64>)
    requires lo <= hi
    ensures |r| == hi - lo + 1
    decreases hi - lo
  {
    if lo == hi then [lo] else [lo] + Range(lo + 1, hi)
  }

  function Subsection(tag: byte, sub: bytes, k: RevocationList): Outcome {
    if tag == SERIAL_LIST then
      match DecNums(sub)
      case None => Rejected
      case Some(serials) => Done(k.(serials := k.serials + serials))
    else if tag == SERIAL_RANGE then
      match GetField(K64, sub)
      case None => Rejected
      case Some((lo, b1)) =>
        match GetField(K64, b1)
        case None => Rejected
        case Some((hi, _)) => RangeOutcome(lo.v64, hi.v64, k)
    else if tag == KEY_ID then
      match DecStrings(sub)
      case None => Rejected
      case Some(ids) => Done(k.(keyIDs := k.keyIDs + ids))
    else Rejected
  }

  function RangeOutcome(lo: u64, hi: u64, k: RevocationList): Outcome {
    if hi < lo || hi - lo >= MAX_RANGE then Rejected
    else if hi == MAX_U64 then Endless
    else Done(k.(serials := k.serials + Range(lo, hi)))
  }

  function Subsections(b: bytes, k: RevocationList): Outcome
    decreases |b|
  {
    if b == [] then Done(k)
    else
      match GetTagged(b)
      case None => Rejected
      case Some((tag, sub, rest)) =>
        match Subsection(tag, sub, k)
        case Done(k') => Subsections(rest, k')
        case stop => stop
  }

  /** What remains to be read after one subsection. */
  function AfterSubsection(o: Outcome, rest: bytes): Outcome {
    match o
    case Done(k) => Subsections(rest, k)
    case stop => stop
  }

  function CertSection(data: bytes, k: RevocationList): Outcome {
    match GetField(KStr, data)
    case None => Rejected
    case Some((caKey, b1)) =>
      match GetField(KStr, b1)
      case None => Rejected
      case Some((_, rest)) => Subsections(rest, k.(caKey := caKey.s))
  }

  function Sections(b: bytes, k: RevocationList): Outcome
    decreases |b|
  {
    if b == [] then Done(k)
    else
      match GetTagged(b)
      case None => Rejected
      case Some((tag, data, rest)) =>
        if tag != SECTION_CERTIFICATES then Sections(rest, k)
        else
          match CertSection(data, k)
          case Done(k') => Sections(rest, k')
          case stop => stop
  }

  /** What remains to be read after one certificate section. */
  function AfterSection(o: Outcome, rest: bytes): Outcome {
    match o
    case Done(k) => Sections(rest, k)
    case stop => stop
  }

  lemma SubsectionsStep(b: bytes, k: RevocationList)
    ensures b == [] ==> Subsections(b, k) == Done(k)
    ensures b != [] && GetTagged(b) == None ==> Subsections(b, k) == Rejected
    ensures b != [] && GetTagged(b).Some? ==>
              var t := GetTagged(b).value;
              Subsections(b, k) == AfterSubsection(Subsection(t.0, t.1, k), t.2)
  {
  }

  lemma SectionsStep(b: bytes, k: RevocationList)
    ensures b == [] ==> Sections(b, k) == Done(k)
    ensures b != [] && GetTagged(b) == None ==> Sections(b, k) == Rejected
    ensures b != [] && GetTagged(b).Some? ==>
              var t := GetTagged(b).value;
              Sections(b, k) == AfterSection(if t.0 == SECTION_CERTIFICATES then CertSection(t.1, k) else Done(k), t.2)
  {
  }

  function HeaderKinds(): (ks: seq<Kind>)
    ensures |ks| == 7
  {
    [K64, K32, K64, K64, K64, KStr, KStr]
  }

  /** The list so far, after the header fields h. */
  function FromHeader(h: seq<Field>): Option<RevocationList>
    requires HasKinds(HeaderKinds(), h)
  {
    assert h[0].Kind() == HeaderKinds()[0] && h[1].Kind() == HeaderKinds()[1] && h[2].Kind() == HeaderKinds()[2];
    assert h[3].Kind() == HeaderKinds()[3] && h[6].Kind() == HeaderKinds()[6];
    if h[0].v64 != MAGIC || h[1].v32 != FORMAT_VERSION then None
    else Some(RevocationList(h[2].v64, ToI64(h[3].v64) * SECOND, h[6].s, [], [], []))
  }

  function ParsedList(b: bytes): Outcome {
    match Dec(HeaderKinds(), b)
    case None => Rejected
    case Some((h, rest)) =>
      DecExact(HeaderKinds(), b, h, rest);
      match FromHeader(h)
      case None => Rejected
      case Some(k) => Sections(rest, k)
  }
}
