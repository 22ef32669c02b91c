/** The KRL object of internal/krl/krl.go and its operations on buffers, readers and arrays. */
module KrlObjects {
  import opened Basics
  import opened Wire
  import opened Sorting
  import opened Krl

  class KRL {
    var version: u64
    var generatedAt: int
    var comment: bytes
    var caKey: bytes
    var serials: seq<u64>
    var keyIDs: seq<bytes>

    constructor ()
      ensures Value() == RevocationList(0, 0, [], [], [], [])
    {
      version, generatedAt, comment, caKey, serials, keyIDs := 0, 0, [], [], [], [];
    }

    function Value(): RevocationList
      reads this
    {
      RevocationList(version, generatedAt, comment, caKey, serials, keyIDs)
    }

    method Marshal() returns (r: bytes)
      ensures r == Marshalled(Value())
    {
      hide EncField, Enc, SectionOf, Header, Tagged;
      var w := new Buffer();
      WriteHeader(w);
      var body := MarshalSection();
      WriteTagged(w, SECTION_CERTIFICATES, body);
      r := w.Bytes();
    }

    method MarshalSection() returns (r: bytes)
      ensures r == SectionOf(Value())
    {
      hide EncField, Enc, Sort, Uniq, Nums, Strs, Tagged, SectionOf;
      SectionWritten(Value());
      var body := new Buffer();
      body.Bytes32(caKey);
      body.String([]);
      assert body.b == EncField(Str(caKey)) + EncField(Str([]));
      var sorted := DedupSorted(serials);
      if |sorted| > 0 {
        var list := PackSerials(sorted);
        WriteTagged(body, SERIAL_LIST, list);
      }
      if |keyIDs| > 0 {
        var ids := Sort(LeBytes, keyIDs);
        var list := PackStringList(ids);
        WriteTagged(body, KEY_ID, list);
      }
      r := body.Bytes();
    }

    method WriteHeader(w: Buffer)
      requires w.b == []
      modifies w
      ensures w.b == Enc(Header(Value()))
    {
      hide EncField, Enc;
      ghost var h := Header(Value());
      HeaderStep(h, 0);
      w.Uint64(MAGIC);
      assert w.b == Enc(h[..1]);
      HeaderStep(h, 1);
      w.Uint32(FORMAT_VERSION);
      assert w.b == Enc(h[..2]);
      HeaderStep(h, 2);
      w.Uint64(version);
      assert w.b == Enc(h[..3]);
      HeaderStep(h, 3);
      w.Uint64(ToU64(Unix(generatedAt)));
      assert w.b == Enc(h[..4]);
      HeaderStep(h, 4);
      w.Uint64(0);
      assert w.b == Enc(h[..5]);
      HeaderStep(h, 5);
      w.String([]);
      assert w.b == Enc(h[..6]);
      HeaderStep(h, 6);
      w.String(comment);
      assert h[..7] == h;
    }
  }

  lemma HeaderStep(h: seq<Field>, i: nat)
    requires i < |h|
    ensures i == 0 ==> Enc(h[..0]) == []
    ensures Enc(h[..i + 1]) == Enc(h[..i]) + EncField(h[i])
  {
    assert h[..i + 1] == h[..i] + [h[i]];
    EncSnoc(h[..i], h[i]);
  }

  method WriteTagged(w: Buffer, tag: byte, data: bytes)
    modifies w
    ensures w.b == old(w.b) + Tagged(tag, data)
  {
    hide EncField;
    w.Byte(tag);
    w.Bytes32(data);
  }

  method PackSerials(serials: seq<u64>) returns (r: bytes)
    ensures r == Enc(Nums(serials))
  {
    hide EncField;
    var list := new Buffer();
    for i := 0 to |serials|
      invariant list.b == Enc(Nums(serials[..i]))
    {
      list.Uint64(serials[i]);
      assert Nums(serials[..i + 1]) == Nums(serials[..i]) + [U64(serials[i])];
      EncSnoc(Nums(serials[..i]), U64(serials[i]));
    }
    assert serials[..|serials|] == serials;
    r := list.Bytes();
  }

  lemma SectionWritten(k: RevocationList)
    ensures SectionOf(k) == Body(k.caKey, SortedSet(LeU64, k.serials), Sort(LeBytes, k.keyIDs))
    ensures k.keyIDs == [] <==> Sort(LeBytes, k.keyIDs) == []
  {
    SortKeeps(LeBytes, k.keyIDs);
  }

  /** Compacts the sorted copy in place: out[..n] holds what the first i elements leave. */
  method DedupSorted(input: seq<u64>) returns (r: seq<u64>)
    ensures r == SortedSet(LeU64, input)
  {
    hide Sort, Uniq, LeU64;
    var sorted := Sort(LeU64, input);
    SortKeeps(LeU64, input);
    var out := new u64[|input|](i requires 0 <= i < |sorted| => sorted[i]);
    UniqOfNone();
    var n := 0;
    for i := 0 to out.Length
      invariant 0 <= n <= i && (i > 0 ==> 0 < n)
      invariant out[..n] == Uniq(sorted[..i])
      invariant i > 0 ==> out[n - 1] == sorted[i - 1]
      invariant forall j :: i <= j < out.Length ==> out[j] == sorted[j]
    {
      var v := out[i];
      UniqNext(sorted, i);
      if i == 0 || v != out[n - 1] {
        out[n] := v;
        n := n + 1;
      }
    }
    assert sorted[..out.Length] == sorted;
    r := out[..n];
  }

  lemma UniqOfNone()
    ensures Uniq<u64>([]) == []
  {
  }

  lemma UniqNext(s: seq<u64>, i: nat)
    requires i < |s|
    ensures Uniq(s[..i + 1]) ==
            if i == 0 || s[i] != s[i - 1] then Uniq(s[..i]) + [s[i]] else Uniq(s[..i])
  {
    assert s[..i + 1][..i] == s[..i];
  }

  /** How a parse ends; Loops stands for an expansion loop that never ends. */
  datatype Status = Parsed | Failed | Loops

  predicate Agrees(o: Outcome, status: Status) {
    match o
    case Rejected => status == Failed
    case Endless => status == Loops
    case Done(_) => status == Parsed
  }

  method Parse(b: bytes) returns (k: KRL, status: Status)
    ensures Agrees(ParsedList(b), status)
    ensures fresh(k) && (status == Parsed ==> k.Value() == ParsedList(b).k)
  {
    hide GetField, Dec, FromHeader, HeaderKinds, Sections, Subsections;
    var r := new Reader(b);
    k := new KRL();
    var ok := ReadHeader(r, k);
    if !ok {
      return k, Failed;
    }
    var done := r.Empty();
    status := Parsed;
    ghost var start, k0 := r.b, k.Value();
    while !done
      invariant done <==> r.b == []
      invariant fresh(r) && fresh(k) && status == Parsed
      invariant Sections(start, k0) == Sections(r.b, k.Value())
      decreases |r.b|
    {
      ghost var before := r.b;
      SectionsStep(before, k.Value());
      var tag := r.Byte();
      if tag == None {
        return k, Failed;
      }
      var data := r.Bytes32();
      if data == None {
        return k, Failed;
      }
      if tag.value == SECTION_CERTIFICATES {
        status := ParseCertSection(data.value, k);
        if status != Parsed {
          return;
        }
      }
      done := r.Empty();
    }
    SectionsStep(r.b, k.Value());
  }

  method ReadHeader(r: Reader, k: KRL) returns (ok: bool)
    requires k.serials == [] && k.keyIDs == [] && k.caKey == []
    modifies r, k
    ensures !ok ==> ParsedList(old(r.b)) == Rejected
    ensures ok ==> ParsedList(old(r.b)) == Sections(r.b, k.Value())
  {
    hide GetField, Sections, Dec, Reading, HeaderKinds, FromHeader;
    ghost var b, h := r.b, [];
    HeaderDecides(b);
    ok, h := ReadPreamble(r);
    if !ok {
      return false;
    }
    ghost var h1;
    ok, h1 := ReadDetails(r, k, b, h);
  }

  /** The magic number and the format version. */
  method ReadPreamble(r: Reader) returns (ok: bool, ghost h: seq<Field>)
    modifies r
    ensures !ok ==> ParsedList(old(r.b)) == Rejected
    ensures ok ==> Reading(HeaderKinds(), old(r.b), 2, h, r.b) && h == [U64(MAGIC), U32(FORMAT_VERSION)]
  {
    hide GetField, Sections, Dec, Reading, HeaderKinds, FromHeader;
    ghost var b, ks, at := r.b, HeaderKinds(), r.b;
    HeaderKindsAre();
    StartReading(ks, b);
    HeaderDecides(b);
    h := [];
    var m := r.Uint64();
    ReadNext(ks, b, 0, h, at, r.b, Read64(m));
    if m == None {
      return false, h;
    }
    h, at := h + [U64(m.value)], r.b;
    ReadSoFar(ks, b, 1, h, at);
    if m.value != MAGIC {
      return false, h;
    }
    var fv := r.Uint32();
    ReadNext(ks, b, 1, h, at, r.b, match fv case None => None case Some(v) => Some(U32(v)));
    if fv == None {
      return false, h;
    }
    h, at := h + [U32(fv.value)], r.b;
    ReadSoFar(ks, b, 2, h, at);
    if fv.value != FORMAT_VERSION {
      return false, h;
    }
    ok := true;
  }

  /** The rest of the header. */
  method ReadDetails(r: Reader, k: KRL, ghost b: bytes, ghost h0: seq<Field>) returns (ok: bool, ghost h: seq<Field>)
    requires Reading(HeaderKinds(), b, 2, h0, r.b) && |h0| == 2
    modifies r, k`version, k`generatedAt, k`comment
    ensures !ok ==> Dec(HeaderKinds(), b) == None
    ensures ok ==> Dec(HeaderKinds(), b) == Some((h, r.b))
    ensures ok ==> |h| == 7 && h[0] == h0[0] && h[1] == h0[1]
                   && h[2] == U64(k.version) && h[3].U64? && k.generatedAt == ToI64(h[3].v64) * SECOND
                   && h[6] == Str(k.comment)
  {
    hide GetField, Dec, Reading, HeaderKinds, ToI64;
    ghost var ks, at := HeaderKinds(), r.b;
    HeaderKindsAre();
    h := h0;
    var version := r.Uint64();
    ReadNext(ks, b, 2, h, at, r.b, Read64(version));
    if version == None {
      return false, h;
    }
    k.version := version.value;
    h, at := h + [U64(version.value)], r.b;
    var gen := r.Uint64();
    ReadNext(ks, b, 3, h, at, r.b, Read64(gen));
    if gen == None {
      return false, h;
    }
    k.generatedAt := ToI64(gen.value) * SECOND;
    h, at := h + [U64(gen.value)], r.b;
    var flags := r.Uint64();
    ReadNext(ks, b, 4, h, at, r.b, Read64(flags));
    if flags == None {
      return false, h;
    }
    h, at := h + [U64(flags.value)], r.b;
    var reserved := r.Bytes32();
    ReadNext(ks, b, 5, h, at, r.b, match reserved case None => None case Some(v) => Some(Str(v)));
    if reserved == None {
      return false, h;
    }
    h, at := h + [Str(reserved.value)], r.b;
    var comment := r.String();
    ReadNext(ks, b, 6, h, at, r.b, match comment case None => None case Some(v) => Some(Str(v)));
    if comment == None {
      return false, h;
    }
    k.comment := comment.value;
    h, at := h + [Str(comment.value)], r.b;
    ReadSoFar(ks, b, 7, h, at);
    ok := true;
  }

  function Read64(r: Option<u64>): Option<Field> {
    match r
    case None => None
    case Some(v) => Some(U64(v))
  }

  lemma HeaderKindsAre()
    ensures HeaderKinds() == [K64, K32, K64, K64, K64, KStr, KStr]
  {
  }

  /** What the header fields mean for the parse, however far reading them gets. */
  lemma HeaderDecides(b: bytes)
    ensures match Dec(HeaderKinds(), b)
            case None => ParsedList(b) == Rejected
            case Some((h, rest)) =>
              && HasKinds(HeaderKinds(), h) && |h| == 7
              && h[0].U64? && h[1].U32? && h[2].U64? && h[3].U64? && h[6].Str?
              && (h[0].v64 != MAGIC || h[1].v32 != FORMAT_VERSION ==> ParsedList(b) == Rejected)
              && (h[0].v64 == MAGIC && h[1].v32 == FORMAT_VERSION ==>
                    ParsedList(b) ==
                    Sections(rest, RevocationList(h[2].v64, ToI64(h[3].v64) * SECOND, h[6].s, [], [], [])))
  {
    hide Dec, Sections;
    match Dec(HeaderKinds(), b)
    case None =>
    case Some((h, rest)) =>
      DecExact(HeaderKinds(), b, h, rest);
      assert h[0].Kind() == HeaderKinds()[0] && h[1].Kind() == HeaderKinds()[1] && h[2].Kind() == HeaderKinds()[2];
      assert h[3].Kind() == HeaderKinds()[3] && h[6].Kind() == HeaderKinds()[6];
  }

  method ParseCertSection(data: bytes, k: KRL) returns (status: Status)
    modifies k
    ensures Agrees(CertSection(data, old(k.Value())), status)
    ensures status == Parsed ==> k.Value() == CertSection(data, old(k.Value())).k
  {
    hide GetField, Subsection, Subsections;
    var r := new Reader(data);
    var caKey := r.Bytes32();
    if caKey == None {
      return Failed;
    }
    k.caKey := caKey.value;
    var reserved := r.Bytes32();
    if reserved == None {
      return Failed;
    }
    var done := r.Empty();
    ghost var start, k0 := r.b, k.Value();
    while !done
      invariant done <==> r.b == []
      invariant fresh(r)
      invariant Subsections(start, k0) == Subsections(r.b, k.Value())
      decreases |r.b|
    {
      SubsectionsStep(r.b, k.Value());
      var tag := r.Byte();
      if tag == None {
        return Failed;
      }
      var sub := r.Bytes32();
      if sub == None {
        return Failed;
      }
      status := ParseSubsection(tag.value, sub.value, k);
      if status != Parsed {
        return;
      }
      done := r.Empty();
    }
    SubsectionsStep(r.b, k.Value());
    return Parsed;
  }

  method ParseSubsection(tag: byte, sub: bytes, k: KRL) returns (status: Status)
    modifies k
    ensures Agrees(Subsection(tag, sub, old(k.Value())), status)
    ensures status == Parsed ==> k.Value() == Subsection(tag, sub, old(k.Value())).k
  {
    hide GetField, DecNums, DecStrings, Range;
    ghost var k0 := k.Value();
    if tag == SERIAL_LIST {
      var sr := new Reader(sub);
      var done := sr.Empty();
      NumsStep(sub);
      assert DecNums(sub).Some? ==> k0.serials + DecNums(sub).value == k.serials + DecNums(sub).value;
      while !done
        invariant done <==> sr.b == []
        invariant fresh(sr)
        invariant k.Value() == k0.(serials := k.serials)
        invariant match DecNums(sr.b)
                  case None => DecNums(sub) == None
                  case Some(more) => DecNums(sub).Some? && k0.serials + DecNums(sub).value == k.serials + more
        decreases |sr.b|
      {
        NumsStep(sr.b);
        var s := sr.Uint64();
        if s == None {
          return Failed;
        }
        assert forall more: seq<u64> :: k.serials + ([s.value] + more) == k.serials + [s.value] + more;
        k.serials := k.serials + [s.value];
        done := sr.Empty();
      }
      NumsStep(sr.b);
      assert k.serials + [] == k.serials;
      return Parsed;
    } else if tag == SERIAL_RANGE {
      var sr := new Reader(sub);
      var lo := sr.Uint64();
      if lo == None {
        return Failed;
      }
      var hi := sr.Uint64();
      if hi == None || hi.value < lo.value {
        return Failed;
      }
      if hi.value - lo.value >= MAX_RANGE {
        return Failed;
      }
      status := ExpandRange(lo.value, hi.value, k);
      return;
    } else if tag == KEY_ID {
      var ids := StringList(sub);
      if ids == None {
        return Failed;
      }
      k.keyIDs := k.keyIDs + ids.value;
      return Parsed;
    }
    return Failed;
  }

  /** The loop s := lo; s <= hi; s++ on uint64; see KrlLaws.RangeLoopEnds for when it ends. */
  method ExpandRange(lo: u64, hi: u64, k: KRL) returns (status: Status)
    requires lo <= hi && hi - lo < MAX_RANGE
    modifies k`serials
    ensures Agrees(RangeOutcome(lo, hi, old(k.Value())), status)
    ensures status == Parsed ==> k.Value() == RangeOutcome(lo, hi, old(k.Value())).k
  {
    if hi == MAX_U64 {
      return Loops;
    }
    var s: u64 := lo;
    hide Range, ToU64;
    RangeStep(lo, hi);
    ghost var all := k.serials + Range(lo, hi);
    while s <= hi
      invariant lo <= s <= hi + 1
      invariant all == k.serials + Remaining(s, hi)
      decreases hi + 1 - s
    {
      RangeStep(s, hi);
      Shift(k.serials, s, Remaining(s + 1, hi));
      k.serials := k.serials + [s];
      s := ToU64(s + 1);
    }
    assert k.serials + [] == k.serials;
    return Parsed;
  }

  lemma Shift(s: seq<u64>, x: u64, rest: seq<u64>)
    ensures s + ([x] + rest) == s + [x] + rest
  {
  }

  function Remaining(s: u64, hi: u64): seq<u64> {
    if s <= hi then Range(s, hi) else []
  }

  lemma RangeStep(s: u64, hi: u64)
    requires s <= hi < MAX_U64
    ensures Range(s, hi) == [s] + Remaining(s + 1, hi)
    ensures ToU64(s + 1) == s + 1
  {
  }

  lemma NumsStep(b: bytes)
    ensures b == [] ==> DecNums(b) == Some([])
    ensures b != [] ==>
              match GetField(K64, b)
              case None => DecNums(b) == None
              case Some((f, rest)) =>
                match DecNums(rest)
                case None => DecNums(b) == None
                case Some(more) => DecNums(b) == Some([f.v64] + more)
  {
    hide GetField;
    if b != [] && GetField(K64, b).Some? {
      var (f, rest) := GetField(K64, b).value;
      if DecAll(K64, rest).Some? {
        assert Values([f] + DecAll(K64, rest).value) == [f.v64] + Values(DecAll(K64, rest).value);
      }
    }
  }
}
