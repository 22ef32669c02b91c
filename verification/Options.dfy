/** Critical options and extensions: packOptions and unpackOptions of internal/sshcert/cert.go. */
module Options {
  import opened Basics
  import opened Sorting
  import opened Wire

  /** A critical option or extension; flag extensions have empty data. */
  datatype CertOption = CertOption(name: bytes, data: bytes) {
    predicate Fits() {
      |name| < 0x1_0000_0000 && 4 + |data| < 0x1_0000_0000
    }
  }

  predicate LeOption(x: CertOption, y: CertOption) {
    LeBytes(x.name, y.name)
  }

  lemma OptionOrder()
    ensures TotalPreorder(LeOption)
  {
    Orders();
  }

  function SortOptions(opts: seq<CertOption>): seq<CertOption> {
    Sort(LeOption, opts)
  }

  /** A value is a wire string inside the data string; no value is empty data. */
  function DataBlob(data: bytes): bytes {
    if data == [] then [] else EncField(Str(data))
  }

  function EncOption(o: CertOption): (r: bytes)
    ensures |r| >= 8
  {
    EncField(Str(o.name)) + EncField(Str(DataBlob(o.data)))
  }

  function EncOptions(opts: seq<CertOption>): bytes {
    if opts == [] then [] else EncOption(opts[0]) + EncOptions(opts[1..])
  }

  function Packed(opts: seq<CertOption>): bytes {
    EncOptions(SortOptions(opts))
  }

  predicate AllOptionsFit(opts: seq<CertOption>) {
    forall i :: 0 <= i < |opts| ==> opts[i].Fits()
  }

  // ---------------------------------------------------------------------
  // Parsing
  // ---------------------------------------------------------------------

  function OptionData(blob: bytes): Option<bytes> {
    if blob == [] then Some([])
    else
      match GetField(KStr, blob)
      case None => None
      case Some((f, rest)) => if rest != [] then None else Some(f.s)
  }

  /** The name, the raw data and the rest. */
  function GetRawOption(b: bytes): (r: Option<(bytes, bytes, bytes)>)
    ensures r.Some? ==> |r.value.2| < |b|
  {
    match GetField(KStr, b)
    case None => None
    case Some((name, b1)) =>
      match GetField(KStr, b1)
      case None => None
      case Some((data, rest)) => Some((name.s, data.s, rest))
  }

  function GetOption(b: bytes): (r: Option<(CertOption, bytes)>)
    ensures r.Some? ==> |r.value.1| < |b|
  {
    match GetRawOption(b)
    case None => None
    case Some((name, data, rest)) =>
      match OptionData(data)
      case None => None
      case Some(v) => Some((CertOption(name, v), rest))
  }

  function Unpacked(b: bytes): Option<seq<CertOption>>
    decreases |b|
  {
    if b == [] then Some([])
    else
      match GetOption(b)
      case None => None
      case Some((o, rest)) =>
        match Unpacked(rest)
        case None => None
        case Some(more) => Some([o] + more)
  }

  /** No option of the blob spells "no value" as a nested empty string. */
  predicate NoNestedEmpty(b: bytes)
    decreases |b|
  {
    match GetRawOption(b)
    case None => true
    case Some((_, data, rest)) => data != EncField(Str([])) && NoNestedEmpty(rest)
  }

  lemma GetRawOptionExact(b: bytes, name: bytes, data: bytes, rest: bytes)
    ensures GetRawOption(b) == Some((name, data, rest)) <==>
            |name| < 0x1_0000_0000 && |data| < 0x1_0000_0000 &&
            b == EncField(Str(name)) + EncField(Str(data)) + rest
  {
    hide GetField, EncField;
    var mid := EncField(Str(data)) + rest;
    assert EncField(Str(name)) + mid == EncField(Str(name)) + EncField(Str(data)) + rest;
    GetFieldExact(KStr, b, Str(name), mid);
    GetFieldExact(KStr, mid, Str(data), rest);
    match GetField(KStr, b)
    case None =>
    case Some((f, b1)) =>
      GetFieldExact(KStr, b, f, b1);
      GetFieldExact(KStr, b1, Str(data), rest);
      match GetField(KStr, b1)
      case None =>
      case Some((g, b2)) => GetFieldExact(KStr, b1, g, b2);
  }

  lemma OptionDataExact(blob: bytes, v: bytes)
    requires |blob| < 0x1_0000_0000
    ensures OptionData(blob) == Some(v) <==>
            (blob == DataBlob(v) && 4 + |v| < 0x1_0000_0000) || (blob == EncField(Str([])) && v == [])
  {
    if blob != [] {
      GetFieldExact(KStr, blob, Str(v), []);
      assert EncField(Str(v)) + [] == EncField(Str(v));
      assert |EncField(Str(v))| == 4 + |v|;
      hide EncField, GetField;
      match GetField(KStr, blob)
      case None =>
      case Some((f, rest)) => GetFieldExact(KStr, blob, f, rest);
    }
  }

  lemma GetOptionOfEnc(o: CertOption, rest: bytes)
    requires o.Fits()
    ensures GetOption(EncOption(o) + rest) == Some((o, rest))
    ensures GetRawOption(EncOption(o) + rest) == Some((o.name, DataBlob(o.data), rest))
    ensures DataBlob(o.data) != EncField(Str([]))
  {
    var data := DataBlob(o.data);
    assert data != EncField(Str([])) by {
      assert |EncField(Str([]))| == 4;
    }
    GetRawOptionExact(EncOption(o) + rest, o.name, data, rest);
    OptionDataExact(data, o.data);
  }

  lemma GetOptionSound(b: bytes)
    requires GetOption(b).Some?
    ensures var (o, rest) := GetOption(b).value;
            && o.Fits()
            && |EncOption(o)| + |rest| <= |b|
            && (GetRawOption(b).value.1 != EncField(Str([])) <==> b == EncOption(o) + rest)
  {
    hide GetRawOption;
    var (name, data, rest) := GetRawOption(b).value;
    var v := OptionData(data).value;
    GetRawOptionExact(b, name, data, rest);
    OptionDataExact(data, v);
    assert |EncField(Str([]))| == 4;
    GetRawOptionExact(EncOption(CertOption(name, v)) + rest, name, DataBlob(v), rest);
  }

  lemma NoOptions()
    ensures Unpacked([]) == Some([]) && NoNestedEmpty([])
  {
    assert GetRawOption([]) == None;
  }

  lemma OneMoreOption(b: bytes, o: CertOption, rest: bytes, more: seq<CertOption>)
    requires GetOption(b) == Some((o, rest)) && GetRawOption(b).Some?
    requires Unpacked(rest) == Some(more) && NoNestedEmpty(rest)
    requires GetRawOption(b).value.1 != EncField(Str([]))
    ensures Unpacked(b) == Some([o] + more) && NoNestedEmpty(b)
  {
    hide GetRawOption, EncField;
    assert b != [];
  }

  lemma {:induction false} UnpackedOfEnc(opts: seq<CertOption>)
    requires AllOptionsFit(opts)
    ensures Unpacked(EncOptions(opts)) == Some(opts)
    ensures NoNestedEmpty(EncOptions(opts))
  {
    hide Unpacked, NoNestedEmpty, GetOption, GetRawOption, EncOption, EncField, DataBlob;
    if opts == [] {
      NoOptions();
    } else {
      GetOptionOfEnc(opts[0], EncOptions(opts[1..]));
      UnpackedOfEnc(opts[1..]);
      OneMoreOption(EncOptions(opts), opts[0], EncOptions(opts[1..]), opts[1..]);
      assert opts == [opts[0]] + opts[1..];
    }
  }

  /** What an accepted blob denotes: it encodes canonically, in no more bytes. */
  lemma {:induction false} UnpackedSound(b: bytes)
    requires Unpacked(b).Some?
    ensures var opts := Unpacked(b).value;
            && AllOptionsFit(opts)
            && |EncOptions(opts)| <= |b|
            && (NoNestedEmpty(b) <==> b == EncOptions(opts))
    decreases |b|
  {
    NoOptions();
    hide GetRawOption, EncOption, DataBlob, OptionData;
    if b != [] {
      var opts := Unpacked(b).value;
      var (o, rest) := GetOption(b).value;
      GetOptionSound(b);
      UnpackedSound(rest);
      assert opts == [o] + opts[1..] && opts[1..] == Unpacked(rest).value;
      if b == EncOptions(opts) {
        UnpackedOfEnc(opts);
      }
    }
  }

  lemma {:induction false} InsertLength(o: CertOption, opts: seq<CertOption>)
    ensures |EncOptions(Insert(LeOption, o, opts))| == |EncOption(o)| + |EncOptions(opts)|
  {
    hide EncOption, LeOption;
    if opts == [] || LeOption(o, opts[0]) {
      assert ([o] + opts)[1..] == opts;
    } else {
      InsertLength(o, opts[1..]);
      var r := Insert(LeOption, o, opts[1..]);
      assert ([opts[0]] + r)[1..] == r;
    }
  }

  lemma {:induction false} PackedLength(opts: seq<CertOption>)
    ensures |Packed(opts)| == |EncOptions(opts)|
  {
    if opts != [] {
      PackedLength(opts[1..]);
      InsertLength(opts[0], SortOptions(opts[1..]));
    }
  }

  /** Sorting keeps the options themselves, and sorted names are what unpacking sees. */
  lemma UnpackedOfPacked(opts: seq<CertOption>)
    requires AllOptionsFit(opts)
    ensures Unpacked(Packed(opts)) == Some(SortOptions(opts))
    ensures Packed(SortOptions(opts)) == Packed(opts)
    ensures AllOptionsFit(SortOptions(opts))
  {
    OptionOrder();
    SortKeeps(LeOption, opts);
    SortIdempotent(LeOption, opts);
    var sorted := SortOptions(opts);
    forall i | 0 <= i < |sorted| ensures sorted[i].Fits() {
      assert sorted[i] in opts;
    }
    UnpackedOfEnc(sorted);
  }

  /** packOptions after unpackOptions gives back the blob exactly when it is in normal form. */
  lemma RepackExact(b: bytes)
    requires Unpacked(b).Some?
    ensures Packed(Unpacked(b).value) == b <==> Sorted(LeOption, Unpacked(b).value) && NoNestedEmpty(b)
  {
    var opts := Unpacked(b).value;
    UnpackedSound(b);
    OptionOrder();
    UnpackedOfPacked(opts);
    SortFixpoint(LeOption, opts);
    if Packed(opts) == b {
      UnpackedOfEnc(SortOptions(opts));
    }
  }

  predicate DistinctNames(opts: seq<CertOption>) {
    forall i, j :: 0 <= i < j < |opts| ==> opts[i].name != opts[j].name
  }

  /** t has the options of s, those of one name in the same order. */
  ghost predicate KeepsTies(s: seq<CertOption>, t: seq<CertOption>) {
    forall x: CertOption :: Ties(LeOption, x, t) == Ties(LeOption, x, s)
  }

  /** Any stable sort gives this order. */
  lemma StableSortIsForced(s: seq<CertOption>, t: seq<CertOption>)
    ensures t == SortOptions(s) <==> Sorted(LeOption, t) && KeepsTies(s, t)
  {
    OptionOrder();
    SortKeeps(LeOption, s);
    forall x: CertOption ensures Ties(LeOption, x, SortOptions(s)) == Ties(LeOption, x, s) {
      SortStable(LeOption, x, s);
    }
    if Sorted(LeOption, t) && KeepsTies(s, t) {
      SortedUnique(LeOption, t, SortOptions(s));
    }
  }

  /** With distinct names any sort whatsoever, stable or not, gives the same result. */
  lemma {:induction false} SortIsForced(s: seq<CertOption>, t: seq<CertOption>)
    requires Sorted(LeOption, s) && Sorted(LeOption, t)
    requires multiset(s) == multiset(t) && DistinctNames(s)
    ensures s == t
  {
    hide LeOption;
    SameElements(s, t);
    if s != [] {
      assert s[0] in t && t[0] in s;
      FirstIsForced(s, t);
      assert s == [s[0]] + s[1..] && t == [t[0]] + t[1..];
      SameElementsTail(s, t);
      SortIsForced(s[1..], t[1..]);
    }
  }

  lemma FirstIsForced(s: seq<CertOption>, t: seq<CertOption>)
    requires Sorted(LeOption, s) && Sorted(LeOption, t) && DistinctNames(s)
    requires s != [] && t != [] && s[0] in t && t[0] in s
    ensures s[0] == t[0]
  {
    hide LeBytes;
    var i :| 0 <= i < |t| && t[i] == s[0];
    var j :| 0 <= j < |s| && s[j] == t[0];
    LeBytesTotal(s[0].name, t[0].name);
  }

  lemma {:induction false} EncOptionsSnoc(opts: seq<CertOption>, o: CertOption)
    ensures EncOptions(opts + [o]) == EncOptions(opts) + EncOption(o)
  {
    hide EncOption;
    if opts == [] {
      assert opts + [o] == [o] && [o][1..] == [];
      assert EncOptions([o]) == EncOption(o);
    } else {
      assert (opts + [o])[1..] == opts[1..] + [o];
      EncOptionsSnoc(opts[1..], o);
    }
  }

  // ---------------------------------------------------------------------
  // The two operations
  // ---------------------------------------------------------------------

  method PackOptions(opts: seq<CertOption>) returns (r: bytes)
    ensures r == Packed(opts)
  {
    hide Sort, EncField;
    var sorted := SortOptions(opts);
    var w := new Buffer();
    for i := 0 to |sorted|
      invariant w.b == EncOptions(sorted[..i])
    {
      var o := sorted[i];
      ghost var before := w.b;
      w.String(o.name);
      if |o.data| == 0 {
        w.String([]);
      } else {
        var inner := new Buffer();
        inner.String(o.data);
        assert inner.b == EncField(Str(o.data));
        var data := inner.Bytes();
        w.Bytes32(data);
      }
      assert w.b == before + (EncField(Str(o.name)) + EncField(Str(DataBlob(o.data))));
      assert sorted[..i + 1] == sorted[..i] + [o];
      EncOptionsSnoc(sorted[..i], o);
    }
    assert sorted[..|sorted|] == sorted;
    r := w.Bytes();
  }

  lemma UnpackedStep(b: bytes)
    ensures Unpacked([]) == Some([])
    ensures b != [] ==>
              match GetOption(b)
              case None => Unpacked(b) == None
              case Some((o, rest)) =>
                match Unpacked(rest)
                case None => Unpacked(b) == None
                case Some(more) => Unpacked(b) == Some([o] + more)
  {
  }

  method UnpackOptions(b: bytes) returns (r: Option<seq<CertOption>>)
    ensures r == Unpacked(b)
  {
    hide GetField, EncField, Unpacked;
    UnpackedStep(b);
    var reader := new Reader(b);
    var out: seq<CertOption> := [];
    var done := reader.Empty();
    assert Unpacked(b).Some? ==> out + Unpacked(b).value == Unpacked(b).value;
    while !done
      invariant done <==> reader.b == []
      invariant match Unpacked(reader.b)
                case None => Unpacked(b) == None
                case Some(more) => Unpacked(b) == Some(out + more)
      decreases |reader.b|
    {
      ghost var before := reader.b;
      UnpackedStep(before);
      var name := reader.String();
      if name == None {
        return None;
      }
      var data := reader.Bytes32();
      if data == None {
        return None;
      }
      var o := CertOption(name.value, []);
      if |data.value| > 0 {
        var inner := new Reader(data.value);
        var v := inner.String();
        var whole := inner.Empty();
        if v == None || !whole {
          return None;
        }
        o := o.(data := v.value);
      }
      assert GetOption(before) == Some((o, reader.b));
      assert forall more: seq<CertOption> :: out + ([o] + more) == out + [o] + more;
      out := out + [o];
      done := reader.Empty();
    }
    assert out + [] == out;
    return Some(out);
  }
}
