/** internal/wire/wire.go: the SSH wire encoding of section 5 of RFC 4251. */
module Wire {
  import opened Basics

  // ---------------------------------------------------------------------
  // Big-endian integers
  // ---------------------------------------------------------------------

  function Pow256(n: nat): (p: nat)
    ensures p > 0
  {
    if n == 0 then 1 else 256 * Pow256(n - 1)
  }

  function BigEndian(n: nat, v: nat): (r: bytes)
    ensures |r| == n
    decreases n, v
  {
    if n == 0 then [] else BigEndian(n - 1, v / 256) + [v % 256]
  }

  function FromBigEndian(b: bytes): (v: nat)
    ensures v < Pow256(|b|)
  {
    if b == [] then 0 else FromBigEndian(b[..|b| - 1]) * 256 + b[|b| - 1]
  }

  lemma {:induction false} DecodeBigEndian(n: nat, v: nat)
    requires v < Pow256(n)
    ensures FromBigEndian(BigEndian(n, v)) == v
  {
    if n > 0 {
      DecodeBigEndian(n - 1, v / 256);
      assert BigEndian(n, v)[..n - 1] == BigEndian(n - 1, v / 256);
    }
  }

  lemma {:induction false} EncodeBigEndian(b: bytes)
    ensures BigEndian(|b|, FromBigEndian(b)) == b
  {
    if b != [] {
      EncodeBigEndian(b[..|b| - 1]);
      assert b == b[..|b| - 1] + [b[|b| - 1]];
    }
  }

  lemma Powers()
    ensures Pow256(4) == TWO_TO_32
    ensures Pow256(8) == TWO_TO_64
  {
    assert Pow256(4) == 256 * (256 * (256 * (256 * Pow256(0))));
    assert Pow256(8) == 256 * (256 * (256 * (256 * Pow256(4))));
  }

  // ---------------------------------------------------------------------
  // Fields: the reference layout every printer and parser is held against
  // ---------------------------------------------------------------------

  datatype Kind = K8 | K32 | K64 | KStr

  datatype Field = U8(v8: byte) | U32(v32: u32) | U64(v64: u64) | Str(s: bytes) {

    function Kind(): Kind {
      match this
      case U8(_) => K8
      case U32(_) => K32
      case U64(_) => K64
      case Str(_) => KStr
    }

    /** The length prefix of a string holds its length only below 2^32. */
    predicate Fits() {
      Str? ==> |s| < 0x1_0000_0000
    }
  }

  function EncField(f: Field): (r: bytes)
    ensures |r| == (match f case U8(_) => 1 case U32(_) => 4 case U64(_) => 8 case Str(s) => 4 + |s|)
  {
    match f
    case U8(v) => [v]
    case U32(v) => BigEndian(4, v)
    case U64(v) => BigEndian(8, v)
    case Str(s) => BigEndian(4, |s| % 0x1_0000_0000) + s
  }

  function Enc(fs: seq<Field>): bytes {
    if fs == [] then [] else EncField(fs[0]) + Enc(fs[1..])
  }

  /** Reads one field; None is the Go code's "unexpected end of data" or over-long string. */
  function GetField(k: Kind, b: bytes): (r: Option<(Field, bytes)>)
    ensures r.Some? ==> |r.value.1| < |b| && r.value.0.Kind() == k
  {
    Powers();
    match k
    case K8 => if |b| < 1 then None else Some((U8(b[0]), b[1..]))
    case K32 => if |b| < 4 then None else Some((U32(FromBigEndian(b[..4])), b[4..]))
    case K64 => if |b| < 8 then None else Some((U64(FromBigEndian(b[..8])), b[8..]))
    case KStr =>
      if |b| < 4 then None
      else
        var n := FromBigEndian(b[..4]);
        if n > |b| - 4 then None else Some((Str(b[4..4 + n]), b[4 + n..]))
  }

  function Dec(ks: seq<Kind>, b: bytes): Option<(seq<Field>, bytes)> {
    if ks == [] then Some(([], b))
    else
      match GetField(ks[0], b)
      case None => None
      case Some((f, rest)) =>
        match Dec(ks[1..], rest)
        case None => None
        case Some((fs, tail)) => Some(([f] + fs, tail))
  }

  predicate HasKinds(ks: seq<Kind>, fs: seq<Field>) {
    |ks| == |fs| && forall i :: 0 <= i < |fs| ==> fs[i].Kind() == ks[i] && fs[i].Fits()
  }

  /** A field is read back exactly when the input starts with its encoding. */
  lemma GetFieldExact(k: Kind, b: bytes, f: Field, rest: bytes)
    ensures GetField(k, b) == Some((f, rest)) <==> f.Kind() == k && f.Fits() && b == EncField(f) + rest
  {
    if f.Kind() == k && f.Fits() && b == EncField(f) + rest {
      GetFieldOfEncoding(f, rest);
    }
    if GetField(k, b) == Some((f, rest)) {
      EncodingOfGetField(k, b);
    }
  }

  lemma IntegerOfEncoding(n: nat, v: nat, rest: bytes)
    requires v < Pow256(n)
    ensures FromBigEndian((BigEndian(n, v) + rest)[..n]) == v
    ensures (BigEndian(n, v) + rest)[n..] == rest
  {
    DecodeBigEndian(n, v);
    assert (BigEndian(n, v) + rest)[..n] == BigEndian(n, v);
  }

  lemma EncodingOfInteger(n: nat, b: bytes)
    requires n <= |b|
    ensures BigEndian(n, FromBigEndian(b[..n])) + b[n..] == b
  {
    EncodeBigEndian(b[..n]);
  }

  lemma GetFieldOfEncoding(f: Field, rest: bytes)
    requires f.Fits()
    ensures GetField(f.Kind(), EncField(f) + rest) == Some((f, rest))
  {
    hide BigEndian, FromBigEndian, Pow256;
    Powers();
    match f
    case U8(v) =>
    case U32(v) => IntegerOfEncoding(4, v, rest);
    case U64(v) => IntegerOfEncoding(8, v, rest);
    case Str(s) =>
      IntegerOfEncoding(4, |s|, s + rest);
      var b := EncField(f) + rest;
      assert b == BigEndian(4, |s|) + (s + rest);
      assert b[4..4 + |s|] == b[4..][..|s|] == s;
      assert b[4 + |s|..] == b[4..][|s|..] == rest;
  }

  lemma EncodingOfGetField(k: Kind, b: bytes)
    requires GetField(k, b).Some?
    ensures var (f, rest) := GetField(k, b).value;
            f.Kind() == k && f.Fits() && b == EncField(f) + rest
  {
    hide BigEndian, FromBigEndian, Pow256;
    match k
    case K8 =>
    case K32 => EncodingOfInteger(4, b);
    case K64 => EncodingOfInteger(8, b);
    case KStr =>
      EncodingOfInteger(4, b);
      Powers();
      var n := FromBigEndian(b[..4]);
      assert b[4..4 + n] + b[4 + n..] == b[4..];
  }

  /** A layout is parsed exactly when the input starts with its encoding. */
  lemma {:induction false} DecExact(ks: seq<Kind>, b: bytes, fs: seq<Field>, rest: bytes)
    ensures Dec(ks, b) == Some((fs, rest)) <==> HasKinds(ks, fs) && b == Enc(fs) + rest
  {
    if ks == [] {
      assert Enc([]) + rest == rest;
    } else if fs != [] {
      var tail := Enc(fs[1..]) + rest;
      GetFieldExact(ks[0], b, fs[0], tail);
      DecExact(ks[1..], tail, fs[1..], rest);
      assert Enc(fs) + rest == EncField(fs[0]) + tail;
      assert fs == [fs[0]] + fs[1..];
      if Dec(ks, b) == Some((fs, rest)) {
        var (f, mid) := GetField(ks[0], b).value;
        GetFieldExact(ks[0], b, f, mid);
        var (more, end) := Dec(ks[1..], mid).value;
        assert ([f] + more)[1..] == more;
        DecExact(ks[1..], mid, fs[1..], rest);
        assert mid == tail;
      }
      if HasKinds(ks, fs) && b == Enc(fs) + rest {
        assert HasKinds(ks[1..], fs[1..]);
      }
    }
  }

  /** More input after a field changes nothing but the rest: a read never depends on what follows. */
  lemma GetFieldExtends(k: Kind, b: bytes, extra: bytes)
    requires GetField(k, b).Some?
    ensures GetField(k, b + extra) == Some((GetField(k, b).value.0, GetField(k, b).value.1 + extra))
  {
    hide GetField, EncField;
    var (f, rest) := GetField(k, b).value;
    GetFieldExact(k, b, f, rest);
    assert b + extra == EncField(f) + (rest + extra);
    GetFieldExact(k, b + extra, f, rest + extra);
  }

  /** More input after a parsed layout changes nothing but the rest. */
  lemma DecExtends(ks: seq<Kind>, b: bytes, extra: bytes)
    requires Dec(ks, b).Some?
    ensures Dec(ks, b + extra) == Some((Dec(ks, b).value.0, Dec(ks, b).value.1 + extra))
  {
    hide Dec, Enc;
    var (fs, rest) := Dec(ks, b).value;
    DecExact(ks, b, fs, rest);
    assert b + extra == Enc(fs) + (rest + extra);
    DecExact(ks, b + extra, fs, rest + extra);
  }

  lemma {:induction false} EncAppend(fs: seq<Field>, gs: seq<Field>)
    ensures Enc(fs + gs) == Enc(fs) + Enc(gs)
  {
    if fs == [] {
      assert fs + gs == gs;
    } else {
      assert (fs + gs)[1..] == fs[1..] + gs;
      EncAppend(fs[1..], gs);
    }
  }

  lemma EncSnoc(fs: seq<Field>, f: Field)
    ensures Enc(fs + [f]) == Enc(fs) + EncField(f)
  {
    EncAppend(fs, [f]);
    assert Enc([f]) == EncField(f);
  }

  /** Parsing the first i kinds is the start of parsing them all. */
  lemma {:induction false} DecPrefix(ks: seq<Kind>, i: nat, b: bytes)
    requires i <= |ks|
    ensures Dec(ks[..i], b).None? ==> Dec(ks, b).None?
    ensures Dec(ks, b).Some? ==>
              |Dec(ks, b).value.0| == |ks| && |Dec(ks[..i], b).value.0| == i &&
              Dec(ks[..i], b).value.0 == Dec(ks, b).value.0[..i]
    ensures i < |ks| && Dec(ks[..i], b).Some? ==>
              var (fs, rest) := Dec(ks[..i], b).value;
              match GetField(ks[i], rest)
              case None => Dec(ks, b).None?
              case Some((f, tail)) => Dec(ks[..i + 1], b) == Some((fs + [f], tail))
  {
    if ks != [] {
      if i == 0 {
        assert ks[..1] == [ks[0]];
        assert ks[..1][1..] == [];
        match GetField(ks[0], b)
        case None =>
        case Some((f, rest)) =>
          var none: seq<Field> := [];
          assert Dec([], rest) == Some((none, rest));
          assert none + [f] == [f] + none == [f];
          DecPrefix(ks[1..], 0, rest);
      } else {
        assert ks[..i][1..] == ks[1..][..i - 1];
        assert i < |ks| ==> ks[..i + 1][1..] == ks[1..][..i];
        match GetField(ks[0], b)
        case None =>
        case Some((f, rest)) =>
          DecPrefix(ks[1..], i - 1, rest);
          if i < |ks| && Dec(ks[..i], b).Some? {
            var (fs, mid) := Dec(ks[..i], b).value;
            assert ks[1..][i - 1] == ks[i];
            match GetField(ks[i], mid)
            case None =>
            case Some((g, _)) => assert [f] + (fs[1..] + [g]) == fs + [g];
          }
      }
    }
  }

  // ---------------------------------------------------------------------
  // Lists of fields of one kind, up to the end of the data
  // ---------------------------------------------------------------------

  predicate AllOfKind(k: Kind, fs: seq<Field>) {
    forall f :: f in fs ==> f.Kind() == k && f.Fits()
  }

  function DecAll(k: Kind, b: bytes): Option<seq<Field>>
    decreases |b|
  {
    if b == [] then Some([])
    else
      match GetField(k, b)
      case None => None
      case Some((f, rest)) =>
        match DecAll(k, rest)
        case None => None
        case Some(fs) => Some([f] + fs)
  }

  lemma {:induction false} DecAllExact(k: Kind, b: bytes, fs: seq<Field>)
    ensures DecAll(k, b) == Some(fs) <==> AllOfKind(k, fs) && b == Enc(fs)
    decreases |b|
  {
    hide GetField, EncField;
    if b == [] {
      assert fs != [] ==> |Enc(fs)| >= |EncField(fs[0])| > 0;
    } else if fs != [] {
      var tail := Enc(fs[1..]);
      assert fs == [fs[0]] + fs[1..];
      GetFieldExact(k, b, fs[0], tail);
      match GetField(k, b)
      case None =>
      case Some((f, rest)) =>
        GetFieldExact(k, b, f, rest);
        DecAllExact(k, rest, fs[1..]);
        if DecAll(k, b) == Some(fs) {
          assert fs[1..] == DecAll(k, rest).value;
        }
        if AllOfKind(k, fs) && b == Enc(fs) {
          assert forall g :: g in fs[1..] ==> g in fs;
        }
    }
  }

  function Strs(items: seq<bytes>): (fs: seq<Field>)
    ensures |fs| == |items|
  {
    seq(|items|, i requires 0 <= i < |items| => Str(items[i]))
  }

  predicate AllFit(items: seq<bytes>) {
    forall s :: s in items ==> |s| < 0x1_0000_0000
  }

  function Texts(fs: seq<Field>): (items: seq<bytes>)
    ensures |items| == |fs|
  {
    seq(|fs|, i requires 0 <= i < |fs| => if fs[i].Str? then fs[i].s else [])
  }

  /** What StringList returns. */
  function DecStrings(b: bytes): Option<seq<bytes>> {
    match DecAll(KStr, b)
    case None => None
    case Some(fs) => Some(Texts(fs))
  }

  /** A blob unpacks to a list exactly when it is the packing of that list. */
  lemma DecStringsExact(b: bytes, items: seq<bytes>)
    ensures DecStrings(b) == Some(items) <==> AllFit(items) && b == Enc(Strs(items))
  {
    hide GetField, EncField, Enc, DecAll;
    if AllFit(items) && b == Enc(Strs(items)) {
      assert AllOfKind(KStr, Strs(items));
      DecAllExact(KStr, b, Strs(items));
      assert Texts(Strs(items)) == items;
    }
    match DecAll(KStr, b)
    case None =>
    case Some(fs) =>
      DecAllExact(KStr, b, fs);
      if Texts(fs) == items {
        forall i | 0 <= i < |fs| ensures fs[i].Str? && fs[i].Fits() {
          assert fs[i] in fs;
        }
        assert Strs(items) == fs;
        forall s | s in items ensures |s| < 0x1_0000_0000 {
          var i :| 0 <= i < |items| && items[i] == s;
          assert fs[i].Fits();
        }
      }
  }

  function Nums(items: seq<u64>): (fs: seq<Field>)
    ensures |fs| == |items|
  {
    seq(|items|, i requires 0 <= i < |items| => U64(items[i]))
  }

  function Values(fs: seq<Field>): (items: seq<u64>)
    ensures |items| == |fs|
  {
    seq(|fs|, i requires 0 <= i < |fs| => if fs[i].U64? then fs[i].v64 else 0)
  }

  function DecNums(b: bytes): Option<seq<u64>> {
    match DecAll(K64, b)
    case None => None
    case Some(fs) => Some(Values(fs))
  }

  lemma DecNumsExact(b: bytes, items: seq<u64>)
    ensures DecNums(b) == Some(items) <==> b == Enc(Nums(items))
  {
    hide GetField, EncField, Enc, DecAll;
    assert AllOfKind(K64, Nums(items));
    DecAllExact(K64, Enc(Nums(items)), Nums(items));
    assert Values(Nums(items)) == items;
    match DecAll(K64, b)
    case None =>
    case Some(fs) =>
      DecAllExact(K64, b, fs);
      forall i | 0 <= i < |fs| ensures fs[i].U64? {
        assert fs[i] in fs;
      }
      assert Nums(Values(fs)) == fs;
  }

  lemma {:induction false} NumsLength(items: seq<u64>)
    ensures |Enc(Nums(items))| == 8 * |items|
  {
    if items != [] {
      assert Nums(items)[1..] == Nums(items[1..]);
      NumsLength(items[1..]);
    }
  }

  lemma {:induction false} StrsLength(items: seq<bytes>)
    ensures |Enc(Strs(items))| >= 4 * |items|
    ensures forall i :: 0 <= i < |items| ==> |items[i]| <= |Enc(Strs(items))|
  {
    hide EncField;
    if items != [] {
      assert Strs(items)[1..] == Strs(items[1..]);
      StrsLength(items[1..]);
      assert |Enc(Strs(items))| == 4 + |items[0]| + |Enc(Strs(items[1..]))|;
      assert forall i :: 0 < i < |items| ==> items[i] == items[1..][i - 1];
    }
  }

  // ---------------------------------------------------------------------
  // Buffer and Reader
  // ---------------------------------------------------------------------

  class Buffer {
    var b: bytes

    constructor ()
      ensures b == []
    {
      b := [];
    }

    method Bytes() returns (r: bytes)
      ensures r == b
    {
      r := b;
    }

    method Byte(v: byte)
      modifies this
      ensures b == old(b) + EncField(U8(v))
    {
      b := b + [v];
    }

    method Uint32(v: u32)
      modifies this
      ensures b == old(b) + EncField(U32(v))
    {
      b := b + BigEndian(4, v);
    }

    method Uint64(v: u64)
      modifies this
      ensures b == old(b) + EncField(U64(v))
    {
      b := b + BigEndian(8, v);
    }

    method Bytes32(v: bytes)
      modifies this
      ensures b == old(b) + EncField(Str(v))
    {
      hide BigEndian;
      Uint32(|v| % 0x1_0000_0000);
      b := b + v;
    }

    method String(s: bytes)
      modifies this
      ensures b == old(b) + EncField(Str(s))
    {
      Bytes32(s);
    }

    method Raw(v: bytes)
      modifies this
      ensures b == old(b) + v
    {
      b := b + v;
    }
  }

  /** What a failed read leaves: the length prefix of an over-long string is already gone. */
  function AfterFailedRead(k: Kind, b: bytes): bytes {
    if k == KStr && |b| >= 4 then b[4..] else b
  }

  /** The reader moves from before to after by a read that returned what GetField returns. */
  predicate ReadStep(k: Kind, before: bytes, after: bytes, read: Option<Field>) {
    match GetField(k, before)
    case None => read == None && after == AfterFailedRead(k, before)
    case Some((f, rest)) => read == Some(f) && after == rest
  }

  /** The first i fields of a layout have been read from b as fs, leaving rest. */
  ghost predicate Reading(ks: seq<Kind>, b: bytes, i: nat, fs: seq<Field>, rest: bytes) {
    i <= |ks| && Dec(ks[..i], b) == Some((fs, rest)) && |fs| == i
  }

  lemma StartReading(ks: seq<Kind>, b: bytes)
    ensures Reading(ks, b, 0, [], b)
  {
    assert ks[..0] == [];
  }

  /** One read: the fields so far grow by the one read, or parsing the whole layout fails. */
  lemma ReadNext(
    ks: seq<Kind>, b: bytes, i: nat, fs: seq<Field>, before: bytes, after: bytes, read: Option<Field>)
    requires i < |ks| && Reading(ks, b, i, fs, before) && ReadStep(ks[i], before, after, read)
    ensures match read
            case None => Dec(ks, b) == None
            case Some(f) => Reading(ks, b, i + 1, fs + [f], after)
  {
    hide Dec, GetField;
    DecPrefix(ks, i, b);
  }

  /** The fields read so far are the first fields of the whole layout, if that parses. */
  lemma ReadSoFar(ks: seq<Kind>, b: bytes, i: nat, fs: seq<Field>, rest: bytes)
    requires Reading(ks, b, i, fs, rest)
    ensures |fs| == i <= |ks|
    ensures Dec(ks, b).Some? ==>
              |Dec(ks, b).value.0| == |ks| &&
              forall j :: 0 <= j < i ==> Dec(ks, b).value.0[j] == fs[j]
    ensures i == |ks| ==> Dec(ks, b) == Some((fs, rest)) && HasKinds(ks, fs)
  {
    hide Dec;
    DecPrefix(ks, i, b);
    if i == |ks| {
      assert ks[..i] == ks;
      DecExact(ks, b, fs, rest);
    }
  }

  class Reader {
    var b: bytes

    constructor (b: bytes)
      ensures this.b == b
    {
      this.b := b;
    }

    method Empty() returns (r: bool)
      ensures r <==> b == []
    {
      r := |b| == 0;
    }

    method Rest() returns (rest: bytes)
      modifies this
      ensures rest == old(b) && b == []
    {
      rest := b;
      b := [];
    }

    method Byte() returns (r: Option<byte>)
      modifies this
      ensures ReadStep(K8, old(b), b, match r case None => None case Some(v) => Some(U8(v)))
    {
      if |b| < 1 {
        return None;
      }
      r := Some(b[0]);
      b := b[1..];
    }

    method Uint32() returns (r: Option<u32>)
      modifies this
      ensures ReadStep(K32, old(b), b, match r case None => None case Some(v) => Some(U32(v)))
    {
      if |b| < 4 {
        return None;
      }
      Powers();
      r := Some(FromBigEndian(b[..4]));
      b := b[4..];
    }

    method Uint64() returns (r: Option<u64>)
      modifies this
      ensures ReadStep(K64, old(b), b, match r case None => None case Some(v) => Some(U64(v)))
    {
      if |b| < 8 {
        return None;
      }
      Powers();
      r := Some(FromBigEndian(b[..8]));
      b := b[8..];
    }

    method Bytes32() returns (r: Option<bytes>)
      modifies this
      ensures ReadStep(KStr, old(b), b, match r case None => None case Some(v) => Some(Str(v)))
    {
      ghost var before := b;
      var n := Uint32();
      if n == None || n.value > |b| {
        return None;
      }
      r := Some(b[..n.value]);
      b := b[n.value..];
      assert before[4..][..n.value] == before[4..4 + n.value];
      assert before[4..][n.value..] == before[4 + n.value..];
    }

    method String() returns (r: Option<bytes>)
      modifies this
      ensures ReadStep(KStr, old(b), b, match r case None => None case Some(v) => Some(Str(v)))
    {
      r := Bytes32();
    }
  }

  lemma DecStringsStep(b: bytes, s: bytes, rest: bytes)
    requires GetField(KStr, b) == Some((Str(s), rest))
    ensures match DecStrings(rest)
            case None => DecStrings(b) == None
            case Some(more) => DecStrings(b) == Some([s] + more)
  {
    hide GetField;
    match DecAll(KStr, rest)
    case None =>
    case Some(fs) => assert Texts([Str(s)] + fs) == [s] + Texts(fs);
  }

  lemma DecStringsEnds(b: bytes)
    ensures DecStrings([]) == Some([])
    ensures b != [] && GetField(KStr, b) == None ==> DecStrings(b) == None
  {
  }

  method StringList(b: bytes) returns (r: Option<seq<bytes>>)
    ensures r == DecStrings(b)
  {
    DecStringsEnds(b);
    hide GetField, DecStrings;
    var reader := new Reader(b);
    var out: seq<bytes> := [];
    var done := reader.Empty();
    assert DecStrings(b).Some? ==> out + DecStrings(b).value == DecStrings(b).value;
    while !done
      invariant done <==> reader.b == []
      invariant match DecStrings(reader.b)
                case None => DecStrings(b) == None
                case Some(more) => DecStrings(b) == Some(out + more)
      decreases |reader.b|
    {
      ghost var before := reader.b;
      var s := reader.String();
      if s == None {
        DecStringsEnds(before);
        return None;
      }
      DecStringsStep(before, s.value, reader.b);
      assert forall more: seq<bytes> :: out + ([s.value] + more) == out + [s.value] + more;
      out := out + [s.value];
      done := reader.Empty();
    }
    assert out + [] == out;
    return Some(out);
  }

  method PackStringList(items: seq<bytes>) returns (r: bytes)
    ensures r == Enc(Strs(items))
  {
    var w := new Buffer();
    for i := 0 to |items|
      invariant w.b == Enc(Strs(items[..i]))
    {
      w.String(items[i]);
      assert Strs(items[..i + 1]) == Strs(items[..i]) + [Str(items[i])];
      EncSnoc(Strs(items[..i]), Str(items[i]));
    }
    assert items[..|items|] == items;
    r := w.Bytes();
  }
}
