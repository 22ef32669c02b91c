/** internal/sshcert/key.go: public keys and authorized_keys lines. */
module Keys {
  import opened Basics
  import opened Text
  import opened Wire

  const ED25519: bytes := Ascii("ssh-ed25519")
  const OPENSSH: bytes := Ascii("@openssh.com")

  /** The table of key algorithms; None when an algorithm is not in it. */
  function PubKeyFieldCount(algo: bytes): (n: Option<nat>)
    ensures n.Some? ==> 1 <= n.value <= 4 && 7 <= |algo| <= 34
  {
    if algo == ED25519 then Some(1)
    else if algo == Ascii("ssh-rsa") then Some(2)
    else if algo == Ascii("ssh-dss") then Some(4)
    else if algo == Ascii("ecdsa-sha2-nistp256") then Some(2)
    else if algo == Ascii("ecdsa-sha2-nistp384") then Some(2)
    else if algo == Ascii("ecdsa-sha2-nistp521") then Some(2)
    else if algo == Ascii("sk-ssh-ed25519@openssh.com") then Some(2)
    else if algo == Ascii("sk-ecdsa-sha2-nistp256@openssh.com") then Some(3)
    else None
  }

  predicate Known(algo: bytes) {
    PubKeyFieldCount(algo).Some?
  }

  datatype PublicKey = PublicKey(algo: bytes, blob: bytes, comment: bytes)

  function Strings(n: nat): seq<Kind> {
    seq(n, _ => KStr)
  }

  /** The bytes of a key blob after the embedded algorithm name. */
  function KeyFieldsOf(k: PublicKey): bytes {
    match GetField(KStr, k.blob)
    case None => AfterFailedRead(KStr, k.blob)
    case Some((_, rest)) => rest
  }

  /** The blob is the algorithm name and then exactly as many fields as the table says. */
  predicate WellFormedKey(k: PublicKey): (r: bool)
    ensures r ==> Known(k.algo)
  {
    match PubKeyFieldCount(k.algo)
    case None => false
    case Some(n) =>
      match Dec([KStr] + Strings(n), k.blob)
      case None => false
      case Some((fs, rest)) => rest == [] && fs[0] == Str(k.algo)
  }

  /** The fields after the name. */
  function KeyItems(k: PublicKey): (fs: seq<Field>)
    requires WellFormedKey(k)
    ensures HasKinds(Strings(PubKeyFieldCount(k.algo).value), fs)
    ensures KeyFieldsOf(k) == Enc(fs)
    ensures k.blob == EncField(Str(k.algo)) + Enc(fs)
  {
    var n := PubKeyFieldCount(k.algo).value;
    var fs := Dec([KStr] + Strings(n), k.blob).value.0;
    WellFormedKeyLayout(k, fs);
    fs[1..]
  }

  lemma WellFormedKeyLayout(k: PublicKey, fs: seq<Field>)
    requires WellFormedKey(k)
    requires fs == Dec([KStr] + Strings(PubKeyFieldCount(k.algo).value), k.blob).value.0
    ensures fs != [] && HasKinds(Strings(PubKeyFieldCount(k.algo).value), fs[1..])
    ensures KeyFieldsOf(k) == Enc(fs[1..])
    ensures k.blob == EncField(Str(k.algo)) + Enc(fs[1..])
  {
    hide PubKeyFieldCount, EncField, GetField, Dec;
    var ks := [KStr] + Strings(PubKeyFieldCount(k.algo).value);
    DecExact(ks, k.blob, fs, []);
    assert fs[1..] == fs[1..] && forall i :: 0 <= i < |fs| - 1 ==> fs[1..][i].Kind() == ks[i + 1];
    assert k.blob == EncField(fs[0]) + Enc(fs[1..]);
    GetFieldExact(KStr, k.blob, fs[0], Enc(fs[1..]));
  }

  /** Any blob made of a known name and the right number of fields is well formed. */
  lemma WellFormedFrom(k: PublicKey, fs: seq<Field>)
    requires Known(k.algo) && HasKinds(Strings(PubKeyFieldCount(k.algo).value), fs)
    requires k.blob == EncField(Str(k.algo)) + Enc(fs)
    ensures WellFormedKey(k) && KeyItems(k) == fs
  {
    hide PubKeyFieldCount, EncField, GetField, Dec;
    var all := [Str(k.algo)] + fs;
    assert all[1..] == fs;
    var ks := [KStr] + Strings(PubKeyFieldCount(k.algo).value);
    assert k.blob == Enc(all) + [];
    assert HasKinds(ks, all);
    DecExact(ks, k.blob, all, []);
  }

  // ---------------------------------------------------------------------
  // Checking and taking keys apart
  // ---------------------------------------------------------------------

  /** The table has no fields for an algorithm that is not in it. */
  method CheckKeyFields(algo: bytes, blob: bytes) returns (ok: bool)
    ensures ok <==> match Dec([KStr] + Strings(PubKeyFieldCount(algo).GetOr(0)), blob)
                    case None => false
                    case Some((_, rest)) => rest == []
  {
    hide PubKeyFieldCount, GetField;
    var n := PubKeyFieldCount(algo).GetOr(0);
    ghost var ks := [KStr] + Strings(n);
    var r := new Reader(blob);
    ghost var fs: seq<Field> := [];
    assert ks[..0] == [];
    DecPrefix(ks, 0, blob);
    var name := r.String();
    if name == None {
      return false;
    }
    fs := fs + [Str(name.value)];
    for i := 0 to n
      invariant Dec(ks[..i + 1], blob) == Some((fs, r.b))
    {
      DecPrefix(ks, i + 1, blob);
      assert ks[i + 1] == KStr;
      var f := r.Bytes32();
      if f == None {
        return false;
      }
      fs := fs + [Str(f.value)];
    }
    assert ks[..n + 1] == ks;
    ok := r.Empty();
  }

  method KeyFields(k: PublicKey) returns (rest: bytes)
    ensures rest == KeyFieldsOf(k)
  {
    var r := new Reader(k.blob);
    var _ := r.String();
    rest := r.Rest();
  }

  /** The raw ed25519 key; bytes after it are not looked at. */
  function Ed25519Of(k: PublicKey): Option<bytes> {
    if k.algo != ED25519 then None
    else
      match GetField(KStr, KeyFieldsOf(k))
      case None => None
      case Some((f, _)) => if |f.s| == 32 then Some(f.s) else None
  }
  /** A key yields these bytes exactly when it is an ed25519 key whose first field they are, 32 in number. */
  lemma Ed25519Exactly(k: PublicKey, pk: bytes)
    ensures Ed25519Of(k) == Some(pk) <==>
            k.algo == Ascii("ssh-ed25519") && |pk| == 32 && EncField(Str(pk)) <= KeyFieldsOf(k)
  {
    hide GetField, EncField, KeyFieldsOf;
    var b := KeyFieldsOf(k);
    if |pk| == 32 && EncField(Str(pk)) <= b {
      GetFieldExact(KStr, b, Str(pk), b[|EncField(Str(pk))|..]);
    }
    if GetField(KStr, b).Some? {
      var (f, rest) := GetField(KStr, b).value;
      GetFieldExact(KStr, b, f, rest);
    }
  }

  method Ed25519(k: PublicKey) returns (pk: Option<bytes>)
    ensures pk == Ed25519Of(k)
  {
    if k.algo != ED25519 {
      return None;
    }
    var r := new Reader(k.blob);
    var _ := r.String();
    pk := r.Bytes32();
    if pk == None || |pk.value| != 32 {
      return None;
    }
  }

  function Ed25519Key(pk: bytes, comment: bytes): PublicKey {
    PublicKey(ED25519, EncField(Str(ED25519)) + EncField(Str(pk)), comment)
  }

  method NewEd25519PublicKey(pk: bytes, comment: bytes) returns (k: PublicKey)
    ensures k == Ed25519Key(pk, comment)
  {
    var w := new Buffer();
    w.String(ED25519);
    w.Bytes32(pk);
    var blob := w.Bytes();
    k := PublicKey(ED25519, blob, comment);
  }

  /** A wrapped ed25519 key is well formed and yields the raw key again. */
  lemma Ed25519KeyRoundTrip(pk: bytes, comment: bytes)
    requires |pk| == 32
    ensures WellFormedKey(Ed25519Key(pk, comment))
    ensures Ed25519Of(Ed25519Key(pk, comment)) == Some(pk)
  {
    hide GetField, EncField;
    var k := Ed25519Key(pk, comment);
    var fs := [Str(pk)];
    assert Enc(fs) == EncField(Str(pk));
    assert PubKeyFieldCount(ED25519) == Some(1);
    assert |ED25519| == 11;
    WellFormedFrom(k, fs);
    GetFieldExact(KStr, Enc(fs), Str(pk), []);
    assert Enc(fs) == EncField(Str(pk)) + [];
  }

  // ---------------------------------------------------------------------
  // authorized_keys lines
  // ---------------------------------------------------------------------

  /** encoding/base64 in its standard alphabet. */
  datatype Base64 = Base64(encode: bytes -> bytes, decode: bytes -> Option<bytes>)

  ghost predicate GoodBase64(base64: Base64) {
    forall b: bytes ::
      && base64.decode(base64.encode(b)) == Some(b)
      && NoSpace(base64.encode(b))
      && (b != [] ==> base64.encode(b) != [])
  }

  function ParsedLine(base64: Base64, line: bytes): Option<PublicKey> {
    var trimmed := TrimSpace(line);
    if trimmed == [] || trimmed[0] == '#' as int then None
    else
      var fields := Fields(trimmed);
      if |fields| < 2 || !Known(fields[0]) then None
      else
        match base64.decode(fields[1])
        case None => None
        case Some(blob) =>
          var k := PublicKey(fields[0], blob, Join(fields[2..], [SPACE]));
          if WellFormedKey(k) then Some(k) else None
  }

  method ParseAuthorizedKey(base64: Base64, line: bytes) returns (k: Option<PublicKey>)
    ensures k == ParsedLine(base64, line)
  {
    hide PubKeyFieldCount, Fields, TrimSpace;
    var trimmed := TrimSpace(line);
    if |trimmed| == 0 || trimmed[0] == '#' as int {
      return None;
    }
    var fields := Fields(trimmed);
    if |fields| < 2 {
      return None;
    }
    var algo := fields[0];
    if !Known(algo) {
      return None;
    }
    var blob := base64.decode(fields[1]);
    if blob == None {
      return None;
    }
    var r := new Reader(blob.value);
    var embedded := r.String();
    ghost var ks := [KStr] + Strings(PubKeyFieldCount(algo).value);
    DecPrefix(ks, 0, blob.value);
    DecPrefix(ks, 1, blob.value);
    if embedded == None || embedded.value != algo {
      return None;
    }
    var ok := CheckKeyFields(algo, blob.value);
    if !ok {
      return None;
    }
    var comment := [];
    if |fields| > 2 {
      comment := Join(fields[2..], [SPACE]);
    }
    return Some(PublicKey(algo, blob.value, comment));
  }

  function MarshalAuthorizedKey(base64: Base64, k: PublicKey): bytes {
    var line := k.algo + [SPACE] + base64.encode(k.blob);
    if k.comment != [] then line + [SPACE] + k.comment else line
  }

  /**
   * The text form is a normal form: what an accepted line denotes is printed as a line that is
   * accepted again and denotes the same key, and the blob is rebuilt from the algorithm name and
   * the table's number of fields.
   */
  lemma AuthorizedKeyNormalForm(base64: Base64, line: bytes)
    requires GoodBase64(base64) && ParsedLine(base64, line).Some?
    ensures var k := ParsedLine(base64, line).value;
            && ParsedLine(base64, MarshalAuthorizedKey(base64, k)) == Some(k)
            && WellFormedKey(k)
            && k.blob == EncField(Str(k.algo)) + KeyFieldsOf(k)
            && |KeyItems(k)| == PubKeyFieldCount(k.algo).value
  {
    hide PubKeyFieldCount, TrimSpace, Fields, NoSpace, Join, MarshalAuthorizedKey;
    var k := ParsedLine(base64, line).value;
    var fields := Fields(TrimSpace(line));
    var items := KeyItems(k);
    PrintedLineParses(base64, k, fields[2..]);
  }

  /** A well-formed key is read back from its line. */
  lemma PrintedLineParses(base64: Base64, k: PublicKey, comment: seq<bytes>)
    requires GoodBase64(base64) && WellFormedKey(k) && NoSpace(k.algo)
    requires AreWords(comment) && k.comment == Join(comment, [SPACE])
    ensures ParsedLine(base64, MarshalAuthorizedKey(base64, k)) == Some(k)
    ensures MarshalAuthorizedKey(base64, k) == Join([k.algo, base64.encode(k.blob)] + comment, [SPACE])
  {
    hide PubKeyFieldCount, TrimSpace, Fields, NoSpace, Join, WellFormedKey;
    var encoded := base64.encode(k.blob);
    var words := [k.algo, encoded] + comment;
    var items := KeyItems(k);
    assert k.blob != [];
    assert AreWords(words);
    LineIsJoin(k.algo, encoded, comment);
    assert MarshalAuthorizedKey(base64, k) == Join(words, [SPACE]);
    FieldsOfJoin(words);
    JoinTrimmed(words);
    FirstLetter(k.algo);
    assert words[0] == k.algo && words[1] == encoded && words[2..] == comment;
    assert k == PublicKey(words[0], k.blob, Join(words[2..], [SPACE]));
  }

  lemma LineIsJoin(a: bytes, e: bytes, ws: seq<bytes>)
    requires AreWords(ws)
    ensures Join([a, e] + ws, [SPACE]) ==
            a + [SPACE] + e + (if Join(ws, [SPACE]) != [] then [SPACE] + Join(ws, [SPACE]) else [])
  {
    var words := [a, e] + ws;
    assert words[1..] == [e] + ws && ([e] + ws)[1..] == ws;
  }

  lemma FirstLetter(algo: bytes)
    requires Known(algo)
    ensures algo[0] in {'s' as int, 'e' as int}
  {
  }
}
