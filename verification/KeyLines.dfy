/** authorized_keys lines, written out. */
module KeyLines {
  import opened Basics
  import opened Text
  import opened Wire
  import opened Keys
  import opened Formats
  import CertificateLines

  /** The words with one blank between each two. */
  function Spaced(words: seq<bytes>): bytes {
    if words == [] then [] else if |words| == 1 then words[0] else words[0] + [0x20] + Spaced(words[1..])
  }

  lemma {:induction false} SpacedIsJoin(words: seq<bytes>)
    ensures Spaced(words) == Join(words, [SPACE])
  {
    if |words| > 1 {
      SpacedIsJoin(words[1..]);
    }
  }

  /**
   * Every key of a known type, with that type's number of fields and with any comment, is printed as its
   * name, its blob in base64 and the comment, and that line is accepted and gives the same key.
   */
  lemma PrintedIsAccepted(base64: Base64, algo: bytes, fields: seq<bytes>, comment: seq<bytes>)
    requires GoodBase64(base64) && AreWords(comment) && AllFit(fields)
    requires PubKeyFieldCount(algo) == Some(|fields|)
    ensures var blob := LengthAnd(algo) + TextList(fields);
            var k := PublicKey(algo, blob, Spaced(comment));
            && WellFormedKey(k)
            && MarshalAuthorizedKey(base64, k) == Spaced([algo, base64.encode(blob)] + comment)
            && ParsedLine(base64, MarshalAuthorizedKey(base64, k)) == Some(k)
  {
    hide PubKeyFieldCount, NoSpace, Join, LengthAnd, TextList, Spaced, WellFormedKey, ParsedLine, MarshalAuthorizedKey;
    var blob := LengthAnd(algo) + TextList(fields);
    var k := PublicKey(algo, blob, Spaced(comment));
    FieldBytes(Str(algo));
    TextListBytes(fields);
    WellFormedFrom(k, Strs(fields));
    SpacedIsJoin(comment);
    SpacedIsJoin([algo, base64.encode(blob)] + comment);
    CertificateLines.KnownIsPrintable(algo);
    PrintableNoSpace(algo);
    PrintedLineParses(base64, k, comment);
  }
}
