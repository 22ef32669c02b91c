/** The few functions of Go's strings package that the parsers rely on. */
module Text {
  import opened Basics

  const SPACE: byte := ' ' as int

  /**
   * The length of the white space character that s starts with, 0 when it starts with none: a byte in
   * ASCII, two or three bytes in UTF-8 for the others of Unicode's White_Space. None of these bytes but
   * the first can start such a character, so looking byte by byte finds what decoding finds.
   */
  function SpaceLength(s: bytes): (n: nat)
    ensures n <= 3 && n <= |s|
  {
    if |s| >= 1 && (s[0] == 0x20 || 0x09 <= s[0] <= 0x0d) then 1
    else if |s| >= 2 && s[0] == 0xc2 && s[1] in {0x85, 0xa0} then 2
    else if |s| >= 3 && IsWideSpace(s[0], s[1], s[2]) then 3
    else 0
  }

  predicate IsWideSpace(x: byte, y: byte, z: byte) {
    || (x == 0xe1 && y == 0x9a && z == 0x80)
    || (x == 0xe2 && y == 0x80 && (0x80 <= z <= 0x8a || z in {0xa8, 0xa9, 0xaf}))
    || (x == 0xe2 && y == 0x81 && z == 0x9f)
    || (x == 0xe3 && y == 0x80 && z == 0x80)
  }

  /** The UTF-8 encoding of a code point below 0x10000. */
  function Utf8(cp: nat): bytes
    requires cp < 0x1_0000
  {
    if cp < 0x80 then [cp]
    else if cp < 0x800 then [0xc0 + cp / 0x40, 0x80 + cp % 0x40]
    else [0xe0 + cp / 0x1000, 0x80 + cp / 0x40 % 0x40, 0x80 + cp % 0x40]
  }

  /** Unicode's White_Space. */
  predicate IsWhiteSpace(cp: nat) {
    0x09 <= cp <= 0x0d || 0x2000 <= cp <= 0x200a || cp in {0x20, 0x85, 0xa0, 0x1680, 0x2028, 0x2029, 0x202f, 0x205f, 0x3000}
  }

  ghost predicate StartsWith(s: bytes, cp: nat) {
    cp < 0x1_0000 && IsWhiteSpace(cp) && Utf8(cp) <= s
  }

  /** The white space looked for is the one of Unicode, in UTF-8. */
  lemma SpacesExactly(s: bytes)
    ensures SpaceLength(s) > 0 <==> exists cp: nat :: StartsWith(s, cp)
    ensures forall cp: nat :: StartsWith(s, cp) ==> SpaceLength(s) == |Utf8(cp)|
  {
    hide Utf8, SpaceLength, IsWhiteSpace;
    if SpaceLength(s) > 0 {
      var cp := CodePointOf(s);
      assert StartsWith(s, cp);
    }
    forall cp: nat | StartsWith(s, cp) ensures SpaceLength(s) == |Utf8(cp)| > 0 {
      SpaceOf(s, cp);
    }
  }

  lemma CodePointOf(s: bytes) returns (cp: nat)
    requires SpaceLength(s) > 0
    ensures StartsWith(s, cp)
  {
    var x: int, y: int := s[0], if |s| > 1 then s[1] else 0;
    var z: int := if |s| > 2 then s[2] else 0;
    if SpaceLength(s) == 1 {
      cp := x;
    } else if SpaceLength(s) == 2 {
      cp := y;
    } else {
      cp := (x - 0xe0) * 0x1000 + (y - 0x80) * 0x40 + (z - 0x80);
    }
  }

  lemma SpaceOf(s: bytes, cp: nat)
    requires StartsWith(s, cp)
    ensures SpaceLength(s) == |Utf8(cp)| > 0
  {
    assert forall i :: 0 <= i < |Utf8(cp)| ==> s[i] == Utf8(cp)[i];
    if 0x2000 <= cp <= 0x200a {
      assert cp / 0x1000 == 2 && cp / 0x40 == 0x80 && cp % 0x40 == cp - 0x2000;
    }
  }

  /** The length of the white space character that s ends with, 0 when it ends with none. */
  function EndingSpaceLength(s: bytes): (n: nat)
    ensures n <= |s|
  {
    if |s| >= 1 && SpaceLength(s[|s| - 1..]) == 1 then 1
    else if |s| >= 2 && SpaceLength(s[|s| - 2..]) == 2 then 2
    else if |s| >= 3 && SpaceLength(s[|s| - 3..]) == 3 then 3
    else 0
  }

  predicate NoSpace(s: bytes) {
    forall i :: 0 <= i < |s| ==> SpaceLength(s[i..]) == 0
  }

  /** strings.CutSuffix: what stands before the suffix, if the suffix is there. */
  function CutSuffix(s: bytes, suffix: bytes): (r: Option<bytes>)
    ensures r.Some? <==> exists base :: s == base + suffix
    ensures r.Some? ==> s == r.value + suffix
  {
    if |s| >= |suffix| && s[|s| - |suffix|..] == suffix then
      var base := s[..|s| - |suffix|];
      assert s == base + suffix;
      Some(base)
    else
      assert forall base :: s == base + suffix ==> s[|base|..] == suffix;
      None
  }

  function TrimLeft(s: bytes): (r: bytes)
    ensures |r| <= |s|
  {
    if SpaceLength(s) > 0 then TrimLeft(s[SpaceLength(s)..]) else s
  }

  function TrimRight(s: bytes): bytes {
    if EndingSpaceLength(s) > 0 then TrimRight(s[..|s| - EndingSpaceLength(s)]) else s
  }

  function TrimSpace(s: bytes): bytes {
    TrimRight(TrimLeft(s))
  }

  /** The length of the run without white space at the start of s. */
  function WordLength(s: bytes): (n: nat)
    ensures n <= |s|
    ensures s != [] && SpaceLength(s) == 0 ==> n > 0
  {
    if s == [] || SpaceLength(s) > 0 then 0 else 1 + WordLength(s[1..])
  }

  lemma {:induction false} WordIs(s: bytes)
    ensures NoSpace(s[..WordLength(s)])
    ensures WordLength(s) < |s| ==> SpaceLength(s[WordLength(s)..]) > 0
  {
    hide SpaceLength, NoSpace;
    if s == [] || SpaceLength(s) > 0 {
      assert s[0..] == s;
      NothingNoSpace(s[..0]);
    } else {
      var n := WordLength(s[1..]);
      WordIs(s[1..]);
      var w, more := s[1..][..n], s[1..][n..];
      assert s == [s[0]] + (w + more) && s[..n + 1] == [s[0]] + w && s[n + 1..] == more;
      NoSpaceCons(s[0], w, more);
    }
  }

  lemma NothingNoSpace(s: bytes)
    requires s == []
    ensures NoSpace(s)
  {
  }

  lemma NoSpaceCons(c: byte, s: bytes, more: bytes)
    requires NoSpace(s) && SpaceLength([c] + (s + more)) == 0
    ensures NoSpace([c] + s)
  {
    hide SpaceLength;
    SpaceLengthOfPrefix([c] + s, more);
    assert [c] + (s + more) == ([c] + s) + more;
    forall i | 0 <= i < |[c] + s| ensures SpaceLength(([c] + s)[i..]) == 0 {
      assert i > 0 ==> ([c] + s)[i..] == s[i - 1..];
      assert i == 0 ==> ([c] + s)[i..] == [c] + s;
    }
  }

  lemma SpaceLengthOfPrefix(s: bytes, more: bytes)
    ensures SpaceLength(s + more) == 0 ==> SpaceLength(s) == 0
  {
  }

  predicate AreWords(ws: seq<bytes>) {
    forall i :: 0 <= i < |ws| ==> ws[i] != [] && NoSpace(ws[i])
  }

  /** strings.Fields: the maximal runs without white space. */
  function Fields(s: bytes): (r: seq<bytes>)
    ensures AreWords(r)
    decreases |s|
  {
    if s == [] then []
    else if SpaceLength(s) > 0 then Fields(s[SpaceLength(s)..])
    else
      WordIs(s);
      [s[..WordLength(s)]] + Fields(s[WordLength(s)..])
  }

  function Join(words: seq<bytes>, sep: bytes): bytes {
    if words == [] then []
    else if |words| == 1 then words[0]
    else words[0] + sep + Join(words[1..], sep)
  }

  // ---------------------------------------------------------------------
  // White space next to a blank
  // ---------------------------------------------------------------------

  /** Nothing at all, or something that starts with a blank. */
  predicate StartsBlank(s: bytes) {
    s == [] || s[0] == SPACE
  }

  predicate Printable(s: bytes) {
    forall i :: 0 <= i < |s| ==> 0x21 <= s[i] <= 0x7e
  }

  lemma PrintableNoSpace(s: bytes)
    requires Printable(s)
    ensures NoSpace(s)
  {
  }

  /** A character that is no white space does not become one by what a blank starts. */
  lemma NoSpaceBefore(w: bytes, rest: bytes)
    requires w != [] && SpaceLength(w) == 0 && StartsBlank(rest)
    ensures SpaceLength(w + rest) == 0
  {
  }

  /** A blank is no part of a longer white space character. */
  lemma BlankInside(u: bytes, k: nat)
    requires 2 <= |u| && k < |u| && u[k] == SPACE
    ensures SpaceLength(u) != |u|
  {
  }

  /** The last character of a text that goes on with a word is the last of the word. */
  lemma EndsInWord(s: bytes, w: bytes)
    requires w != [] && NoSpace(w) && (s == [] || s[|s| - 1] == SPACE)
    ensures EndingSpaceLength(s + w) == 0
  {
    hide SpaceLength;
    LastInWord(s, w, 1);
    LastInWord(s, w, 2);
    LastInWord(s, w, 3);
  }

  lemma LastInWord(s: bytes, w: bytes, n: nat)
    requires w != [] && NoSpace(w) && (s == [] || s[|s| - 1] == SPACE) && 1 <= n
    ensures n <= |s + w| ==> SpaceLength((s + w)[|s + w| - n..]) != n
  {
    hide SpaceLength;
    var t := s + w;
    if n <= |w| {
      assert t[|t| - n..] == w[|w| - n..];
    } else if n <= |t| {
      assert t[|t| - n..][n - |w| - 1] == SPACE;
      BlankInside(t[|t| - n..], n - |w| - 1);
    }
  }

  lemma {:induction false} WordLengthOf(w: bytes, rest: bytes)
    requires NoSpace(w) && StartsBlank(rest)
    ensures WordLength(w + rest) == |w|
  {
    if w == [] {
      assert w + rest == rest;
    } else {
      assert (w + rest)[1..] == w[1..] + rest;
      assert w[0..] == w;
      NoSpaceBefore(w, rest);
      forall i | 0 <= i < |w[1..]| ensures SpaceLength(w[1..][i..]) == 0 {
        assert w[1..][i..] == w[i + 1..];
      }
      WordLengthOf(w[1..], rest);
    }
  }

  /** Words joined by single spaces split back into the same words. */
  lemma {:induction false} FieldsOfJoin(words: seq<bytes>)
    requires AreWords(words)
    ensures Fields(Join(words, [SPACE])) == words
  {
    hide NoSpace, SpaceLength;
    if words != [] {
      var w := words[0];
      var rest := if |words| == 1 then [] else [SPACE] + Join(words[1..], [SPACE]);
      assert Join(words, [SPACE]) == w + rest;
      FieldsStep(w, rest);
      assert words == [w] + words[1..];
      if |words| > 1 {
        FieldsAfterSpace(Join(words[1..], [SPACE]));
        FieldsOfJoin(words[1..]);
      }
    }
  }

  lemma FieldsStep(w: bytes, rest: bytes)
    requires w != [] && NoSpace(w) && StartsBlank(rest)
    ensures Fields(w + rest) == [w] + Fields(rest)
  {
    hide SpaceLength;
    WordLengthOf(w, rest);
    assert w[0..] == w;
    NoSpaceBefore(w, rest);
    assert (w + rest)[..|w|] == w && (w + rest)[|w|..] == rest;
  }

  lemma FieldsAfterSpace(s: bytes)
    ensures Fields([SPACE] + s) == Fields(s)
  {
    assert ([SPACE] + s)[1..] == s;
  }

  /** A text of words is already trimmed. */
  lemma JoinTrimmed(words: seq<bytes>)
    requires words != [] && AreWords(words)
    ensures TrimSpace(Join(words, [SPACE])) == Join(words, [SPACE])
    ensures Join(words, [SPACE]) != [] && Join(words, [SPACE])[0] == words[0][0]
  {
    hide SpaceLength, EndingSpaceLength;
    JoinEnds(words, []);
    assert [] + Join(words, [SPACE]) == Join(words, [SPACE]);
  }

  lemma {:induction false} JoinEnds(words: seq<bytes>, before: bytes)
    requires words != [] && AreWords(words) && (before == [] || before[|before| - 1] == SPACE)
    ensures var s := Join(words, [SPACE]);
            s != [] && s[0] == words[0][0] && SpaceLength(s) == 0 && EndingSpaceLength(before + s) == 0
  {
    hide SpaceLength, EndingSpaceLength;
    var w := words[0];
    assert w[0..] == w;
    if |words| == 1 {
      EndsInWord(before, w);
    } else {
      var tail := Join(words[1..], [SPACE]);
      NoSpaceBefore(w, [SPACE] + tail);
      assert Join(words, [SPACE]) == w + ([SPACE] + tail);
      JoinEnds(words[1..], before + w + [SPACE]);
      assert before + w + [SPACE] + tail == before + Join(words, [SPACE]);
    }
  }

  /** Trimming stops at the end of the last word. */
  lemma {:induction false} TrimRightKeeps(x: bytes, w: bytes, y: bytes)
    requires w != [] && NoSpace(w) && (x == [] || x[|x| - 1] == SPACE) && StartsBlank(y)
    ensures exists end :: StartsBlank(end) && TrimRight(x + w + y) == x + w + end
    decreases |y|
  {
    hide SpaceLength, EndingSpaceLength;
    EndsInWord(x, w);
    var t := x + w + y;
    if y == [] {
      assert t == x + w && x + w + [] == x + w;
      assert StartsBlank([]);
    } else if EndingSpaceLength(t) > 0 {
      var n := EndingSpaceLength(t);
      EndingInTail(x + w, y);
      assert t[..|t| - n] == x + w + y[..|y| - n];
      TrimRightKeeps(x, w, y[..|y| - n]);
    }
  }

  lemma EndingInTail(x: bytes, y: bytes)
    requires StartsBlank(y) && y != []
    ensures EndingSpaceLength(x + y) <= |y|
  {
    hide SpaceLength;
    if |y| < 2 {
      LastInTail(x, y, 2);
    }
    if |y| < 3 {
      LastInTail(x, y, 3);
    }
  }

  lemma LastInTail(x: bytes, y: bytes, n: nat)
    requires StartsBlank(y) && y != [] && |y| < n
    ensures n <= |x + y| ==> SpaceLength((x + y)[|x + y| - n..]) != n
  {
    hide SpaceLength;
    var t := x + y;
    if n <= |t| {
      assert t[|t| - n..][n - |y|] == SPACE;
      BlankInside(t[|t| - n..], n - |y|);
    }
  }

  /** Whatever follows them, the first two words of a line are its first two fields. */
  lemma FirstTwoFields(v: bytes, w: bytes, rest: bytes)
    requires v != [] && NoSpace(v) && w != [] && NoSpace(w) && StartsBlank(rest)
    ensures var fields := Fields(TrimSpace(v + [SPACE] + w + rest));
            |fields| >= 2 && fields[0] == v && fields[1] == w
  {
    hide SpaceLength, NoSpace, Fields, TrimRight;
    StartsWithWord(v, w, rest);
    TrimRightKeeps(v + [SPACE], w, rest);
    var end :| StartsBlank(end) && TrimRight(v + [SPACE] + w + rest) == v + [SPACE] + w + end;
    TwoFields(v, w, end);
  }

  lemma StartsWithWord(v: bytes, w: bytes, rest: bytes)
    requires v != [] && NoSpace(v)
    ensures TrimLeft(v + [SPACE] + w + rest) == v + [SPACE] + w + rest
  {
    hide SpaceLength, NoSpace;
    assert v + [SPACE] + w + rest == v + ([SPACE] + (w + rest));
    StartOfWord(v);
    NoSpaceBefore(v, [SPACE] + (w + rest));
  }

  lemma TwoFields(v: bytes, w: bytes, end: bytes)
    requires v != [] && NoSpace(v) && w != [] && NoSpace(w) && StartsBlank(end)
    ensures Fields(v + [SPACE] + w + end) == [v] + ([w] + Fields(end))
  {
    hide SpaceLength, NoSpace, Fields;
    assert v + [SPACE] + w + end == v + ([SPACE] + (w + end));
    FieldsStep(v, [SPACE] + (w + end));
    FieldsAfterSpace(w + end);
    FieldsStep(w, end);
  }

  lemma StartOfWord(w: bytes)
    requires w != [] && NoSpace(w)
    ensures SpaceLength(w) == 0
  {
    assert w[0..] == w;
  }

  // ---------------------------------------------------------------------
  // What the two functions mean
  // ---------------------------------------------------------------------

  /** Nothing but white space. */
  ghost predicate White(s: bytes)
    decreases |s|
  {
    s == [] || (SpaceLength(s) > 0 && White(s[SpaceLength(s)..]))
  }

  /** A white space character that starts a text starts every longer one; at a byte that goes on none starts. */
  lemma SpaceStays(x: bytes, more: bytes)
    ensures SpaceLength(x) > 0 ==> SpaceLength(x + more) == SpaceLength(x)
    ensures x != [] && SpaceLength(x) == 0 && SpaceLength(more) > 0 ==> SpaceLength(x + more) == 0
  {
  }

  lemma {:induction false} WordBeforeSpace(w: bytes, rest: bytes)
    requires NoSpace(w) && (rest == [] || SpaceLength(rest) > 0)
    ensures WordLength(w + rest) == |w|
  {
    hide SpaceLength;
    if w == [] {
      assert w + rest == rest;
    } else {
      assert (w + rest)[1..] == w[1..] + rest && w[0..] == w && w + [] == w;
      SpaceStays(w, rest);
      forall i | 0 <= i < |w[1..]| ensures SpaceLength(w[1..][i..]) == 0 {
        assert w[1..][i..] == w[i + 1..];
      }
      WordBeforeSpace(w[1..], rest);
    }
  }

  /** The fields of a text: none of nothing, a leading white space character is dropped, a leading word is one. */
  lemma FieldsMeans(s: bytes, w: bytes, rest: bytes)
    ensures Fields([]) == []
    ensures SpaceLength(s) > 0 ==> Fields(s) == Fields(s[SpaceLength(s)..])
    ensures w != [] && NoSpace(w) && (rest == [] || SpaceLength(rest) > 0) ==> Fields(w + rest) == [w] + Fields(rest)
  {
    hide SpaceLength, NoSpace;
    if w != [] && NoSpace(w) && (rest == [] || SpaceLength(rest) > 0) {
      WordBeforeSpace(w, rest);
      StartOfWord(w);
      SpaceStays(w, rest);
      assert rest == [] ==> w + rest == w;
      assert (w + rest)[..|w|] == w && (w + rest)[|w|..] == rest;
    }
  }

  /** Trimming takes white space off both ends, and leaves none there. */
  lemma TrimMeans(s: bytes) returns (before: bytes, after: bytes)
    ensures s == before + TrimSpace(s) + after && White(before) && White(after)
    ensures SpaceLength(TrimSpace(s)) == 0 && EndingSpaceLength(TrimSpace(s)) == 0
  {
    hide SpaceLength, EndingSpaceLength, White;
    before := TrimLeftMeans(s);
    after := TrimRightMeans(TrimLeft(s));
    SpaceLengthOfPrefix(TrimSpace(s), after);
    assert before + (TrimSpace(s) + after) == before + TrimSpace(s) + after;
  }

  lemma {:induction false} TrimLeftMeans(s: bytes) returns (before: bytes)
    ensures s == before + TrimLeft(s) && White(before) && SpaceLength(TrimLeft(s)) == 0
  {
    hide SpaceLength;
    if SpaceLength(s) == 0 {
      before := [];
    } else {
      var n := SpaceLength(s);
      var more := TrimLeftMeans(s[n..]);
      before := s[..n] + more;
      assert before[n..] == more && s == before + TrimLeft(s);
      FirstSpace(s);
      SpaceStays(s[..n], more);
    }
  }

  lemma FirstSpace(s: bytes)
    ensures SpaceLength(s[..SpaceLength(s)]) == SpaceLength(s)
  {
  }

  lemma {:induction false} TrimRightMeans(s: bytes) returns (after: bytes)
    ensures s == TrimRight(s) + after && White(after) && EndingSpaceLength(TrimRight(s)) == 0
  {
    hide EndingSpaceLength, SpaceLength;
    after := [];
    var n := EndingSpaceLength(s);
    if n > 0 {
      var front, last := s[..|s| - n], s[|s| - n..];
      var more := TrimRightMeans(front);
      LastSpace(s);
      assert s == front + last;
      WhiteAndSpace(more, last);
      after := more + last;
    }
  }

  lemma LastSpace(s: bytes)
    ensures EndingSpaceLength(s) > 0 ==> SpaceLength(s[|s| - EndingSpaceLength(s)..]) == EndingSpaceLength(s)
  {
  }

  lemma {:induction false} WhiteAndSpace(a: bytes, last: bytes)
    requires White(a) && SpaceLength(last) == |last|
    ensures White(a + last)
    decreases |a|
  {
    hide SpaceLength;
    if a == [] {
      assert a + last == last && last[|last|..] == [];
    } else {
      var n := SpaceLength(a);
      SpaceStays(a, last);
      WhiteAndSpace(a[n..], last);
      assert (a + last)[n..] == a[n..] + last;
    }
  }
}
