/** The -cert.pub line form of certificates: MarshalLine and ParseCertificateLine of internal/sshcert/cert.go. */
module CertificateLines {
  import opened Basics
  import opened Text
  import opened Keys
  import opened Certificates
  import opened CertificateLaws

  function MarshalLine(base64: Base64, c: Cert, comment: bytes): bytes {
    var line := CertAlgo(c.key.algo) + [SPACE] + base64.encode(Marshalled(c));
    if comment != [] then line + [SPACE] + comment else line
  }

  function ParsedLine(base64: Base64, line: bytes): Option<Cert> {
    var fields := Fields(TrimSpace(line));
    if |fields| < 2 then None
    else
      match base64.decode(fields[1])
      case None => None
      case Some(blob) =>
        match Parsed(blob)
        case None => None
        case Some(c) => if CertAlgo(c.key.algo) == fields[0] then Some(c) else None
  }

  lemma LiteralIsPrintable(s: string)
    requires forall i :: 0 <= i < |s| ==> '!' <= s[i] <= '~'
    ensures Printable(Ascii(s))
  {
  }

  lemma ShortNames()
    ensures Printable(Ascii("ssh-ed25519"))
    ensures Printable(Ascii("ssh-rsa"))
    ensures Printable(Ascii("ssh-dss"))
  {
    hide Printable, Ascii;
    LiteralIsPrintable("ssh-ed25519");
    LiteralIsPrintable("ssh-rsa");
    LiteralIsPrintable("ssh-dss");
  }

  lemma CurveNames()
    ensures Printable(Ascii("ecdsa-sha2-nistp256"))
    ensures Printable(Ascii("ecdsa-sha2-nistp384"))
    ensures Printable(Ascii("ecdsa-sha2-nistp521"))
  {
    hide Printable, Ascii;
    LiteralIsPrintable("ecdsa-sha2-nistp256");
    LiteralIsPrintable("ecdsa-sha2-nistp384");
    LiteralIsPrintable("ecdsa-sha2-nistp521");
  }

  lemma HardwareNames()
    ensures Printable(Ascii("sk-ssh-ed25519@openssh.com"))
    ensures Printable(Ascii("sk-ecdsa-sha2-nistp256@openssh.com"))
  {
    hide Printable, Ascii;
    LiteralIsPrintable("sk-ssh-ed25519@openssh.com");
    LiteralIsPrintable("sk-ecdsa-sha2-nistp256@openssh.com");
  }

  lemma KnownIsPrintable(algo: bytes)
    requires Known(algo)
    ensures algo != [] && Printable(algo)
  {
    hide Printable, Ascii;
    ShortNames();
    CurveNames();
    HardwareNames();
  }

  lemma CertAlgoIsWord(algo: bytes)
    requires Known(algo)
    ensures CertAlgo(algo) != [] && NoSpace(CertAlgo(algo))
  {
    hide PubKeyFieldCount, CutSuffix, NoSpace;
    KnownIsPrintable(algo);
    LiteralIsPrintable("-cert-v01@openssh.com");
    match CutSuffix(algo, OPENSSH) {
    case Some(base) => assert forall i :: 0 <= i < |base| ==> base[i] == algo[i];
    case None =>
    }
    PrintableNoSpace(CertAlgo(algo));
  }

  /** A certificate survives its line, whatever the comment; options come back sorted. */
  lemma LineRoundTrip(base64: Base64, c: Cert, comment: bytes)
    requires GoodBase64(base64) && WellFormed(c)
    ensures ParsedLine(base64, MarshalLine(base64, c, comment)) == Some(Normal(c))
  {
    hide WellFormed, Marshalled, Parsed, CertAlgo, NoSpace, Fields, TrimSpace;
    RoundTrip(c);
    MarshalledNonempty(c);
    CertAlgoIsWord(c.key.algo);
    var encoded := base64.encode(Marshalled(c));
    var rest := if comment != [] then [SPACE] + comment else [];
    assert MarshalLine(base64, c, comment) == CertAlgo(c.key.algo) + [SPACE] + encoded + rest;
    FirstTwoFields(CertAlgo(c.key.algo), encoded, rest);
  }

  lemma MarshalledNonempty(c: Cert)
    requires WellFormed(c)
    ensures Marshalled(c) != [] && Known(c.key.algo)
  {
  }

  /** A line denotes a certificate exactly when its second word is the blob of it and its first the right name for it. */
  lemma LineMeans(base64: Base64, line: bytes, c: Cert)
    ensures ParsedLine(base64, line) == Some(c) <==>
            exists blob ::
              && |Fields(TrimSpace(line))| >= 2 && base64.decode(Fields(TrimSpace(line))[1]) == Some(blob)
              && Parsed(blob) == Some(c) && Fields(TrimSpace(line))[0] == CertAlgo(c.key.algo)
  {
    hide Parsed, Fields, TrimSpace, CertAlgo;
  }

  /** The line itself: name, blob and comment with one blank in between. */
  lemma LineBytes(base64: Base64, c: Cert, comment: bytes)
    ensures MarshalLine(base64, c, comment) ==
            Join([CertAlgo(c.key.algo), base64.encode(Marshalled(c))] + (if comment == [] then [] else [comment]), [0x20])
  {
    hide CertAlgo, Marshalled;
    var x, y := CertAlgo(c.key.algo), base64.encode(Marshalled(c));
    if comment == [] {
      assert [x, y] + [] == [x, y] && [x, y][1..] == [y];
      assert Join([x, y], [0x20]) == x + [0x20] + Join([y], [0x20]);
    } else {
      assert [x, y] + [comment] == [x, y, comment];
      assert [x, y, comment][1..] == [y, comment] && [y, comment][1..] == [comment];
      assert Join([y, comment], [0x20]) == y + [0x20] + Join([comment], [0x20]);
      assert Join([x, y, comment], [0x20]) == x + [0x20] + Join([y, comment], [0x20]);
    }
  }
}
