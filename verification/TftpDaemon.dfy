/** What the TFTP daemon does with a datagram on its well-known port: an error packet, or a file to
    transfer. */
module TftpDaemon {
  import opened Bytes
  import opened TftpWire
  import opened TftpPath

  const OCTET: Text := Ascii("octet")
  const NETASCII: Text := Ascii("netascii")

  predicate ServesMode(mode: Text) {
    mode == OCTET || mode == NETASCII
  }

  /** `Refuse` is an ERROR packet with this code and text. */
  datatype Answer = Refuse(code: u16, message: Text) | Serve(file: seq<byte>)

  /** The receive loop of `tftp_server` and the start of `serve_tftp_read`; `files` maps the paths that
      can be opened to their contents. */
  function AnswerRrq(root: Text, files: map<Text, seq<byte>>, packet: seq<byte>): Answer {
    match ParseRrq(packet)
    case None => Refuse(4, Ascii("unsupported operation"))
    case Some(req) =>
      if ServesMode(req.mode) then AnswerFile(root, files, req.filename)
      else Refuse(0, Ascii("unsupported transfer mode"))
  }

  function AnswerFile(root: Text, files: map<Text, seq<byte>>, requested: Text): Answer {
    match SanitizePath(root, requested)
    case None => Refuse(2, Ascii("invalid path"))
    case Some(path) => if path in files then Serve(files[path]) else Refuse(1, Ascii("file not found"))
  }

  /** The datagram is a read request for `name` in a served mode. */
  ghost predicate Requests(packet: seq<byte>, name: Text) {
    exists spelling, rest :: IsRrq(packet, name, spelling, rest) && ServesMode(Lower(spelling))
  }

  /** Below the root, by names that stay inside their directories. */
  ghost predicate Below(root: Text, path: Text) {
    root <= path && exists names :: path == Under(root, names) && forall s :: s in names ==> IsNormal(s)
  }

  /** The datagram is a read request for `name`, in a mode that is not served. */
  ghost predicate RequestsOtherwise(packet: seq<byte>, name: Text) {
    exists spelling, rest :: IsRrq(packet, name, spelling, rest) && !ServesMode(Lower(spelling))
  }

  /** The name asks for something outside the root. */
  predicate Escapes(name: Text) {
    IsAbsolute(Pieces(name)) || [46, 46] in Pieces(name)
  }

  lemma AnswerRequested(root: Text, files: map<Text, seq<byte>>, packet: seq<byte>, name: Text)
    ensures Requests(packet, name) <==> ParseRrq(packet).Some? && ParseRrq(packet).value.filename == name
                                        && ServesMode(ParseRrq(packet).value.mode)
    ensures RequestsOtherwise(packet, name) <==> ParseRrq(packet).Some? && ParseRrq(packet).value.filename == name
                                                 && !ServesMode(ParseRrq(packet).value.mode)
  {
    if ParseRrq(packet).Some? {
      RrqExact(packet, ParseRrq(packet).value);
    }
    forall spelling, rest | IsRrq(packet, name, spelling, rest)
      ensures ParseRrq(packet) == Some(ReadRequest(name, Lower(spelling)))
    {
      RrqExact(packet, ReadRequest(name, Lower(spelling)));
    }
  }

  /** Whatever datagram arrives, a file is served exactly when the datagram is a well-formed request, in
      a known mode, for the name of a file that exists at the sanitized path. */
  lemma ServesExactly(root: Text, files: map<Text, seq<byte>>, packet: seq<byte>, file: seq<byte>)
    ensures AnswerRrq(root, files, packet) == Serve(file) <==>
      exists name :: Requests(packet, name) && SanitizePath(root, name).Some?
                     && var path := SanitizePath(root, name).value; path in files && files[path] == file
  {
    forall name { AnswerRequested(root, files, packet, name); }
    if AnswerRrq(root, files, packet) == Serve(file) {
      assert Requests(packet, ParseRrq(packet).value.filename);
    }
  }

  /** ... and every other datagram is refused with the code for its fault: 4 for what is not a read request,
      0 for another transfer mode, 2 for a name that leaves the root, 1 for a file that is not there. */
  lemma RefusesExactly(root: Text, files: map<Text, seq<byte>>, packet: seq<byte>)
    ensures var a := AnswerRrq(root, files, packet);
      && (a.Refuse? && a.code == 4 <==> forall name :: !Requests(packet, name) && !RequestsOtherwise(packet, name))
      && (a.Refuse? && a.code == 0 <==> exists name :: RequestsOtherwise(packet, name))
      && (a.Refuse? && a.code == 2 <==> exists name :: Requests(packet, name) && Escapes(name))
      && (a.Refuse? && a.code == 1 <==>
            exists name :: Requests(packet, name) && !Escapes(name)
                           && (SanitizePath(root, name).Some? ==> SanitizePath(root, name).value !in files))
  {
    forall name ensures Escapes(name) <==> SanitizePath(root, name).None? {
      SanitizeContains(root, name);
      DotTexts();
    }
    forall name { AnswerRequested(root, files, packet, name); }
    if ParseRrq(packet).Some? {
      var name := ParseRrq(packet).value.filename;
      assert Requests(packet, name) || RequestsOtherwise(packet, name);
    }
  }

  /** Every file that is served lies below the root. */
  lemma AnswersAreContained(root: Text, files: map<Text, seq<byte>>, packet: seq<byte>)
    requires AnswerRrq(root, files, packet).Serve?
    ensures exists path :: Below(root, path) && path in files && files[path] == AnswerRrq(root, files, packet).file
  {
    var requested := ParseRrq(packet).value.filename;
    SanitizeContains(root, requested);
    assert Below(root, SanitizePath(root, requested).value);
  }

  /** A spelling of a served mode is ASCII without NULs. */
  lemma ModeSpelling(spelling: Text)
    requires ServesMode(Lower(spelling))
    ensures 0 !in spelling && ValidUtf8(spelling)
  {
    forall c | c in spelling ensures 0 < c < 0x80 {
      var i :| 0 <= i < |spelling| && spelling[i] == c;
      assert Lower(spelling)[i] == LowerByte(c);
      assert Lower(spelling)[i] in Lower(spelling);
    }
    AsciiIsUtf8(spelling);
  }

  /** A request written for a valid name, in any spelling of a served mode, parses to that name. */
  lemma WrittenRequestParses(name: Text, spelling: Text)
    requires 0 !in name && ValidUtf8(name) && ServesMode(Lower(spelling))
    ensures ParseRrq(RrqBytes(name, spelling)) == Some(ReadRequest(name, Lower(spelling)))
  {
    ModeSpelling(spelling);
    assert RrqBytes(name, spelling) == RrqBytes(name, spelling) + [];
    assert IsRrq(RrqBytes(name, spelling), name, spelling, []);
    RrqExact(RrqBytes(name, spelling), ReadRequest(name, Lower(spelling)));
  }

  /** A lower-case word is what a spelling lowers to exactly when each letter is that letter or its
      capital, 32 below it. */
  lemma CaseInsensitive(spelling: Text, word: Text)
    requires forall c :: c in word ==> 97 <= c < 123
    ensures Lower(spelling) == word <==>
      |spelling| == |word|
      && forall i :: 0 <= i < |word| ==> spelling[i] as int == word[i] || spelling[i] as int == word[i] as int - 32
  {
    forall i | 0 <= i < |word| && |spelling| == |word|
      ensures Lower(spelling)[i] == word[i] <==>
              spelling[i] as int == word[i] || spelling[i] as int == word[i] as int - 32
    {
      assert word[i] in word;
    }
  }

  /** The two served modes, letter by letter. */
  lemma ServedModes(mode: Text)
    ensures ServesMode(mode) <==>
      mode == [111, 99, 116, 101, 116] || mode == [110, 101, 116, 97, 115, 99, 105, 105]
  {
    assert OCTET == [111, 99, 116, 101, 116];
    assert NETASCII == [110, 101, 116, 97, 115, 99, 105, 105];
  }
}
