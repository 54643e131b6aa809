/** The client side of multipart/form-data, as a partner of the reader:
    files written into a body with the usual part headers come back out of
    the reader unchanged, as long as no file breaks the framing. */
module MultipartForm {
  import opened Results
  import opened GoStrings
  import opened Assoc
  import opened Multipart

  /** A file as a client puts it into a form; a part without a Content-Type
      line is written when contentType is None. */
  datatype FilePart = FilePart(filename: string, contentType: Option<string>, content: string)

  const DispositionLead: string := "Content-Disposition: form-data; filename=\""
  const ContentTypeLead: string := "Content-Type: "

  function DispositionLine(filename: string): string {
    DispositionLead + filename + "\""
  }

  function ContentTypeLine(contentType: string): string {
    ContentTypeLead + contentType
  }

  /** The header block of a part with its CR LF line ends, then the blank
      line, then the content. */
  function EncodePart(f: FilePart): string {
    var headers := match f.contentType
      case Some(c) => DispositionLine(f.filename) + "\r\n" + ContentTypeLine(c) + "\r\n"
      case None => DispositionLine(f.filename) + "\r\n";
    headers + "\r\n" + f.content
  }

  /** The part as it sits between two delimiters. */
  function Framed(f: FilePart): string {
    "\r\n" + EncodePart(f) + "\r\n"
  }

  function FramedAll(fs: seq<FilePart>): (r: seq<string>)
    ensures |r| == |fs|
    decreases |fs|
  {
    if fs == [] then [] else [Framed(fs[0])] + FramedAll(fs[1..])
  }

  /** A body holding the files: an opening delimiter before the first part,
      one between parts, and the closing delimiter followed by "--". */
  function EncodeBody(fs: seq<FilePart>, boundary: string): string {
    Join([""] + FramedAll(fs) + ["--\r\n"], "--" + boundary)
  }

  /** What the reader is to make of a file. */
  function Expected(f: FilePart): Upload {
    Upload(f.filename, |f.content|, f.contentType.GetOr(DefaultContentType), f.content)
  }

  function ExpectedAll(fs: seq<FilePart>): (us: seq<Upload>)
    ensures |us| == |fs|
    decreases |fs|
  {
    if fs == [] then [] else [Expected(fs[0])] + ExpectedAll(fs[1..])
  }

  /** The Content-Type header value announcing a boundary. */
  function FormContentType(boundary: string): string {
    "multipart/form-data; boundary=" + boundary
  }

  /** A header value that survives the reader: non-empty, on one line, and
      neither starting nor ending with white space or a double quote. */
  predicate PlainValue(v: string) {
    && v != []
    && '\n' !in v
    && !IsSpace(v[0]) && !IsSpace(v[|v| - 1])
    && v[0] != '"' && v[|v| - 1] != '"'
  }

  /** Content the reader gives back whole: non-empty, and not ending in CR
      or LF, which the trim around each segment would eat. */
  predicate PlainContent(c: string) {
    c != [] && c[|c| - 1] != '\r' && c[|c| - 1] != '\n'
  }

  predicate WellFormed(f: FilePart) {
    && PlainValue(f.filename)
    && PlainContent(f.content)
    && (f.contentType.Some? ==> PlainValue(f.contentType.value))
  }

  /** A boundary on one line. */
  predicate PlainBoundary(b: string) {
    b != [] && '\r' !in b && '\n' !in b
  }

  /** Every file is well formed and its framed part is cut exactly at the
      delimiter that follows it: the delimiter does not occur inside. */
  predicate Framable(fs: seq<FilePart>, boundary: string)
    decreases |fs|
  {
    fs == [] || (WellFormed(fs[0]) && Delimits(Framed(fs[0]), "--" + boundary) && Framable(fs[1..], boundary))
  }

  // ---------------------------------------------------------------------
  // One header line

  lemma TrimSpaceOfLine(line: string)
    requires line != [] && !IsSpace(line[0]) && !IsSpace(line[|line| - 1])
    ensures TrimSpace(line + "\r") == line
  {
    TrimFuncExact("", line, "\r", IsSpace);
    assert "" + line + "\r" == line + "\r";
  }

  lemma TrimSpacePlain(v: string)
    requires v != [] && !IsSpace(v[0]) && !IsSpace(v[|v| - 1])
    ensures TrimSpace(v) == v
  {
    TrimFuncExact("", v, "", IsSpace);
    assert "" + v + "" == v;
  }

  /** "filename=" first occurs where the lead puts it. */
  lemma FilenameKeyAt(filename: string)
    ensures Index(DispositionLine(filename), FilenameKey) == 32
  {
    var d := DispositionLine(filename);
    assert d[..42] == DispositionLead;
    assert '=' !in DispositionLead[..40];
    assert FilenameKey[8] == '=';
    forall i | 0 <= i < 32 ensures !OccursAt(d, FilenameKey, i) {
      assert d[i + 8] == DispositionLead[..40][i + 8];
      assert d[i + 8] != '=';
    }
    assert d[32..41] == DispositionLead[32..41] == FilenameKey;
    IndexIs(d, FilenameKey, 32);
  }

  lemma UnquoteFilename(filename: string)
    requires PlainValue(filename)
    ensures TrimSpace(Trim(DispositionLine(filename)[32 + |FilenameKey|..], "\"")) == filename
  {
    var rest := DispositionLine(filename)[41..];
    assert rest == "\"" + filename + "\"";
    TrimFuncExact("\"", filename, "\"", InCutset("\""));
    TrimSpacePlain(filename);
  }

  lemma DispositionLineName(filename: string)
    requires PlainValue(filename)
    ensures DispositionFilename(DispositionLine(filename)) == Some(filename)
  {
    var d := DispositionLine(filename);
    assert d[..20] == DispositionPrefix;
    FilenameKeyAt(filename);
    UnquoteFilename(filename);
  }

  lemma DispositionLineNotType(filename: string)
    ensures LineContentType(DispositionLine(filename)) == None
  {
    var d := DispositionLine(filename);
    assert d[8] == 'D';
    assert ToLower(d)[8] == 'd';
  }

  lemma DispositionLineRead(filename: string)
    requires PlainValue(filename)
    ensures DispositionFilename(TrimSpace(DispositionLine(filename) + "\r")) == Some(filename)
    ensures LineContentType(TrimSpace(DispositionLine(filename) + "\r")) == None
  {
    var d := DispositionLine(filename);
    assert d == (DispositionLead + filename) + "\"";
    assert d[0] == 'C' && d[|d| - 1] == '"';
    TrimSpaceOfLine(d);
    DispositionLineName(filename);
    DispositionLineNotType(filename);
  }

  lemma ContentTypeLineLower(contentType: string)
    ensures HasPrefix(ToLower(ContentTypeLine(contentType)), ContentTypePrefix)
  {
    var l := ContentTypeLine(contentType);
    forall i | 0 <= i < 13 ensures ToLower(l)[i] == ContentTypePrefix[i] {
      assert l[i] == ContentTypeLead[i];
    }
  }

  lemma ContentTypeLineValue(contentType: string)
    requires PlainValue(contentType)
    ensures TrimSpace(ContentTypeLine(contentType)[|ContentTypePrefix|..]) == contentType
  {
    var l := ContentTypeLine(contentType);
    assert l[13..] == " " + contentType + "";
    TrimFuncExact(" ", contentType, "", IsSpace);
  }

  lemma ContentTypeLineRead(contentType: string)
    requires PlainValue(contentType)
    ensures DispositionFilename(TrimSpace(ContentTypeLine(contentType) + "\r")) == None
    ensures LineContentType(TrimSpace(ContentTypeLine(contentType) + "\r")) == Some(contentType)
  {
    var l := ContentTypeLine(contentType);
    ContentTypeLineTrim(contentType);
    ContentTypeLineNotDisposition(contentType);
    ContentTypeLineLower(contentType);
    ContentTypeLineValue(contentType);
  }

  lemma ContentTypeLineTrim(contentType: string)
    requires PlainValue(contentType)
    ensures TrimSpace(ContentTypeLine(contentType) + "\r") == ContentTypeLine(contentType)
  {
    var l := ContentTypeLine(contentType);
    assert l[0] == 'C' && l[|l| - 1] == contentType[|contentType| - 1];
    TrimSpaceOfLine(l);
  }

  lemma ContentTypeLineNotDisposition(contentType: string)
    ensures !HasPrefix(ContentTypeLine(contentType), DispositionPrefix)
  {
    var l := ContentTypeLine(contentType);
    assert l[8] == 'T' && DispositionPrefix[8] == 'D';
    if |DispositionPrefix| <= |l| {
      assert l[..|DispositionPrefix|][8] == l[8];
    }
  }

  lemma BlankLineRead()
    ensures TrimSpace("\r") == []
  {
    TrimSpaceEmpty("\r");
  }

  // ---------------------------------------------------------------------
  // One part

  /** The header lines of a part as the reader splits them, CR included. */
  function HeadLines(f: FilePart): seq<string> {
    match f.contentType
    case Some(c) => [DispositionLine(f.filename) + "\r", ContentTypeLine(c) + "\r"]
    case None => [DispositionLine(f.filename) + "\r"]
  }

  lemma NoNewlineInLines(f: FilePart)
    requires WellFormed(f)
    ensures '\n' !in DispositionLine(f.filename) + "\r"
    ensures f.contentType.Some? ==> '\n' !in ContentTypeLine(f.contentType.value) + "\r"
  {
    assert '\n' !in DispositionLead;
    assert '\n' !in ContentTypeLead;
  }

  /** Three lines and the content: the lines free of line feeds split off
      one by one. */
  predicate SingleLines(ls: seq<string>)
    decreases |ls|
  {
    ls == [] || ('\n' !in ls[0] && SingleLines(ls[1..]))
  }

  lemma {:induction false} SplitLines(ls: seq<string>, content: string)
    requires SingleLines(ls)
    ensures Split(JoinLines(ls, content), "\n") == ls + Split(content, "\n")
    decreases |ls|
  {
    if ls != [] {
      var rest := JoinLines(ls[1..], content);
      var tail := Split(content, "\n");
      assert JoinLines(ls, content) == ls[0] + ['\n'] + rest;
      assert '\n' !in ls[0];
      SplitCharCons(ls[0], '\n', rest);
      assert Split(JoinLines(ls, content), "\n") == [ls[0]] + Split(rest, "\n");
      assert SingleLines(ls[1..]);
      SplitLines(ls[1..], content);
      assert Split(rest, "\n") == ls[1..] + tail;
      ConsRegroup(ls, tail);
    }
  }

  lemma ConsRegroup(ls: seq<string>, tail: seq<string>)
    requires ls != []
    ensures [ls[0]] + (ls[1..] + tail) == ls + tail
  {
    assert ls == [ls[0]] + ls[1..];
  }

  /** Each line followed by a line feed, then the content. */
  function JoinLines(ls: seq<string>, content: string): string
    decreases |ls|
  {
    if ls == [] then content else ls[0] + ['\n'] + JoinLines(ls[1..], content)
  }

  lemma EncodePartLines(f: FilePart)
    ensures EncodePart(f) == JoinLines(HeadLines(f) + ["\r"], f.content)
  {
    var d := DispositionLine(f.filename) + "\r";
    var tail := "\r" + ['\n'] + f.content;
    assert JoinLines(["\r"], f.content) == tail;
    match f.contentType {
      case Some(c) =>
        var t := ContentTypeLine(c) + "\r";
        assert HeadLines(f) + ["\r"] == [d, t, "\r"];
        assert JoinLines([t, "\r"], f.content) == t + ['\n'] + tail;
        assert JoinLines([d, t, "\r"], f.content) == d + ['\n'] + (t + ['\n'] + tail);
      case None =>
        assert HeadLines(f) + ["\r"] == [d, "\r"];
        assert JoinLines([d, "\r"], f.content) == d + ['\n'] + tail;
    }
  }

  lemma PartLines(f: FilePart)
    requires WellFormed(f)
    ensures Split(EncodePart(f), "\n") == HeadLines(f) + ["\r"] + Split(f.content, "\n")
  {
    NoNewlineInLines(f);
    EncodePartLines(f);
    var ls := HeadLines(f) + ["\r"];
    var d := DispositionLine(f.filename) + "\r";
    assert SingleLines(["\r"]) by {
      assert ["\r"][1..] == [];
    }
    match f.contentType {
      case Some(c) =>
        var t := ContentTypeLine(c) + "\r";
        assert ls == [d, t, "\r"];
        assert ls[1..] == [t, "\r"] && ls[1..][1..] == ["\r"];
      case None =>
        assert ls == [d, "\r"];
        assert ls[1..] == ["\r"];
    }
    assert SingleLines(ls);
    SplitLines(ls, f.content);
  }

  lemma HeadLinesCount(f: FilePart)
    requires WellFormed(f)
    ensures HeaderCount(HeadLines(f) + ["\r"] + Split(f.content, "\n")) == |HeadLines(f)|
  {
    var h := HeadLines(f);
    var lines := h + ["\r"] + Split(f.content, "\n");
    HeadLinesNonBlank(f);
    BlankLineRead();
    PiecesAt(h, "\r", Split(f.content, "\n"));
    HeaderCountIs(lines, |h|);
  }

  /** Indexing into a run of lines, one line and more lines. */
  lemma PiecesAt(h: seq<string>, m: string, t: seq<string>)
    ensures forall i :: 0 <= i < |h| ==> (h + [m] + t)[i] == h[i]
    ensures (h + [m] + t)[|h|] == m
    ensures (h + [m] + t)[..|h|] == h
    ensures (h + [m] + t)[|h| + 1..] == t
  {
  }

  lemma HeadLinesNonBlank(f: FilePart)
    requires WellFormed(f)
    ensures forall i :: 0 <= i < |HeadLines(f)| ==> TrimSpace(HeadLines(f)[i]) != []
  {
    var h := HeadLines(f);
    DispositionLineRead(f.filename);
    assert TrimSpace(h[0]) != [];
    match f.contentType {
      case Some(c) =>
        ContentTypeLineTrim(c);
        assert TrimSpace(h[1]) == ContentTypeLine(c);
      case None =>
    }
  }

  lemma HeadLinesAnnounce(f: FilePart)
    requires WellFormed(f)
    ensures LastSome(Filenames(HeadLines(f))) == Some(f.filename)
    ensures LastSome(ContentTypes(HeadLines(f))) == f.contentType
  {
    DispositionLineRead(f.filename);
    var h := HeadLines(f);
    match f.contentType {
      case Some(c) =>
        ContentTypeLineRead(c);
        assert h[1..] == [ContentTypeLine(c) + "\r"];
        assert Filenames(h) == [Some(f.filename), None];
        assert ContentTypes(h) == [None, Some(c)];
        assert [Some(f.filename), None][..1] == [Some(f.filename)];
      case None =>
        assert Filenames(h) == [Some(f.filename)];
        assert ContentTypes(h) == [None];
    }
  }

  /** A well-formed file comes back from the part reader as it went in,
      with the default content type when the part announced none. */
  lemma PartRoundTrip(f: FilePart)
    requires WellFormed(f)
    ensures ParsePart(EncodePart(f)) == Expected(f)
  {
    var part := EncodePart(f);
    var lines := Split(part, "\n");
    var h := HeadLines(f);
    PartLines(f);
    HeadLinesCount(f);
    HeadLinesAnnounce(f);
    PiecesAt(h, "\r", Split(f.content, "\n"));
    assert lines[..|h|] == h;
    assert Join(lines[|h| + 1..], "\n") == f.content;
    ParsePartSpec(part);
    var u := ParsePart(part);
    assert u.filename == f.filename;
    assert u.content == f.content;
    match f.contentType {
      case Some(c) => assert c != [];
      case None =>
    }
    assert u.contentType == f.contentType.GetOr(DefaultContentType);
  }

  // ---------------------------------------------------------------------
  // The body

  lemma EmptyDelimits(sep: string)
    ensures Delimits("", sep)
  {
    assert "" + sep == sep;
    assert OccursAt(sep, sep, 0) by {
      assert sep[0..|sep|] == sep;
    }
    IndexIs(sep, sep, 0);
  }

  /** The closing "--\r\n" does not contain the delimiter. */
  lemma ClosingFree(boundary: string)
    requires PlainBoundary(boundary)
    ensures Index("--\r\n", "--" + boundary) == -1
  {
    var sep := "--" + boundary;
    var closing := "--\r\n";
    assert sep[2] == boundary[0];
    forall i | 0 <= i < |closing| ensures !OccursAt(closing, sep, i) {
      if i + |sep| <= |closing| {
        assert closing[i..i + |sep|][2] == closing[i + 2];
        assert closing[i + 2] == '\r' || closing[i + 2] == '\n';
      }
    }
  }

  lemma FramedAllDelimited(fs: seq<FilePart>, boundary: string)
    requires Framable(fs, boundary)
    ensures forall j :: 0 <= j < |fs| ==> Delimits(FramedAll(fs)[j], "--" + boundary)
  {
    forall j | 0 <= j < |fs| ensures Delimits(FramedAll(fs)[j], "--" + boundary) {
      FramedAtDelimited(fs, boundary, j);
    }
  }

  lemma {:induction false} FramedAtDelimited(fs: seq<FilePart>, boundary: string, j: nat)
    requires Framable(fs, boundary) && j < |fs|
    ensures Delimits(FramedAll(fs)[j], "--" + boundary)
    decreases j
  {
    var rest := FramedAll(fs[1..]);
    assert FramedAll(fs) == [Framed(fs[0])] + rest;
    if j > 0 {
      FramedAtDelimited(fs[1..], boundary, j - 1);
      assert FramedAll(fs)[j] == rest[j - 1];
    }
  }

  /** The body splits at the delimiter into the empty preamble, the framed
      parts and the closing "--". */
  lemma BodySegments(fs: seq<FilePart>, boundary: string)
    requires PlainBoundary(boundary) && Framable(fs, boundary)
    ensures Split(EncodeBody(fs, boundary), "--" + boundary) == [""] + FramedAll(fs) + ["--\r\n"]
  {
    var sep := "--" + boundary;
    var ps := [""] + FramedAll(fs) + ["--\r\n"];
    EmptyDelimits(sep);
    FramedAllDelimited(fs, boundary);
    forall j | 0 <= j < |ps| - 1 ensures Delimits(ps[j], sep) {
      if j > 0 {
        assert ps[j] == FramedAll(fs)[j - 1];
      }
    }
    ClosingFree(boundary);
    SplitJoin(ps, sep);
  }

  lemma {:induction false} KeptPartsAppend(a: seq<string>, b: seq<string>)
    ensures KeptParts(a + b) == KeptParts(a) + KeptParts(b)
    decreases |a|
  {
    if a == [] {
      assert a + b == b;
    } else {
      assert (a + b)[0] == a[0] && (a + b)[1..] == a[1..] + b;
      KeptPartsAppend(a[1..], b);
      if Kept(a[0]) {
        var t := Trim(a[0], CRLF);
        assert KeptParts(a + b) == [t] + KeptParts(a[1..] + b);
        assert KeptParts(a) == [t] + KeptParts(a[1..]);
        assert [t] + (KeptParts(a[1..]) + KeptParts(b)) == ([t] + KeptParts(a[1..])) + KeptParts(b);
      } else {
        assert KeptParts(a + b) == KeptParts(a[1..] + b);
        assert KeptParts(a) == KeptParts(a[1..]);
      }
    }
  }

  lemma PreambleAndClosingDropped()
    ensures KeptParts([""]) == [] && KeptParts(["--\r\n"]) == []
  {
    assert Trim("", CRLF) == [];
    TrimFuncExact("", "--", "\r\n", InCutset(CRLF));
    assert "" + "--" + "\r\n" == "--\r\n";
    assert [""][1..] == [] && ["--\r\n"][1..] == [];
  }

  lemma FramedTrim(f: FilePart)
    requires WellFormed(f)
    ensures Trim(Framed(f), CRLF) == EncodePart(f)
    ensures Kept(Framed(f))
  {
    var e := EncodePart(f);
    var d := DispositionLine(f.filename);
    assert d == DispositionLead + (f.filename + "\"");
    assert d[0] == DispositionLead[0] == 'C';
    match f.contentType {
      case Some(c) =>
        assert e == d + ("\r\n" + ContentTypeLine(c) + "\r\n" + "\r\n" + f.content);
      case None =>
        assert e == d + ("\r\n" + "\r\n" + f.content);
    }
    assert e[0] == 'C';
    assert e[|e| - 1] == f.content[|f.content| - 1];
    TrimFuncExact("\r\n", e, "\r\n", InCutset(CRLF));
  }

  /** A written part starts with its disposition line and ends with the
      last character of its content. */
  lemma EncodePartEnds(f: FilePart)
    requires WellFormed(f)
    ensures var e := EncodePart(f); e != [] && e[0] == 'C' && e[|e| - 1] == f.content[|f.content| - 1]
  {
    var e := EncodePart(f);
    var d := DispositionLine(f.filename);
    assert d == DispositionLead + (f.filename + "\"");
    assert d[0] == DispositionLead[0] == 'C';
    match f.contentType {
      case Some(c) =>
        assert e == d + ("\r\n" + ContentTypeLine(c) + "\r\n" + "\r\n" + f.content);
      case None =>
        assert e == d + ("\r\n" + "\r\n" + f.content);
    }
  }

  /** The trim around each segment eats line ends that belong to the file:
      content ending in a line feed comes back without it. */
  lemma TrailingLineFeedLost(f: FilePart)
    requires WellFormed(f)
    ensures ParsePart(Trim(Framed(f.(content := f.content + "\n")), CRLF)) == Expected(f)
  {
    var g := f.(content := f.content + "\n");
    var e := EncodePart(f);
    match f.contentType {
      case Some(c) =>
        assert EncodePart(g) == e + "\n";
      case None =>
        assert EncodePart(g) == e + "\n";
    }
    assert Framed(g) == "\r\n" + e + "\n\r\n";
    EncodePartEnds(f);
    TrimFuncExact("\r\n", e, "\n\r\n", InCutset(CRLF));
    PartRoundTrip(f);
  }

  /** A file with empty content loses its blank line to the same trim, so
      the part has no blank line at all: its content is read as the whole
      part, which is the disposition line. */
  lemma EmptyFileReadsHeader(filename: string)
    requires PlainValue(filename)
    ensures var seg := Trim(Framed(FilePart(filename, None, "")), CRLF);
      && seg == DispositionLine(filename)
      && ParsePart(seg).content == DispositionLine(filename)
  {
    EmptyFileSegment(filename);
    var d := DispositionLine(filename);
    assert d[0] == 'C' && d[|d| - 1] == '"';
    HeaderOnlyPart(d);
  }

  lemma EmptyFileSegment(filename: string)
    requires PlainValue(filename)
    ensures Trim(Framed(FilePart(filename, None, "")), CRLF) == DispositionLine(filename)
    ensures '\n' !in DispositionLine(filename)
    ensures DispositionLine(filename)[0] == 'C' && DispositionLine(filename)[|DispositionLine(filename)| - 1] == '"'
  {
    DispositionLineShape(filename);
    var d := DispositionLine(filename);
    var e := EncodePart(FilePart(filename, None, ""));
    assert e == d + "\r\n" + "\r\n" + "";
    assert Framed(FilePart(filename, None, "")) == "\r\n" + d + "\r\n\r\n\r\n";
    TrimFuncExact("\r\n", d, "\r\n\r\n\r\n", InCutset(CRLF));
  }

  lemma DispositionLineShape(filename: string)
    requires PlainValue(filename)
    ensures var d := DispositionLine(filename);
      '\n' !in d && d[0] == 'C' && d[|d| - 1] == '"'
  {
    var d := DispositionLine(filename);
    assert d == (DispositionLead + filename) + "\"";
    assert forall i :: 0 <= i < |d| ==> d[i] == '\n' ==> |DispositionLead| <= i < |d| - 1;
  }

  /** A part that is a single line without surrounding white space has no
      blank line, so all of it is content. */
  lemma HeaderOnlyPart(line: string)
    requires line != [] && '\n' !in line && !IsSpace(line[0]) && !IsSpace(line[|line| - 1])
    ensures ParsePart(line).content == line
  {
    NoCharNoIndex(line, '\n');
    assert Split(line, "\n") == [line];
    TrimFuncExact("", line, "", IsSpace);
    assert "" + line + "" == line;
    HeaderCountIs([line], 1);
    ParsePartSpec(line);
  }

  /** The parts of the files, each as the client wrote it. */
  function EncodeAll(fs: seq<FilePart>): (ps: seq<string>)
    ensures |ps| == |fs|
    decreases |fs|
  {
    if fs == [] then [] else [EncodePart(fs[0])] + EncodeAll(fs[1..])
  }

  lemma {:induction false} FramedKept(fs: seq<FilePart>, boundary: string)
    requires Framable(fs, boundary)
    ensures KeptParts(FramedAll(fs)) == EncodeAll(fs)
    decreases |fs|
  {
    if fs != [] {
      FramedTrim(fs[0]);
      FramedKept(fs[1..], boundary);
      var r := FramedAll(fs);
      assert r[0] == Framed(fs[0]) && r[1..] == FramedAll(fs[1..]);
    }
  }

  lemma {:induction false} PartsRoundTrip(fs: seq<FilePart>, boundary: string)
    requires Framable(fs, boundary)
    ensures ParseAll(EncodeAll(fs)) == ExpectedAll(fs)
    decreases |fs|
  {
    if fs != [] {
      PartRoundTrip(fs[0]);
      PartsRoundTrip(fs[1..], boundary);
      var ps := EncodeAll(fs);
      assert ps[0] == EncodePart(fs[0]) && ps[1..] == EncodeAll(fs[1..]);
    }
  }

  lemma BoundaryKeyAt(boundary: string)
    ensures Index(FormContentType(boundary), BoundaryKey) == 21
  {
    var ct := FormContentType(boundary);
    var lead := "multipart/form-data; ";
    assert ct == lead + BoundaryKey + boundary;
    assert 'b' !in lead;
    forall i | 0 <= i < 21 ensures !OccursAt(ct, BoundaryKey, i) {
      assert ct[i] == lead[i];
      assert ct[i] != BoundaryKey[0];
    }
    assert ct[21..30] == BoundaryKey;
    IndexIs(ct, BoundaryKey, 21);
  }

  /** The delimiter the form's Content-Type announces. */
  lemma FormDelimiter(boundary: string)
    ensures Contains(FormContentType(boundary), BoundaryKey)
    ensures Delimiter(FormContentType(boundary)) == "--" + boundary
  {
    var ct := FormContentType(boundary);
    BoundaryKeyAt(boundary);
    assert ct[30..] == boundary;
  }

  /** The parts kept from the body are the files' parts, in order. */
  lemma BodyParts(fs: seq<FilePart>, boundary: string)
    requires PlainBoundary(boundary) && Framable(fs, boundary)
    ensures KeptParts(Split(EncodeBody(fs, boundary), "--" + boundary)) == EncodeAll(fs)
  {
    BodySegments(fs, boundary);
    KeptPartsAppend([""] + FramedAll(fs), ["--\r\n"]);
    KeptPartsAppend([""], FramedAll(fs));
    PreambleAndClosingDropped();
    FramedKept(fs, boundary);
  }

  /** Files written into a body with a one-line boundary, none of them
      holding the delimiter, come back from the request's multipart reader
      as the same files, in order. */
  lemma MultipartRoundTrip(fs: seq<FilePart>, boundary: string)
    requires PlainBoundary(boundary) && Framable(fs, boundary)
    ensures ParseMultipart(EncodeBody(fs, boundary), FormContentType(boundary)) == Some(ExpectedAll(fs))
  {
    FormDelimiter(boundary);
    BodyParts(fs, boundary);
    PartsRoundTrip(fs, boundary);
  }
}
