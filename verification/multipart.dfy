/** The multipart/form-data reader of the request parser: the body is cut
    at every occurrence of "--" + boundary, and each remaining segment is
    read as a header block, a blank line and the file content. */
module Multipart {
  import opened Results
  import opened GoStrings
  import opened Assoc

  /** One uploaded file as the handler records it. */
  datatype Upload = Upload(filename: string, size: int, contentType: string, content: string)

  const DefaultContentType: string := "application/octet-stream"
  const DispositionPrefix: string := "Content-Disposition:"
  const FilenameKey: string := "filename="
  const ContentTypePrefix: string := "content-type:"
  const BoundaryKey: string := "boundary="

  // ---------------------------------------------------------------------
  // Header lines of one part

  /** The file name a (trimmed) header line announces: the line starts with
      "Content-Disposition:" exactly and contains "filename="; the text
      after the first "filename=" loses its quotes and surrounding spaces. */
  function DispositionFilename(line: string): (r: Option<string>)
    ensures r.Some? <==> HasPrefix(line, DispositionPrefix) && Contains(line, FilenameKey)
  {
    if HasPrefix(line, DispositionPrefix) then
      var idx := Index(line, FilenameKey);
      if idx == -1 then None
      else Some(TrimSpace(Trim(line[idx + |FilenameKey|..], "\"")))
    else None
  }

  /** The content type a (trimmed) header line announces: the line starts
      with "content-type:" in any letter case; the value is the rest of
      the line, trimmed. */
  function LineContentType(line: string): (r: Option<string>)
    ensures r.Some? <==> HasPrefix(ToLower(line), ContentTypePrefix)
    ensures r.Some? ==> r.value == TrimSpace(line[|ContentTypePrefix|..])
  {
    if HasPrefix(ToLower(line), ContentTypePrefix) then
      Some(TrimSpace(line[|ContentTypePrefix|..]))
    else None
  }

  /** What the scan of a part's lines has found so far. */
  datatype PartHeaders = PartHeaders(filename: string, contentType: string, contentStart: nat)

  /** The header loop from line i on: a line that is blank after trimming
      ends the scan and puts the content start just after it; every other
      line may overwrite the file name and the content type. Reaching the
      end leaves the content start where it was. */
  function ScanFrom(lines: seq<string>, i: nat, acc: PartHeaders): PartHeaders
    requires i <= |lines|
    decreases |lines| - i
  {
    if i == |lines| then acc
    else
      var line := TrimSpace(lines[i]);
      if line == [] then acc.(contentStart := i + 1)
      else
        var next := PartHeaders(
          DispositionFilename(line).GetOr(acc.filename),
          LineContentType(line).GetOr(acc.contentType),
          acc.contentStart);
        ScanFrom(lines, i + 1, next)
  }

  /** The number of header lines: the position of the first line that is
      blank after trimming, or the number of lines when there is none. */
  function HeaderCount(lines: seq<string>): (k: nat)
    ensures k <= |lines|
    ensures forall i :: 0 <= i < k ==> TrimSpace(lines[i]) != []
    ensures k < |lines| ==> TrimSpace(lines[k]) == []
    decreases |lines|
  {
    if lines == [] || TrimSpace(lines[0]) == [] then 0
    else HeaderCount(lines[1..]) + 1
  }

  /** The header count is the first position of a blank line. */
  lemma {:induction false} HeaderCountIs(lines: seq<string>, k: nat)
    requires k <= |lines|
    requires forall i :: 0 <= i < k ==> TrimSpace(lines[i]) != []
    requires k < |lines| ==> TrimSpace(lines[k]) == []
    ensures HeaderCount(lines) == k
    decreases k
  {
    if k > 0 {
      HeaderCountIs(lines[1..], k - 1);
    }
  }

  /** The file name each header line announces, line by line. */
  function Filenames(hs: seq<string>): (r: seq<Option<string>>)
    ensures |r| == |hs|
    decreases |hs|
  {
    if hs == [] then [] else [DispositionFilename(TrimSpace(hs[0]))] + Filenames(hs[1..])
  }

  /** The content type each header line announces, line by line. */
  function ContentTypes(hs: seq<string>): (r: seq<Option<string>>)
    ensures |r| == |hs|
    decreases |hs|
  {
    if hs == [] then [] else [LineContentType(TrimSpace(hs[0]))] + ContentTypes(hs[1..])
  }

  lemma SliceCons(lines: seq<string>, i: nat, k: nat)
    requires i < k <= |lines|
    ensures lines[i..k][0] == lines[i] && lines[i..k][1..] == lines[i + 1..k]
  {
  }

  /** The scan from a header line i on ends with the last file name and the
      last content type announced by the header lines, and with the
      content start just after the blank line (0 when there is none). */
  lemma {:induction false} ScanFromSpec(lines: seq<string>, i: nat, acc: PartHeaders)
    requires i <= HeaderCount(lines)
    requires acc.contentStart == 0
    ensures var k := HeaderCount(lines);
      ScanFrom(lines, i, acc) == PartHeaders(
        Latest(acc.filename, Filenames(lines[i..k])),
        Latest(acc.contentType, ContentTypes(lines[i..k])),
        if k < |lines| then k + 1 else 0)
    decreases |lines| - i
  {
    var k := HeaderCount(lines);
    if i < k {
      SliceCons(lines, i, k);
      var line := TrimSpace(lines[i]);
      var next := PartHeaders(
        DispositionFilename(line).GetOr(acc.filename),
        LineContentType(line).GetOr(acc.contentType),
        acc.contentStart);
      assert ScanFrom(lines, i, acc) == ScanFrom(lines, i + 1, next);
      ScanFromSpec(lines, i + 1, next);
    }
  }

  /** The header scan of a part: the file name and content type of the
      last header lines announcing them ("" when none does), and where the
      content starts. */
  function ScanLines(lines: seq<string>): (h: PartHeaders)
    ensures var k := HeaderCount(lines);
      && h.filename == LastSome(Filenames(lines[..k])).GetOr("")
      && h.contentType == LastSome(ContentTypes(lines[..k])).GetOr("")
      && h.contentStart == (if k < |lines| then k + 1 else 0)
  {
    var k := HeaderCount(lines);
    ScanFromSpec(lines, 0, PartHeaders("", "", 0));
    assert lines[0..k] == lines[..k];
    LatestIsLastSome("", Filenames(lines[..k]));
    LatestIsLastSome("", ContentTypes(lines[..k]));
    ScanFrom(lines, 0, PartHeaders("", "", 0))
  }

  /** One part, already trimmed of surrounding CR and LF characters: the
      file name and content type its header lines announce, the content
      after the first blank line, and the content's length as its size. */
  function ParsePart(part: string): (u: Upload)
    ensures u.size == |u.content|
    ensures u.contentType != []
  {
    var lines := Split(part, "\n");
    var h := ScanLines(lines);
    var content := Join(lines[h.contentStart..], "\n");
    var contentType := if h.contentType == [] then DefaultContentType else h.contentType;
    Upload(h.filename, |content|, contentType, content)
  }

  /** What a part's upload holds, in terms of its lines: the last file name
      and content type announced before the first blank line, the default
      content type when none (or an empty one) is announced, and as content
      the lines after the blank line joined back with line feeds, or the
      whole part when there is no blank line. */
  lemma ParsePartSpec(part: string)
    ensures var u := ParsePart(part);
      var lines := Split(part, "\n");
      var k := HeaderCount(lines);
      var announced := LastSome(ContentTypes(lines[..k])).GetOr("");
      && u.filename == LastSome(Filenames(lines[..k])).GetOr("")
      && (announced != [] ==> u.contentType == announced)
      && (announced == [] ==> u.contentType == DefaultContentType)
      && (k == |lines| ==> u.content == part)
      && (k < |lines| ==> u.content == Join(lines[k + 1..], "\n"))
  {
    var lines := Split(part, "\n");
    var h := ScanLines(lines);
    assert h.contentStart == 0 ==> lines[h.contentStart..] == lines;
  }

  // ---------------------------------------------------------------------
  // The body

  const CRLF: string := "\r\n"

  /** A segment yields an upload unless trimming CR and LF characters from
      both ends leaves nothing or just the closing "--". */
  predicate Kept(seg: string) {
    var t := Trim(seg, CRLF);
    t != [] && t != "--"
  }

  /** The trimmed segments that yield uploads, in order. */
  function KeptParts(segs: seq<string>): (ps: seq<string>)
    ensures |ps| <= |segs|
    ensures forall j :: 0 <= j < |ps| ==> ps[j] != [] && ps[j] != "--"
    decreases |segs|
  {
    if segs == [] then []
    else
      var rest := KeptParts(segs[1..]);
      if Kept(segs[0]) then [Trim(segs[0], CRLF)] + rest else rest
  }

  /** Each part read into an upload, in order. */
  function ParseAll(ps: seq<string>): (us: seq<Upload>)
    ensures |us| == |ps|
    decreases |ps|
  {
    if ps == [] then [] else [ParsePart(ps[0])] + ParseAll(ps[1..])
  }

  lemma {:induction false} ParseAllAt(ps: seq<string>, j: nat)
    requires j < |ps|
    ensures ParseAll(ps)[j] == ParsePart(ps[j])
    decreases j
  {
    if j > 0 {
      ParseAllAt(ps[1..], j - 1);
    }
  }

  /** The handler's loop over the segments, which skips and reads in one
      pass: it yields exactly the kept segments, each trimmed and read. */
  function ParseSegments(segs: seq<string>): (us: seq<Upload>)
    ensures us == ParseAll(KeptParts(segs))
    decreases |segs|
  {
    if segs == [] then []
    else
      var rest := ParseSegments(segs[1..]);
      if Kept(segs[0]) then
        var t := Trim(segs[0], CRLF);
        assert ([t] + KeptParts(segs[1..]))[1..] == KeptParts(segs[1..]);
        [ParsePart(t)] + rest
      else rest
  }

  /** The delimiter a multipart Content-Type announces: "--" followed by
      everything after the first "boundary=", taken verbatim. */
  function Delimiter(contentType: string): (d: string)
    requires Contains(contentType, BoundaryKey)
    ensures |d| >= 2 && d[..2] == "--"
    ensures d[2..] == contentType[Index(contentType, BoundaryKey) + |BoundaryKey|..]
  {
    "--" + contentType[Index(contentType, BoundaryKey) + |BoundaryKey|..]
  }

  /** parseMultipart: no uploads at all (the request fails) when the
      Content-Type has no "boundary="; otherwise one upload per kept
      segment of the body cut at the delimiter. */
  function ParseMultipart(body: string, contentType: string): (r: Option<seq<Upload>>)
    ensures r.None? <==> !Contains(contentType, BoundaryKey)
    ensures r.Some? ==> r.value == ParseAll(KeptParts(Split(body, Delimiter(contentType))))
  {
    if !Contains(contentType, BoundaryKey) then None
    else Some(ParseSegments(Split(body, Delimiter(contentType))))
  }
}
