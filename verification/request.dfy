/** The request parser of the handler: the request line, the header block,
    a body framed by Content-Length, the multipart uploads and the query
    string, read from the whole input of a connection. Running out of input
    where a line feed is awaited is an error, as is a body shorter than its
    announced length. */
module HttpRequest {
  import opened Results
  import opened GoStrings
  import opened Assoc
  import opened Multipart

  /** Why a request cannot be parsed; the dispatcher answers every one of
      them with 400. */
  datatype ParseError =
    | RequestLineUnterminated
    | InvalidRequestLine
    | HeaderUnterminated
    | BodyTruncated
    | MissingBoundary

  datatype Request = Request(
    verb: string,
    path: string,
    version: string,
    query: map<string, string>,
    body: string,
    uploads: seq<Upload>,
    headers: map<string, string>)

  const ContentLengthName: string := "content-length"
  const ContentTypeName: string := "content-type"
  const MultipartFormData: string := "multipart/form-data"

  // ---------------------------------------------------------------------
  // Lines

  /** bufio.Reader.ReadString('\n'): the text up to and including the first
      line feed, and what follows it; None when there is no line feed. */
  function ReadLine(input: string): (r: Option<(string, string)>)
    ensures r.None? <==> '\n' !in input
    ensures r.Some? ==> var (line, rest) := r.value;
      && input == line + rest
      && |line| >= 1 && line[|line| - 1] == '\n'
      && '\n' !in line[..|line| - 1]
  {
    match Cut(input, '\n')
    case None => None
    case Some((before, after)) =>
      assert (before + "\n")[..|before|] == before;
      Some((before + "\n", after))
  }

  lemma ReadLineOf(text: string, rest: string)
    requires '\n' !in text
    ensures ReadLine(text + "\n" + rest) == Some((text + "\n", rest))
  {
    CutAt(text, '\n', rest);
  }

  /** The lines, each followed by a line feed. */
  function LinesText(ls: seq<string>): string
    decreases |ls|
  {
    if ls == [] then [] else ls[0] + "\n" + LinesText(ls[1..])
  }

  // ---------------------------------------------------------------------
  // The request line

  datatype RequestLine = RequestLine(verb: string, target: string, version: string)

  /** The request line: at least three white-space separated tokens, of
      which the first three are the verb, the target and the version. */
  function ParseRequestLine(line: string): (r: Result<RequestLine, ParseError>)
    ensures r.Err? <==> |Fields(line)| < 3
    ensures r.Err? ==> r.error == InvalidRequestLine
    ensures r.Ok? ==> r.value == RequestLine(Fields(line)[0], Fields(line)[1], Fields(line)[2])
  {
    FieldsOfTrimSpace(line);
    var parts := Fields(TrimSpace(line));
    if |parts| < 3 then Err(InvalidRequestLine)
    else Ok(RequestLine(parts[0], parts[1], parts[2]))
  }

  /** The request line a client writes, without its line feed. */
  function EncodeRequestLine(verb: string, target: string, version: string): string {
    verb + " " + target + " " + version + "\r"
  }

  lemma RequestLineFields(verb: string, target: string, version: string)
    requires FieldLike(verb) && FieldLike(target) && FieldLike(version)
    ensures Fields(EncodeRequestLine(verb, target, version) + "\n") == [verb, target, version]
  {
    var ws := [verb, target, version];
    var last := [version];
    var pair := [target, version];
    assert last[1..] == [] && pair[1..] == last && ws[1..] == pair;
    assert Words(last);
    assert Words(pair);
    assert ws[0] == verb && Words(ws[1..]);
    assert Words(ws);
    assert Join(pair, " ") == target + " " + version;
    assert Join(ws, " ") + "\r\n" == EncodeRequestLine(verb, target, version) + "\n";
    assert AllSpace("\r\n");
    FieldsOfJoin(ws, "\r\n");
  }

  /** Tokens without white space come back from the written request line. */
  lemma RequestLineRoundTrip(verb: string, target: string, version: string)
    requires FieldLike(verb) && FieldLike(target) && FieldLike(version)
    ensures ParseRequestLine(EncodeRequestLine(verb, target, version) + "\n") == Ok(RequestLine(verb, target, version))
  {
    RequestLineFields(verb, target, version);
  }

  // ---------------------------------------------------------------------
  // The header block

  /** What the header loop keeps: the headers by exact name, the last valid
      Content-Length and the last Content-Type. */
  datatype HeaderState = HeaderState(headers: map<string, string>, contentLength: int, contentType: string)

  const NoHeaders := HeaderState(map[], 0, "")

  /** A header line split at its first colon, name and value trimmed; a
      line without a colon holds no field. */
  function HeaderField(hline: string): (r: Option<(string, string)>)
    ensures r.None? <==> ':' !in hline
  {
    match Cut(hline, ':')
    case None => None
    case Some((name, value)) => Some((TrimSpace(name), TrimSpace(value)))
  }

  /** Only the first colon separates: the value keeps any later colons. */
  lemma HeaderFieldSplit(name: string, value: string)
    requires ':' !in name
    ensures HeaderField(name + ":" + value) == Some((TrimSpace(name), TrimSpace(value)))
  {
    assert name + ":" + value == name + [':'] + value;
    CutAt(name, ':', value);
  }

  /** The Content-Length a field sets: its value when the name is
      content-length in any letter case and the value is an integer. */
  function LengthOf(f: Option<(string, string)>): Option<int> {
    if f.Some? && ToLower(f.value.0) == ContentLengthName then Atoi(f.value.1) else None
  }

  /** The Content-Type a field sets: its value when the name is
      content-type in any letter case. */
  function TypeOf(f: Option<(string, string)>): Option<string> {
    if f.Some? && ToLower(f.value.0) == ContentTypeName then Some(f.value.1) else None
  }

  /** One field taken into the state. */
  function Absorb(st: HeaderState, f: Option<(string, string)>): (r: HeaderState)
    ensures r.headers == Put(st.headers, f)
    ensures r.contentLength == LengthOf(f).GetOr(st.contentLength)
    ensures r.contentType == TypeOf(f).GetOr(st.contentType)
  {
    match f
    case None => st
    case Some((name, value)) =>
      var lower := ToLower(name);
      var length := if lower == ContentLengthName && Atoi(value).Some? then Atoi(value).value else st.contentLength;
      var contentType := if lower == ContentTypeName then value else st.contentType;
      HeaderState(st.headers[name := value], length, contentType)
  }

  /** The fields taken in order. */
  function AbsorbAll(st: HeaderState, fs: seq<Option<(string, string)>>): HeaderState
    decreases |fs|
  {
    if fs == [] then st else AbsorbAll(Absorb(st, fs[0]), fs[1..])
  }

  /** The header loop: reads lines until one is empty once trailing CR and
      LF characters are stripped, taking the field of every other line; no
      line feed before that blank line is an error. */
  function ReadHeaders(input: string, st: HeaderState): (r: Result<(HeaderState, string), ParseError>)
    ensures '\n' !in input ==> r.Err?
    ensures r.Err? ==> r.error == HeaderUnterminated
    ensures r.Ok? ==> |r.value.1| < |input|
    decreases |input|
  {
    match ReadLine(input)
    case None => Err(HeaderUnterminated)
    case Some((raw, rest)) =>
      var hline := TrimRight(raw, "\r\n");
      if hline == [] then Ok((st, rest))
      else ReadHeaders(rest, Absorb(st, HeaderField(hline)))
  }

  /** Raw header lines: no line feed inside, and not blank once trailing CR
      and LF characters are stripped. */
  predicate HeaderLines(ls: seq<string>)
    decreases |ls|
  {
    ls == [] || ('\n' !in ls[0] && TrimRight(ls[0], "\r\n") != [] && HeaderLines(ls[1..]))
  }

  /** The field each raw header line holds. */
  function FieldsOf(ls: seq<string>): (fs: seq<Option<(string, string)>>)
    ensures |fs| == |ls|
    decreases |ls|
  {
    if ls == [] then [] else [HeaderField(TrimRight(ls[0], "\r\n"))] + FieldsOf(ls[1..])
  }

  /** A line feed at the end does not change what the line holds. */
  lemma StripLineFeed(text: string)
    ensures TrimRight(text + "\n", "\r\n") == TrimRight(text, "\r\n")
  {
    TrimRightSnoc(text, '\n', InCutset("\r\n"));
  }

  /** The header loop over a block of header lines and a blank line takes
      the field of every line, in order, and stops right after the blank
      line. */
  lemma {:induction false} ReadHeaderBlock(ls: seq<string>, blank: string, rest: string, st: HeaderState)
    requires HeaderLines(ls)
    requires '\n' !in blank && TrimRight(blank, "\r\n") == []
    ensures ReadHeaders(LinesText(ls) + blank + "\n" + rest, st) == Ok((AbsorbAll(st, FieldsOf(ls)), rest))
    decreases |ls|
  {
    var tail := blank + "\n" + rest;
    if ls == [] {
      assert LinesText(ls) + blank + "\n" + rest == blank + "\n" + rest;
      ReadLineOf(blank, rest);
      StripLineFeed(blank);
    } else {
      var input := LinesText(ls) + blank + "\n" + rest;
      var after := LinesText(ls[1..]) + blank + "\n" + rest;
      assert input == ls[0] + "\n" + after;
      ReadLineOf(ls[0], after);
      StripLineFeed(ls[0]);
      ReadHeaderBlock(ls[1..], blank, rest, Absorb(st, HeaderField(TrimRight(ls[0], "\r\n"))));
    }
  }

  /** The header loop over header lines that are never followed by a blank
      line runs out of input: whatever lines were complete, the block is
      unterminated. */
  lemma {:induction false} NoBlankLineFails(ls: seq<string>, tail: string, st: HeaderState)
    requires HeaderLines(ls) && '\n' !in tail
    ensures ReadHeaders(LinesText(ls) + tail, st) == Err(HeaderUnterminated)
    decreases |ls|
  {
    if ls == [] {
      assert LinesText(ls) + tail == tail;
    } else {
      var after := LinesText(ls[1..]) + tail;
      assert LinesText(ls) + tail == ls[0] + "\n" + after;
      ReadLineOf(ls[0], after);
      StripLineFeed(ls[0]);
      NoBlankLineFails(ls[1..], tail, Absorb(st, HeaderField(TrimRight(ls[0], "\r\n"))));
    }
  }

  /** Headers by exact name: the value of the last field with that name,
      or the value held before when no field has it. */
  lemma {:induction false} AbsorbAllHeaders(st: HeaderState, fs: seq<Option<(string, string)>>)
    ensures AbsorbAll(st, fs).headers == PutAll(st.headers, fs)
    decreases |fs|
  {
    if fs != [] {
      AbsorbAllHeaders(Absorb(st, fs[0]), fs[1..]);
    }
  }

  function Lengths(fs: seq<Option<(string, string)>>): (r: seq<Option<int>>)
    ensures |r| == |fs|
    decreases |fs|
  {
    if fs == [] then [] else [LengthOf(fs[0])] + Lengths(fs[1..])
  }

  function Types(fs: seq<Option<(string, string)>>): (r: seq<Option<string>>)
    ensures |r| == |fs|
    decreases |fs|
  {
    if fs == [] then [] else [TypeOf(fs[0])] + Types(fs[1..])
  }

  lemma {:induction false} AbsorbAllLatest(st: HeaderState, fs: seq<Option<(string, string)>>)
    ensures AbsorbAll(st, fs).contentLength == Latest(st.contentLength, Lengths(fs))
    ensures AbsorbAll(st, fs).contentType == Latest(st.contentType, Types(fs))
    decreases |fs|
  {
    if fs != [] {
      AbsorbAllLatest(Absorb(st, fs[0]), fs[1..]);
    }
  }

  /** The framing fields: the body length is the last Content-Length (any
      letter case) whose value is an integer, 0 when there is none; the
      content type is the value of the last Content-Type, "" when none. */
  lemma AbsorbAllFraming(fs: seq<Option<(string, string)>>)
    ensures AbsorbAll(NoHeaders, fs).contentLength == LastSome(Lengths(fs)).GetOr(0)
    ensures AbsorbAll(NoHeaders, fs).contentType == LastSome(Types(fs)).GetOr("")
  {
    AbsorbAllLatest(NoHeaders, fs);
    LatestIsLastSome(0, Lengths(fs));
    LatestIsLastSome("", Types(fs));
  }

  // ---------------------------------------------------------------------
  // The body

  /** Content-Length framing: a positive length takes exactly that many
      characters and fails when fewer are left; otherwise the body is
      empty. What follows the body is not read. */
  function ReadBody(rest: string, length: int): (r: Result<string, ParseError>)
    ensures r.Err? <==> 0 < length && |rest| < length
    ensures r.Err? ==> r.error == BodyTruncated
    ensures r.Ok? ==> |r.value| == (if length > 0 then length else 0) && r.value <= rest
  {
    if length > 0 then
      if |rest| < length then Err(BodyTruncated) else Ok(rest[..length])
    else Ok([])
  }

  // ---------------------------------------------------------------------
  // Uploads

  /** A body is read as a multipart form when the content type, in lower
      case, mentions multipart/form-data; a form without a boundary fails
      the request. */
  function ReadUploads(body: string, contentType: string): (r: Result<seq<Upload>, ParseError>)
    ensures r.Err? <==> Contains(ToLower(contentType), MultipartFormData) && !Contains(contentType, BoundaryKey)
    ensures r.Err? ==> r.error == MissingBoundary
    ensures !Contains(ToLower(contentType), MultipartFormData) ==> r == Ok([])
    ensures r.Ok? && Contains(ToLower(contentType), MultipartFormData) ==>
      Some(r.value) == ParseMultipart(body, contentType)
  {
    if Contains(ToLower(contentType), MultipartFormData) then
      match ParseMultipart(body, contentType)
      case None => Err(MissingBoundary)
      case Some(uploads) => Ok(uploads)
    else Ok([])
  }

  // ---------------------------------------------------------------------
  // The query string

  /** Each piece cut at its first c; None for a piece without c. */
  function CutAll(pieces: seq<string>, c: char): (r: seq<Option<(string, string)>>)
    ensures |r| == |pieces|
    decreases |pieces|
  {
    if pieces == [] then [] else [Cut(pieces[0], c)] + CutAll(pieces[1..], c)
  }

  /** The key/value pairs of a raw query: the '&'-separated pieces, each cut
      at its first '='. No percent-decoding. */
  function QueryPairs(raw: string): seq<Option<(string, string)>> {
    CutAll(Split(raw, "&"), '=')
  }

  /** The query map: pairs assigned in order. */
  function ParseQuery(raw: string): map<string, string> {
    PutAll(map[], QueryPairs(raw))
  }

  /** A duplicate key keeps its last value; a key only in pieces without '='
      (or in none) is absent. */
  lemma QueryLastWins(raw: string, k: string)
    ensures k in ParseQuery(raw) <==> LastFor(QueryPairs(raw), k).Some?
    ensures k in ParseQuery(raw) ==> ParseQuery(raw)[k] == LastFor(QueryPairs(raw), k).value
  {
    PutAllLastWins(map[], QueryPairs(raw), k);
  }

  /** The target split at its first '?' into the path and the query map; a
      target without '?' is all path. */
  function SplitTarget(target: string): (r: (string, map<string, string>))
    ensures '?' !in r.0
    ensures '?' !in target ==> r == (target, map[])
    ensures '?' in target ==> exists raw :: target == r.0 + "?" + raw && r.1 == ParseQuery(raw)
  {
    match Cut(target, '?')
    case None => (target, map[])
    case Some((path, raw)) => (path, ParseQuery(raw))
  }

  // ---------------------------------------------------------------------
  // The whole request

  /** The request line, the header block and the text after it. */
  function ParseHead(input: string): (r: Result<(RequestLine, HeaderState, string), ParseError>)
    ensures r.Ok? ==> |r.value.2| < |input|
  {
    match ReadLine(input)
    case None => Err(RequestLineUnterminated)
    case Some((line, afterLine)) =>
      match ParseRequestLine(line)
      case Err(e) => Err(e)
      case Ok(rl) =>
        match ReadHeaders(afterLine, NoHeaders)
        case Err(e) => Err(e)
        case Ok((st, rest)) => Ok((rl, st, rest))
  }

  /** parseRequest: the head, then the body, then the uploads, then the
      query split off the path. */
  function ParseRequest(input: string): (r: Result<Request, ParseError>)
    ensures r == Err(RequestLineUnterminated) <==> '\n' !in input
    ensures r.Ok? ==> '?' !in r.value.path
  {
    match ParseHead(input)
    case Err(e) => Err(e)
    case Ok((rl, st, rest)) =>
      match ReadBody(rest, st.contentLength)
      case Err(e) => Err(e)
      case Ok(body) =>
        match ReadUploads(body, st.contentType)
        case Err(e) => Err(e)
        case Ok(uploads) =>
          var (path, query) := SplitTarget(rl.target);
          Ok(Request(rl.verb, path, rl.version, query, body, uploads, st.headers))
  }

  // ---------------------------------------------------------------------
  // What a parse promises

  /** The request line: fewer than three tokens fail the parse; otherwise
      the method and version are the first and third tokens, and the path
      and query come from the second; further tokens are ignored. */
  lemma RequestLineTokens(input: string)
    requires '\n' in input
    ensures var toks := Fields(ReadLine(input).value.0);
      && (|toks| < 3 ==> ParseRequest(input) == Err(InvalidRequestLine))
      && (ParseRequest(input).Ok? ==>
            && |toks| >= 3
            && ParseRequest(input).value.verb == toks[0]
            && ParseRequest(input).value.version == toks[2]
            && (ParseRequest(input).value.path, ParseRequest(input).value.query) == SplitTarget(toks[1]))
  {
    var line := ReadLine(input).value.0;
    if |Fields(line)| < 3 {
      assert ParseRequestLine(line) == Err(InvalidRequestLine);
      assert ParseHead(input) == Err(InvalidRequestLine);
    }
    if ParseRequest(input).Ok? {
      ParsedHead(input);
      ParsedRequest(input);
    }
  }

  /** A head is read stage by stage. */
  lemma ParseHeadStages(input: string, line: string, after: string, rl: RequestLine, st: HeaderState, rest: string)
    requires ReadLine(input) == Some((line, after))
    requires ParseRequestLine(line) == Ok(rl)
    requires ReadHeaders(after, NoHeaders) == Ok((st, rest))
    ensures ParseHead(input) == Ok((rl, st, rest))
  {
  }

  /** After the head, the body and then the uploads; a failing upload
      read fails the request. */
  lemma ParseRequestStages(input: string, rl: RequestLine, st: HeaderState, rest: string, body: string)
    requires ParseHead(input) == Ok((rl, st, rest))
    requires ReadBody(rest, st.contentLength) == Ok(body)
    ensures ReadUploads(body, st.contentType).Err? ==> ParseRequest(input) == Err(ReadUploads(body, st.contentType).error)
    ensures ReadUploads(body, st.contentType).Ok? ==>
      ParseRequest(input) == Ok(Request(rl.verb, SplitTarget(rl.target).0, rl.version, SplitTarget(rl.target).1,
                                        body, ReadUploads(body, st.contentType).value, st.headers))
  {
  }

  /** A head that parses has a request line of at least three tokens. */
  lemma ParsedHead(input: string)
    requires ParseHead(input).Ok?
    ensures ReadLine(input).Some?
    ensures ParseRequestLine(ReadLine(input).value.0) == Ok(ParseHead(input).value.0)
    ensures ReadHeaders(ReadLine(input).value.1, NoHeaders) == Ok((ParseHead(input).value.1, ParseHead(input).value.2))
  {
  }

  /** A request that parses is assembled from its head, its body and its
      uploads. */
  lemma ParsedRequest(input: string)
    requires ParseRequest(input).Ok?
    ensures ParseHead(input).Ok?
    ensures var (rl, st, rest) := ParseHead(input).value;
      && ReadBody(rest, st.contentLength).Ok?
      && ReadUploads(ReadBody(rest, st.contentLength).value, st.contentType).Ok?
      && ParseRequest(input).value == Request(rl.verb, SplitTarget(rl.target).0, rl.version, SplitTarget(rl.target).1,
                                              ReadBody(rest, st.contentLength).value,
                                              ReadUploads(ReadBody(rest, st.contentLength).value, st.contentType).value,
                                              st.headers)
  {
  }

  /** A header block without its blank line fails the parse, however many
      complete header lines come before the input ends. */
  lemma HeadersUnterminated(input: string, ls: seq<string>, tail: string)
    requires '\n' in input
    requires |Fields(ReadLine(input).value.0)| >= 3
    requires HeaderLines(ls) && '\n' !in tail
    requires ReadLine(input).value.1 == LinesText(ls) + tail
    ensures ParseRequest(input) == Err(HeaderUnterminated)
  {
    NoBlankLineFails(ls, tail, NoHeaders);
    HeadFails(input);
  }

  /** A failing header loop fails the head and so the request. */
  lemma HeadFails(input: string)
    requires '\n' in input
    requires ParseRequestLine(ReadLine(input).value.0).Ok?
    requires ReadHeaders(ReadLine(input).value.1, NoHeaders) == Err(HeaderUnterminated)
    ensures ParseRequest(input) == Err(HeaderUnterminated)
  {
    assert ParseHead(input) == Err(HeaderUnterminated);
  }

  /** Body framing after the head: a positive Content-Length with fewer
      characters left fails the parse and never yields a short body; a
      parsed body is exactly the announced number of characters following
      the head, or empty when the length is not positive. The headers are
      those of the header block. */
  lemma BodyFraming(input: string)
    requires ParseHead(input).Ok?
    ensures var (_, st, rest) := ParseHead(input).value;
      && (0 < st.contentLength && |rest| < st.contentLength ==> ParseRequest(input) == Err(BodyTruncated))
      && (ParseRequest(input).Ok? ==>
            && ParseRequest(input).value.body == (if st.contentLength > 0 then rest[..st.contentLength] else [])
            && ParseRequest(input).value.headers == st.headers)
  {
  }

  /** Uploads follow the last Content-Type: a form without "boundary=" fails
      the parse; any other content type yields no uploads. */
  lemma UploadsFollowContentType(input: string)
    requires ParseHead(input).Ok?
    ensures var (_, st, _) := ParseHead(input).value;
      var r := ParseRequest(input);
      && (r.Ok? && !Contains(ToLower(st.contentType), MultipartFormData) ==> r.value.uploads == [])
      && (r.Ok? && Contains(ToLower(st.contentType), MultipartFormData) ==>
            Some(r.value.uploads) == ParseMultipart(r.value.body, st.contentType))
      && (ReadBody(ParseHead(input).value.2, st.contentLength).Ok?
          && Contains(ToLower(st.contentType), MultipartFormData) && !Contains(st.contentType, BoundaryKey)
          ==> r == Err(MissingBoundary))
  {
  }
}
