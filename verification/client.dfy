/** The client side of the request parser, as its partner: a request
    written with one header per line and a Content-Length that matches the
    body comes back from the parser as the request the client meant. */
module HttpClient {
  import opened Results
  import opened GoStrings
  import opened Assoc
  import opened Multipart
  import opened MultipartForm
  import opened HttpRequest

  // ---------------------------------------------------------------------
  // Header fields

  /** No white space at either end. */
  predicate Trimmed(x: string) {
    x == [] || (!IsSpace(x[0]) && !IsSpace(x[|x| - 1]))
  }

  /** A field the parser gives back as written: a non-empty name without a
      colon, a value on one line, neither with white space at its ends. */
  predicate PlainField(f: (string, string)) {
    && f.0 != [] && Trimmed(f.0) && ':' !in f.0 && '\n' !in f.0
    && Trimmed(f.1) && '\n' !in f.1
  }

  predicate PlainFields(fs: seq<(string, string)>)
    decreases |fs|
  {
    fs == [] || (PlainField(fs[0]) && PlainFields(fs[1..]))
  }

  /** A header line without its line feed. */
  function HeaderLine(f: (string, string)): string {
    f.0 + ": " + f.1 + "\r"
  }

  function HeaderLinesOf(fs: seq<(string, string)>): (ls: seq<string>)
    ensures |ls| == |fs|
    decreases |fs|
  {
    if fs == [] then [] else [HeaderLine(fs[0])] + HeaderLinesOf(fs[1..])
  }

  /** The header block, without the blank line that ends it. */
  function HeaderText(fs: seq<(string, string)>): string {
    LinesText(HeaderLinesOf(fs))
  }

  lemma TrimSpaceKeeps(x: string)
    requires Trimmed(x)
    ensures TrimSpace(x) == x
  {
    if x == [] {
      TrimSpaceEmpty(x);
    } else {
      assert "" + x + "" == x;
      TrimFuncExact("", x, "", IsSpace);
    }
  }

  lemma TrimSpaceLead(x: string)
    requires Trimmed(x)
    ensures TrimSpace(" " + x) == x
  {
    if x == [] {
      TrimSpaceEmpty(" ");
    } else {
      assert " " + x + "" == " " + x;
      TrimFuncExact(" ", x, "", IsSpace);
    }
  }

  /** Stripping a plain field's line leaves "name: value". */
  lemma HeaderLineStripped(f: (string, string))
    requires PlainField(f)
    ensures '\n' !in HeaderLine(f)
    ensures TrimRight(HeaderLine(f), "\r\n") == f.0 + ": " + f.1
  {
    var x := f.0 + ": " + f.1;
    assert HeaderLine(f) == x + ['\r'];
    TrimRightSnoc(x, '\r', InCutset("\r\n"));
    assert x[|x| - 1] == (if f.1 == [] then ' ' else f.1[|f.1| - 1]);
    TrimRightKeep(x, InCutset("\r\n"));
  }

  /** "name: value" holds the field, name and value as written. */
  lemma HeaderFieldOf(f: (string, string))
    requires PlainField(f)
    ensures HeaderField(f.0 + ": " + f.1) == Some(f)
  {
    assert f.0 + ": " + f.1 == f.0 + [':'] + (" " + f.1);
    CutAt(f.0, ':', " " + f.1);
    TrimSpaceKeeps(f.0);
    TrimSpaceLead(f.1);
  }

  /** A plain field's line is a header line and holds the field. */
  lemma HeaderLineRead(f: (string, string))
    requires PlainField(f)
    ensures '\n' !in HeaderLine(f)
    ensures TrimRight(HeaderLine(f), "\r\n") != []
    ensures HeaderField(TrimRight(HeaderLine(f), "\r\n")) == Some(f)
  {
    HeaderLineStripped(f);
    HeaderFieldOf(f);
  }

  lemma {:induction false} HeaderLinesRead(fs: seq<(string, string)>)
    requires PlainFields(fs)
    ensures HeaderLines(HeaderLinesOf(fs))
    ensures FieldsOf(HeaderLinesOf(fs)) == Somes(fs)
    decreases |fs|
  {
    if fs != [] {
      HeaderLineRead(fs[0]);
      HeaderLinesRead(fs[1..]);
      var ls := HeaderLinesOf(fs);
      assert ls[0] == HeaderLine(fs[0]) && ls[1..] == HeaderLinesOf(fs[1..]);
    }
  }

  /** A header block of plain fields, ended by a CR LF line, is read field
      by field, and the text after it is left for the body. */
  lemma ReadHeaderText(fs: seq<(string, string)>, rest: string, st: HeaderState)
    requires PlainFields(fs)
    ensures ReadHeaders(HeaderText(fs) + "\r\n" + rest, st) == Ok((AbsorbAll(st, Somes(fs)), rest))
  {
    HeaderLinesRead(fs);
    TrimRightSnoc("", '\r', InCutset("\r\n"));
    assert "" + ['\r'] == "\r";
    assert HeaderText(fs) + "\r\n" + rest == LinesText(HeaderLinesOf(fs)) + "\r" + "\n" + rest;
    ReadHeaderBlock(HeaderLinesOf(fs), "\r", rest, st);
  }

  lemma {:induction false} AbsorbAllSnoc(st: HeaderState, fs: seq<Option<(string, string)>>, f: Option<(string, string)>)
    ensures AbsorbAll(st, fs + [f]) == Absorb(AbsorbAll(st, fs), f)
    decreases |fs|
  {
    if fs == [] {
      assert fs + [f] == [f];
    } else {
      assert (fs + [f])[0] == fs[0] && (fs + [f])[1..] == fs[1..] + [f];
      AbsorbAllSnoc(Absorb(st, fs[0]), fs[1..], f);
    }
  }

  // ---------------------------------------------------------------------
  // Query strings

  /** A pair the query parser gives back: no '&' anywhere, no '=' in the
      key. */
  predicate PlainPair(kv: (string, string)) {
    '&' !in kv.0 && '=' !in kv.0 && '&' !in kv.1
  }

  predicate PlainPairs(kvs: seq<(string, string)>)
    decreases |kvs|
  {
    kvs == [] || (PlainPair(kvs[0]) && PlainPairs(kvs[1..]))
  }

  function PairTexts(kvs: seq<(string, string)>): (ps: seq<string>)
    ensures |ps| == |kvs|
    decreases |kvs|
  {
    if kvs == [] then [] else [kvs[0].0 + "=" + kvs[0].1] + PairTexts(kvs[1..])
  }

  /** The raw query a client writes: key=value pairs joined by '&'. */
  function EncodeQuery(kvs: seq<(string, string)>): string {
    Join(PairTexts(kvs), "&")
  }

  lemma {:induction false} PairTextsRead(kvs: seq<(string, string)>)
    requires PlainPairs(kvs)
    ensures forall j :: 0 <= j < |kvs| ==> '&' !in PairTexts(kvs)[j]
    ensures CutAll(PairTexts(kvs), '=') == Somes(kvs)
    decreases |kvs|
  {
    if kvs != [] {
      var (k, v) := kvs[0];
      var ps := PairTexts(kvs);
      PairTextsRead(kvs[1..]);
      assert ps[0] == k + ['='] + v;
      assert ps[1..] == PairTexts(kvs[1..]);
      CutAt(k, '=', v);
      forall j | 1 <= j < |kvs| ensures '&' !in ps[j] {
        assert ps[j] == PairTexts(kvs[1..])[j - 1];
      }
    }
  }

  /** Every written pair comes back in order, so the query map keeps the
      value of the last pair with each key. */
  lemma QueryRoundTrip(kvs: seq<(string, string)>)
    requires PlainPairs(kvs) && kvs != []
    ensures QueryPairs(EncodeQuery(kvs)) == Somes(kvs)
    ensures ParseQuery(EncodeQuery(kvs)) == PutAll(map[], Somes(kvs))
  {
    var ps := PairTexts(kvs);
    PairTextsRead(kvs);
    forall j | 0 <= j < |ps| - 1 ensures Delimits(ps[j], "&") {
      DelimitsChar(ps[j], '&');
    }
    NoCharNoIndex(ps[|ps| - 1], '&');
    SplitJoin(ps, "&");
  }

  /** A target with a query: the path before the '?', the pairs after it. */
  lemma TargetRoundTrip(path: string, kvs: seq<(string, string)>)
    requires '?' !in path && PlainPairs(kvs) && kvs != []
    ensures SplitTarget(path + "?" + EncodeQuery(kvs)) == (path, PutAll(map[], Somes(kvs)))
  {
    CutAt(path, '?', EncodeQuery(kvs));
    QueryRoundTrip(kvs);
  }

  // ---------------------------------------------------------------------
  // Whole requests

  const ContentLengthField: string := "Content-Length"
  const ContentTypeField: string := "Content-Type"

  /** The fields a client sends: its own, then the body's length. */
  function SentFields(fs: seq<(string, string)>, body: string): seq<(string, string)> {
    fs + [(ContentLengthField, Itoa(|body|))]
  }

  /** A request as a client writes it. */
  function EncodeRequest(verb: string, target: string, version: string, fs: seq<(string, string)>, body: string): string {
    EncodeRequestLine(verb, target, version) + "\n" + HeaderText(SentFields(fs, body)) + "\r\n" + body
  }

  /** The content type the parser settles on: that of the last field named
      content-type in any letter case, "" when there is none. */
  function ContentTypeOf(fs: seq<(string, string)>): string {
    LastSome(Types(Somes(fs))).GetOr("")
  }

  lemma LengthFieldPlain(n: nat)
    ensures PlainField((ContentLengthField, Itoa(n)))
    ensures ToLower(ContentLengthField) == ContentLengthName
    ensures ToLower(ContentLengthField) != ContentTypeName
  {
    NatToStringPlain(n);
  }

  /** The state after the header block of a written request: the fields by
      name, the body's length, and the client's content type. */
  lemma SentHeaders(fs: seq<(string, string)>, body: string)
    requires PlainFields(fs) && |body| <= MaxInt
    ensures PlainFields(SentFields(fs, body))
    ensures var st := AbsorbAll(NoHeaders, Somes(SentFields(fs, body)));
      && st.headers == PutAll(map[], Somes(SentFields(fs, body)))
      && st.contentLength == |body|
      && st.contentType == ContentTypeOf(fs)
  {
    var cl := (ContentLengthField, Itoa(|body|));
    LengthFieldPlain(|body|);
    AtoiItoa(|body|);
    SentFieldsPlain(fs, body);
    SomesSnoc(fs, cl);
    AbsorbAllSnoc(NoHeaders, Somes(fs), Some(cl));
    AbsorbAllHeaders(NoHeaders, Somes(SentFields(fs, body)));
    AbsorbAllFraming(Somes(fs));
  }

  lemma {:induction false} PlainFieldsSnoc(fs: seq<(string, string)>, f: (string, string))
    requires PlainFields(fs) && PlainField(f)
    ensures PlainFields(fs + [f])
    decreases |fs|
  {
    if fs == [] {
      assert fs + [f] == [f];
    } else {
      assert (fs + [f])[0] == fs[0] && (fs + [f])[1..] == fs[1..] + [f];
      PlainFieldsSnoc(fs[1..], f);
    }
  }

  lemma SentFieldsPlain(fs: seq<(string, string)>, body: string)
    requires PlainFields(fs)
    ensures PlainFields(SentFields(fs, body))
  {
    LengthFieldPlain(|body|);
    PlainFieldsSnoc(fs, (ContentLengthField, Itoa(|body|)));
  }

  lemma RequestLineSingle(verb: string, target: string, version: string)
    requires FieldLike(verb) && FieldLike(target) && FieldLike(version)
    ensures '\n' !in EncodeRequestLine(verb, target, version)
  {
    assert '\n' !in verb && '\n' !in target && '\n' !in version;
  }

  /** The head of a written request: its request line and all its fields. */
  lemma HeadRoundTrip(verb: string, target: string, version: string, fs: seq<(string, string)>, body: string)
    requires FieldLike(verb) && FieldLike(target) && FieldLike(version)
    requires PlainFields(fs) && |body| <= MaxInt
    ensures ParseHead(EncodeRequest(verb, target, version, fs, body)) ==
      Ok((RequestLine(verb, target, version), AbsorbAll(NoHeaders, Somes(SentFields(fs, body))), body))
  {
    var line := EncodeRequestLine(verb, target, version);
    var after := HeaderText(SentFields(fs, body)) + "\r\n" + body;
    var st := AbsorbAll(NoHeaders, Somes(SentFields(fs, body)));
    FirstLineRead(verb, target, version, after);
    SentFieldsPlain(fs, body);
    ReadHeaderText(SentFields(fs, body), body, NoHeaders);
    EncodeRequestSplits(verb, target, version, fs, body);
    ParseHeadStages(line + "\n" + after, line + "\n", after, RequestLine(verb, target, version), st, body);
  }

  lemma EncodeRequestSplits(verb: string, target: string, version: string, fs: seq<(string, string)>, body: string)
    ensures EncodeRequest(verb, target, version, fs, body) ==
      EncodeRequestLine(verb, target, version) + "\n" + (HeaderText(SentFields(fs, body)) + "\r\n" + body)
  {
  }

  /** The request line comes off first and yields its three tokens. */
  lemma FirstLineRead(verb: string, target: string, version: string, after: string)
    requires FieldLike(verb) && FieldLike(target) && FieldLike(version)
    ensures var line := EncodeRequestLine(verb, target, version);
      && ReadLine(line + "\n" + after) == Some((line + "\n", after))
      && ParseRequestLine(line + "\n") == Ok(RequestLine(verb, target, version))
  {
    var line := EncodeRequestLine(verb, target, version);
    RequestLineSingle(verb, target, version);
    ReadLineOf(line, after);
    RequestLineRoundTrip(verb, target, version);
  }

  /** A written request comes back whole: the request line's tokens, the
      path and query of its target, the body its Content-Length frames,
      every field by name with the last one winning, and the uploads its
      content type calls for; a multipart content type without a boundary
      fails the request. */
  lemma RequestRoundTrip(verb: string, target: string, version: string, fs: seq<(string, string)>, body: string)
    requires FieldLike(verb) && FieldLike(target) && FieldLike(version)
    requires PlainFields(fs) && |body| <= MaxInt
    ensures var r := ParseRequest(EncodeRequest(verb, target, version, fs, body));
      var uploads := ReadUploads(body, ContentTypeOf(fs));
      && (uploads.Err? ==> r == Err(MissingBoundary))
      && (uploads.Ok? ==> r == Ok(Request(verb, SplitTarget(target).0, version, SplitTarget(target).1,
                                          body, uploads.value, PutAll(map[], Somes(SentFields(fs, body))))))
  {
    var input := EncodeRequest(verb, target, version, fs, body);
    WrittenHead(verb, target, version, fs, body);
    var (rl, st, rest) := ParseHead(input).value;
    WholeBody(body);
    ParseRequestStages(input, rl, st, rest, body);
  }

  lemma WholeBody(body: string)
    ensures ReadBody(body, |body|) == Ok(body)
  {
    assert body[..|body|] == body;
  }

  /** What the head of a written request tells the rest of the parser. */
  lemma WrittenHead(verb: string, target: string, version: string, fs: seq<(string, string)>, body: string)
    requires FieldLike(verb) && FieldLike(target) && FieldLike(version)
    requires PlainFields(fs) && |body| <= MaxInt
    ensures var h := ParseHead(EncodeRequest(verb, target, version, fs, body));
      && h.Ok?
      && h.value.0 == RequestLine(verb, target, version)
      && h.value.1.headers == PutAll(map[], Somes(SentFields(fs, body)))
      && h.value.1.contentLength == |body|
      && h.value.1.contentType == ContentTypeOf(fs)
      && h.value.2 == body
  {
    HeadRoundTrip(verb, target, version, fs, body);
    SentHeaders(fs, body);
  }

  // ---------------------------------------------------------------------
  // Requests without and with files

  lemma {:induction false} NoTypeKeeps(st: HeaderState, fs: seq<(string, string)>)
    requires forall j :: 0 <= j < |fs| ==> ToLower(fs[j].0) != ContentTypeName
    ensures AbsorbAll(st, Somes(fs)).contentType == st.contentType
    decreases |fs|
  {
    if fs != [] {
      var ss := Somes(fs);
      assert ss[0] == Some(fs[0]) && ss[1..] == Somes(fs[1..]);
      assert ToLower(fs[0].0) != ContentTypeName;
      NoTypeKeeps(Absorb(st, ss[0]), fs[1..]);
    }
  }

  /** A request whose fields name no content type carries no uploads. */
  lemma PlainRequestRoundTrip(verb: string, target: string, version: string, fs: seq<(string, string)>, body: string)
    requires FieldLike(verb) && FieldLike(target) && FieldLike(version)
    requires PlainFields(fs) && |body| <= MaxInt
    requires forall j :: 0 <= j < |fs| ==> ToLower(fs[j].0) != ContentTypeName
    ensures ParseRequest(EncodeRequest(verb, target, version, fs, body)) ==
      Ok(Request(verb, SplitTarget(target).0, version, SplitTarget(target).1,
                 body, [], PutAll(map[], Somes(SentFields(fs, body)))))
  {
    NoTypeKeeps(NoHeaders, fs);
    AbsorbAllFraming(Somes(fs));
    assert ContentTypeOf(fs) == "";
    assert !Contains(ToLower(""), MultipartFormData);
    RequestRoundTrip(verb, target, version, fs, body);
  }

  lemma {:induction false} TypesSnoc(fs: seq<Option<(string, string)>>, f: Option<(string, string)>)
    ensures Types(fs + [f]) == Types(fs) + [TypeOf(f)]
    decreases |fs|
  {
    if fs == [] {
      assert fs + [f] == [f];
    } else {
      assert (fs + [f])[0] == fs[0] && (fs + [f])[1..] == fs[1..] + [f];
      TypesSnoc(fs[1..], f);
    }
  }

  /** The last content type field decides. */
  lemma ContentTypeLast(fs: seq<(string, string)>, value: string)
    ensures ContentTypeOf(fs + [(ContentTypeField, value)]) == value
  {
    var f := (ContentTypeField, value);
    assert ToLower(ContentTypeField) == ContentTypeName;
    SomesSnoc(fs, f);
    TypesSnoc(Somes(fs), Some(f));
    var ts := Types(Somes(fs + [f]));
    assert ts[..|ts| - 1] == Types(Somes(fs));
  }

  /** The form's content type calls for multipart reading. */
  lemma FormContentTypeIsMultipart(boundary: string)
    ensures Contains(ToLower(FormContentType(boundary)), MultipartFormData)
  {
    var low := ToLower(FormContentType(boundary));
    forall i | 0 <= i < |MultipartFormData| ensures low[i] == MultipartFormData[i] {
      assert FormContentType(boundary)[i] == MultipartFormData[i];
    }
    assert OccursAt(low, MultipartFormData, 0) by {
      assert low[0..|MultipartFormData|] == MultipartFormData;
    }
  }

  lemma FormFieldPlain(boundary: string)
    requires PlainBoundary(boundary) && !IsSpace(boundary[|boundary| - 1])
    ensures PlainField((ContentTypeField, FormContentType(boundary)))
  {
    var v := FormContentType(boundary);
    assert v[|v| - 1] == boundary[|boundary| - 1];
  }

  /** Files sent as a multipart form in a request come back from the
      parser as its uploads, in order, next to the body as sent. */
  lemma FormRequestRoundTrip(verb: string, target: string, version: string, fs: seq<(string, string)>,
                             files: seq<FilePart>, boundary: string)
    requires FieldLike(verb) && FieldLike(target) && FieldLike(version)
    requires PlainFields(fs)
    requires PlainBoundary(boundary) && !IsSpace(boundary[|boundary| - 1]) && Framable(files, boundary)
    requires |EncodeBody(files, boundary)| <= MaxInt
    ensures var sent := fs + [(ContentTypeField, FormContentType(boundary))];
      var r := ParseRequest(EncodeRequest(verb, target, version, sent, EncodeBody(files, boundary)));
      r.Ok? && r.value.uploads == ExpectedAll(files) && r.value.body == EncodeBody(files, boundary)
  {
    var sent := fs + [(ContentTypeField, FormContentType(boundary))];
    FormFieldPlain(boundary);
    PlainFieldsSnoc(fs, (ContentTypeField, FormContentType(boundary)));
    ContentTypeLast(fs, FormContentType(boundary));
    FormContentTypeIsMultipart(boundary);
    MultipartRoundTrip(files, boundary);
    RequestRoundTrip(verb, target, version, sent, EncodeBody(files, boundary));
  }
}
