/** The two response writers of the handler, and a response reader built
    from the request parser's header and body framing as their partner. */
module HttpResponse {
  import opened Results
  import opened GoStrings
  import opened Assoc
  import opened HttpRequest
  import opened HttpClient

  /** The reason phrase sendStatus writes: the fixed table, and "Unknown"
      for every other code (401 and 500 among them). */
  function StatusText(status: int): (t: string)
    ensures t != [] && '\r' !in t && '\n' !in t
    ensures t == "Unknown" <==> status !in KnownStatuses
  {
    match status
    case 200 => "OK"
    case 201 => "Created"
    case 204 => "No Content"
    case 400 => "Bad Request"
    case 404 => "Not Found"
    case 405 => "Method Not Allowed"
    case _ => "Unknown"
  }

  const KnownStatuses: set<int> := {200, 201, 204, 400, 404, 405}

  const HttpVersion: string := "HTTP/1.1 "

  /** sendStatus: a status line, an empty body announced by
      Content-Length: 0, and Connection: close. */
  function SendStatus(status: int): string {
    HttpVersion + Itoa(status) + " " + StatusText(status) + "\r\n"
    + "Content-Length: 0\r\n"
    + "Connection: close\r\n"
    + "\r\n"
  }

  const JsonContentType: string := "application/json; charset=utf-8"

  /** sendJSON: the reason phrase is always "OK", whatever the status, and
      Content-Length counts the encoded body. */
  function SendJson(status: int, body: string): string {
    HttpVersion + Itoa(status) + " OK\r\n"
    + "Content-Type: " + JsonContentType + "\r\n"
    + "Content-Length: " + Itoa(|body|) + "\r\n"
    + "\r\n"
    + body
  }

  // ---------------------------------------------------------------------
  // Reading a response

  datatype Response = Response(status: int, reason: string, headers: map<string, string>, body: string)

  /** A response as a client reads it: "HTTP/1.1 ", a decimal status, a
      space and the reason phrase on the first line, then the header block
      and the body it frames, read as the request parser reads them. */
  function ReadResponse(text: string): Option<Response> {
    match ReadLine(text)
    case None => None
    case Some((line, after)) =>
      var statusLine := TrimRight(line, "\r\n");
      if !HasPrefix(statusLine, HttpVersion) then None
      else
        match Cut(statusLine[|HttpVersion|..], ' ')
        case None => None
        case Some((code, reason)) =>
          match Atoi(code)
          case None => None
          case Some(status) =>
            match ReadHeaders(after, NoHeaders)
            case Err(_) => None
            case Ok((st, rest)) =>
              match ReadBody(rest, st.contentLength)
              case Err(_) => None
              case Ok(body) => Some(Response(status, reason, st.headers, body))
  }

  /** A response is read stage by stage. */
  lemma ReadResponseStages(text: string, line: string, after: string, code: string, reason: string,
                           status: int, st: HeaderState, rest: string, body: string)
    requires ReadLine(text) == Some((line, after))
    requires HasPrefix(TrimRight(line, "\r\n"), HttpVersion)
    requires Cut(TrimRight(line, "\r\n")[|HttpVersion|..], ' ') == Some((code, reason))
    requires Atoi(code) == Some(status)
    requires ReadHeaders(after, NoHeaders) == Ok((st, rest))
    requires ReadBody(rest, st.contentLength) == Ok(body)
    ensures ReadResponse(text) == Some(Response(status, reason, st.headers, body))
  {
  }

  /** The status line a writer starts with, without its line feed. */
  function StatusLine(status: int, reason: string): string {
    HttpVersion + Itoa(status) + " " + reason + "\r"
  }

  lemma ItoaPlain(n: int)
    ensures Itoa(n) != [] && ' ' !in Itoa(n) && '\n' !in Itoa(n) && '\r' !in Itoa(n)
  {
    var m := if n < 0 then -n else n;
    NatToStringPlain(m);
    assert Itoa(n) == (if n < 0 then "-" else "") + NatToString(m);
  }

  /** The status line gives back the status and the reason phrase. */
  lemma StatusLineRead(status: int, reason: string, after: string)
    requires MinInt <= status <= MaxInt
    requires reason != [] && '\r' !in reason && '\n' !in reason
    ensures '\n' !in StatusLine(status, reason)
    ensures ReadLine(StatusLine(status, reason) + "\n" + after) == Some((StatusLine(status, reason) + "\n", after))
    ensures var statusLine := TrimRight(StatusLine(status, reason) + "\n", "\r\n");
      && HasPrefix(statusLine, HttpVersion)
      && Cut(statusLine[|HttpVersion|..], ' ') == Some((Itoa(status), reason))
      && Atoi(Itoa(status)) == Some(status)
  {
    var x := HttpVersion + Itoa(status) + " " + reason;
    StatusLineTrimmed(status, reason);
    ReadLineOf(StatusLine(status, reason), after);
    StatusWords(status, reason);
    AtoiItoa(status);
  }

  /** Trimming the line ending off a status line leaves the version, the
      code, a space and the reason. */
  lemma StatusLineTrimmed(status: int, reason: string)
    requires reason != [] && '\r' !in reason && '\n' !in reason
    ensures '\n' !in StatusLine(status, reason)
    ensures TrimRight(StatusLine(status, reason) + "\n", "\r\n") == HttpVersion + Itoa(status) + " " + reason
  {
    var x := HttpVersion + Itoa(status) + " " + reason;
    ItoaPlain(status);
    assert StatusLine(status, reason) == x + ['\r'];
    assert '\n' !in x;
    StripLineFeed(StatusLine(status, reason));
    TrimRightSnoc(x, '\r', InCutset("\r\n"));
    assert x[|x| - 1] == reason[|reason| - 1];
    TrimRightKeep(x, InCutset("\r\n"));
  }

  /** After the version, the code runs to the first space. */
  lemma StatusWords(status: int, reason: string)
    ensures var x := HttpVersion + Itoa(status) + " " + reason;
      && HasPrefix(x, HttpVersion)
      && Cut(x[|HttpVersion|..], ' ') == Some((Itoa(status), reason))
  {
    var code := Itoa(status);
    var x := HttpVersion + code + " " + reason;
    ItoaPlain(status);
    assert x[..|HttpVersion|] == HttpVersion;
    assert x[|HttpVersion|..] == code + [' '] + reason;
    CutAt(code, ' ', reason);
  }

  /** Two header fields, in order. */
  lemma TwoFields(a: (string, string), b: (string, string), st: HeaderState)
    requires PlainField(a) && PlainField(b)
    ensures PlainFields([a, b])
    ensures HeaderText([a, b]) == HeaderLine(a) + "\n" + HeaderLine(b) + "\n"
    ensures AbsorbAll(st, Somes([a, b])) == Absorb(Absorb(st, Some(a)), Some(b))
  {
    var fs: seq<(string, string)> := [a, b];
    assert fs[1..] == [b] && fs[1..][1..] == [];
    assert PlainFields(fs[1..]);
    assert Somes(fs) == [Some(a)] + Somes([b]);
    assert Somes([b]) == [Some(b)] + Somes(fs[1..][1..]);
    var ss: seq<Option<(string, string)>> := Somes(fs);
    assert ss[1..] == [Some(b)] && |ss[1..][1..]| == 0;
    assert HeaderLinesOf(fs) == [HeaderLine(a)] + HeaderLinesOf([b]);
    assert HeaderLinesOf([b]) == [HeaderLine(b)] + HeaderLinesOf(fs[1..][1..]);
    var ls := HeaderLinesOf(fs);
    assert ls[1..] == [HeaderLine(b)] && |ls[1..][1..]| == 0;
    assert LinesText(ls[1..]) == HeaderLine(b) + "\n" + LinesText(ls[1..][1..]);
    assert LinesText(ls) == HeaderLine(a) + "\n" + LinesText(ls[1..]);
    assert AbsorbAll(st, ss) == AbsorbAll(Absorb(st, Some(a)), ss[1..]);
    assert AbsorbAll(Absorb(st, Some(a)), ss[1..]) == AbsorbAll(Absorb(Absorb(st, Some(a)), Some(b)), ss[1..][1..]);
  }

  lemma Regroup(v: string, w: string, x: string, y: string, z: string)
    ensures v + w + x + y + z == (v + w) + ((x + y) + z)
  {
  }

  /** Reading a written response: its status line, then a header block
      of two fields and the body they frame. */
  lemma ResponseRead(status: int, reason: string, a: (string, string), b: (string, string), body: string)
    requires MinInt <= status <= MaxInt
    requires reason != [] && '\r' !in reason && '\n' !in reason
    requires PlainField(a) && PlainField(b)
    requires var st := AbsorbAll(NoHeaders, Somes([a, b]));
      st.contentLength == |body|
    ensures ReadResponse(StatusLine(status, reason) + "\n" + HeaderText([a, b]) + "\r\n" + body) ==
      Some(Response(status, reason, AbsorbAll(NoHeaders, Somes([a, b])).headers, body))
  {
    var line := StatusLine(status, reason) + "\n";
    var after := HeaderText([a, b]) + "\r\n" + body;
    StatusLineRead(status, reason, after);
    var st := AbsorbAll(NoHeaders, Somes([a, b]));
    TwoFieldsRead(a, b, body);
    Regroup(StatusLine(status, reason), "\n", HeaderText([a, b]), "\r\n", body);
    ReadResponseStages(line + after, line, after, Itoa(status), reason, status, st, body, body);
  }

  /** The header block of two fields framing exactly the body that
      follows it. */
  lemma TwoFieldsRead(a: (string, string), b: (string, string), body: string)
    requires PlainField(a) && PlainField(b)
    requires AbsorbAll(NoHeaders, Somes([a, b])).contentLength == |body|
    ensures var st := AbsorbAll(NoHeaders, Somes([a, b]));
      && ReadHeaders(HeaderText([a, b]) + "\r\n" + body, NoHeaders) == Ok((st, body))
      && ReadBody(body, st.contentLength) == Ok(body)
  {
    TwoFields(a, b, NoHeaders);
    ReadHeaderText([a, b], body, NoHeaders);
    assert body[..|body|] == body;
  }

  lemma LengthZero()
    ensures Atoi("0") == Some(0)
  {
    AtoiItoa(0);
    assert Itoa(0) == "0";
  }

  lemma SendStatusText(status: int)
    ensures SendStatus(status) ==
      StatusLine(status, StatusText(status)) + "\n" + HeaderText(StatusFields) + "\r\n" + ""
  {
    var c := Itoa(status);
    var t := StatusText(status);
    StatusLineText(status, t);
    StatusHeaderText();
    Shape(HttpVersion + c, " ", t, "\r\n", "Content-Length: 0\r\n", "Connection: close\r\n", "\r\n");
  }

  /** Regrouping the seven pieces of a bare response. */
  lemma Shape(p: string, s: string, t: string, r: string, h1: string, h2: string, e: string)
    ensures p + s + t + r + h1 + h2 + e == p + (s + t + r) + (h1 + h2) + e + ""
  {
    assert p + s + t + r == p + (s + t + r);
    assert p + (s + t + r) + h1 + h2 == p + (s + t + r) + (h1 + h2);
  }

  lemma StatusHeaderText()
    ensures HeaderText(StatusFields) == "Content-Length: 0\r\n" + "Connection: close\r\n"
  {
    var a := ("Content-Length", "0");
    var b := ("Connection", "close");
    assert PlainField(a) && PlainField(b);
    TwoFields(a, b, NoHeaders);
    HeaderLineText(a.0, a.1);
    HeaderLineText(b.0, b.1);
    assert "Content-Length" + ": " + "0" + "\r\n" == "Content-Length: 0\r\n";
    assert "Connection" + ": " + "close" + "\r\n" == "Connection: close\r\n";
  }

  lemma Concat5(x: string, y: string, z: string, u: string, v: string)
    ensures x + y + z + u + v == (x + y) + z + (u + v)
  {
  }

  /** A written header line with its line feed, as the format strings
      spell it. */
  lemma HeaderLineText(name: string, value: string)
    ensures HeaderLine((name, value)) + "\n" == (name + ": ") + value + "\r\n"
  {
    assert "\r" + "\n" == "\r\n";
    Concat5(name, ": ", value, "\r", "\n");
  }

  lemma StatusLineText(status: int, reason: string)
    ensures StatusLine(status, reason) + "\n" == HttpVersion + Itoa(status) + (" " + reason + "\r\n")
  {
    assert "\r" + "\n" == "\r\n";
    assert StatusLine(status, reason) + "\n" == (HttpVersion + Itoa(status)) + " " + reason + "\r" + "\n";
  }

  lemma JsonStatusLine(status: int)
    ensures StatusLine(status, "OK") + "\n" == HttpVersion + Itoa(status) + " OK\r\n"
  {
    StatusLineText(status, "OK");
    assert " " + "OK" + "\r\n" == " OK\r\n";
  }

  lemma JsonHeaderText(body: string)
    requires |body| <= MaxInt
    ensures HeaderText(JsonFields(body)) ==
      ("Content-Type: " + JsonContentType + "\r\n") + ("Content-Length: " + Itoa(|body|) + "\r\n")
  {
    var a := ("Content-Type", JsonContentType);
    var b := ("Content-Length", Itoa(|body|));
    assert PlainField(a);
    LengthFieldPlain(|body|);
    TwoFields(a, b, NoHeaders);
    HeaderLineText(a.0, a.1);
    HeaderLineText(b.0, b.1);
    assert "Content-Type" + ": " == "Content-Type: ";
    assert "Content-Length" + ": " == "Content-Length: ";
  }

  lemma SendJsonText(status: int, body: string)
    requires |body| <= MaxInt
    ensures SendJson(status, body) ==
      StatusLine(status, "OK") + "\n" + HeaderText(JsonFields(body)) + "\r\n" + body
  {
    JsonStatusLine(status);
    JsonHeaderText(body);
    JsonShape(HttpVersion + Itoa(status), " OK\r\n", "Content-Type: ", JsonContentType, "\r\n",
              "Content-Length: ", Itoa(|body|), "\r\n", "\r\n", body);
  }

  /** Regrouping the pieces of a JSON response. */
  lemma JsonShape(p: string, s: string, n1: string, v1: string, e1: string,
                  n2: string, v2: string, e2: string, e: string, body: string)
    ensures p + s + n1 + v1 + e1 + n2 + v2 + e2 + e + body ==
      (p + s) + ((n1 + v1 + e1) + (n2 + v2 + e2)) + e + body
  {
    assert p + s + n1 + v1 + e1 == (p + s) + (n1 + v1 + e1);
    assert (p + s) + (n1 + v1 + e1) + n2 + v2 + e2 == (p + s) + ((n1 + v1 + e1) + (n2 + v2 + e2));
  }

  const StatusFields: seq<(string, string)> := [("Content-Length", "0"), ("Connection", "close")]

  function JsonFields(body: string): seq<(string, string)> {
    [("Content-Type", JsonContentType), ("Content-Length", Itoa(|body|))]
  }

  /** sendStatus's response reads back as the status, its phrase from the
      table, an empty body announced by Content-Length: 0, and
      Connection: close. */
  lemma SendStatusRead(status: int)
    requires MinInt <= status <= MaxInt
    ensures ReadResponse(SendStatus(status)) ==
      Some(Response(status, StatusText(status), map["Content-Length" := "0", "Connection" := "close"], ""))
  {
    var a := ("Content-Length", "0");
    var b := ("Connection", "close");
    assert PlainField(a) && PlainField(b);
    TwoFields(a, b, NoHeaders);
    LengthFieldPlain(0);
    LengthZero();
    assert |ToLower(b.0)| != |ContentLengthName|;
    SendStatusText(status);
    ResponseRead(status, StatusText(status), a, b, "");
  }

  /** sendJSON's response reads back as the status, the phrase "OK" for
      every status, the JSON content type, and exactly the body, framed by
      its length. */
  lemma SendJsonRead(status: int, body: string)
    requires MinInt <= status <= MaxInt && |body| <= MaxInt
    ensures ReadResponse(SendJson(status, body)) ==
      Some(Response(status, "OK", map["Content-Type" := JsonContentType, "Content-Length" := Itoa(|body|)], body))
  {
    var a := ("Content-Type", JsonContentType);
    var b := ("Content-Length", Itoa(|body|));
    assert PlainField(a);
    LengthFieldPlain(|body|);
    AtoiItoa(|body|);
    TwoFields(a, b, NoHeaders);
    assert |ToLower(a.0)| != |ContentLengthName|;
    SendJsonText(status, body);
    ResponseRead(status, "OK", a, b, body);
  }
}
