/**
 * The HTTP/1.1 request printer, keep-alive concatenation, and a reader that follows section 6.3 of
 * RFC 9112 to find where each message ends.
 */
module Http1 {
  import opened Common
  import opened Text

  datatype HttpMethod = GET | POST | PUT | DELETE | HEAD | OPTIONS | PATCH | TRACE | CONNECT | PROPFIND | PROXY

  datatype Header = Header(name: string, value: string)

  datatype HttpRequest = HttpRequest(reqMethod: HttpMethod, uri: string, version: Option<string>,
                                     headers: seq<Header>, body: Option<string>)

  function MethodToString(m: HttpMethod): (s: string)
    ensures s != "" && forall c :: c in s ==> 'A' <= c <= 'Z'
  {
    match m
    case GET => "GET"
    case POST => "POST"
    case PUT => "PUT"
    case DELETE => "DELETE"
    case HEAD => "HEAD"
    case OPTIONS => "OPTIONS"
    case PATCH => "PATCH"
    case TRACE => "TRACE"
    case CONNECT => "CONNECT"
    case PROPFIND => "PROPFIND"
    case PROXY => "PROXY"
  }

  // ---- The printer ----

  function NormalUri(uri: string): string {
    if uri == "" || uri[0] != '/' then "/" + uri else uri
  }

  function VersionOf(req: HttpRequest): string {
    if req.version.Some? then req.version.value else "HTTP/1.1"
  }

  function BodyOf(req: HttpRequest): string {
    if req.body.Some? then req.body.value else ""
  }

  /** strcasecmp(name.c_str(), lower) == 0 */
  predicate CNamed(h: Header, lower: string) {
    Fold(CString(h.name)) == lower
  }

  /** The headers with a name, in order. */
  function Named(hs: seq<Header>): seq<Header> {
    if hs == [] then [] else
    var front, h := Named(hs[..|hs| - 1]), hs[|hs| - 1];
    if h.name == "" then front else front + [h]
  }

  predicate AnyCNamed(hs: seq<Header>, lower: string) {
    exists h :: h in hs && CNamed(h, lower)
  }

  function HostField(req: HttpRequest): seq<Header> {
    if AnyCNamed(Named(req.headers), "host") then [] else [Header("Host", "localhost")]
  }

  function LengthField(req: HttpRequest): seq<Header> {
    if BodyOf(req) == "" || AnyCNamed(Named(req.headers), "content-length") then []
    else [Header("Content-Length", Decimal(|BodyOf(req)|))]
  }

  /** The fields a request is printed with. */
  function Fields(req: HttpRequest): seq<Header> {
    Named(req.headers) + HostField(req) + LengthField(req)
  }

  function Line(h: Header): string {
    h.name + ": " + h.value
  }

  function Lines(hs: seq<Header>): string {
    if hs == [] then "" else Lines(hs[..|hs| - 1]) + Line(hs[|hs| - 1]) + CRLF
  }

  function RequestLine(req: HttpRequest): string {
    MethodToString(req.reqMethod) + " " + NormalUri(req.uri) + " " + VersionOf(req)
  }

  function Print(req: HttpRequest): string {
    RequestLine(req) + CRLF + Lines(Fields(req)) + CRLF + BodyOf(req)
  }

  method BuildHttpRequest(req: HttpRequest) returns (out: string)
    ensures out == Print(req)
  {
    hide Named, AnyCNamed, Lines, Decimal;
    out := PrintRequestLine(req);
    out := out + CRLF;
    ghost var head := out;
    var hasHost, hasContentLength;
    out, hasHost, hasContentLength := PrintHeaders(out, req.headers);
    out := PrintDefaults(out, head, req, hasHost, hasContentLength);
    out := out + CRLF;
    if req.body.Some? {
      out := out + req.body.value;
    }
  }

  method PrintRequestLine(req: HttpRequest) returns (out: string)
    ensures out == RequestLine(req)
  {
    var uri := req.uri;
    if uri == "" || uri[0] != '/' {
      uri := "/" + uri;
    }
    var version := if req.version.Some? then req.version.value else "HTTP/1.1";
    out := MethodToString(req.reqMethod);
    out := out + " ";
    out := out + uri;
    out := out + " ";
    out := out + version;
  }

  method PrintHeaders(head: string, hs: seq<Header>) returns (out: string, hasHost: bool, hasContentLength: bool)
    ensures out == head + Lines(Named(hs))
    ensures hasHost == AnyCNamed(Named(hs), "host")
    ensures hasContentLength == AnyCNamed(Named(hs), "content-length")
  {
    hide Lines, CNamed;
    out, hasHost, hasContentLength := head, false, false;
    NoLines(head);
    for i := 0 to |hs|
      invariant out == head + Lines(Named(hs[..i]))
      invariant hasHost == AnyCNamed(Named(hs[..i]), "host")
      invariant hasContentLength == AnyCNamed(Named(hs[..i]), "content-length")
    {
      assert hs[..i + 1][..i] == hs[..i];
      var hdr := hs[i];
      if hdr.name == "" {
        continue;
      }
      LinesSnoc(head, Named(hs[..i]), hdr);
      out := out + hdr.name;
      out := out + ": ";
      out := out + hdr.value;
      out := out + CRLF;
      if CNamed(hdr, "host") {
        hasHost := true;
      }
      if CNamed(hdr, "content-length") {
        hasContentLength := true;
      }
    }
    assert hs[..|hs|] == hs;
  }

  method PrintDefaults(before: string, ghost head: string, req: HttpRequest, hasHost: bool, hasContentLength: bool)
    returns (out: string)
    requires before == head + Lines(Named(req.headers))
    requires hasHost == AnyCNamed(Named(req.headers), "host")
    requires hasContentLength == AnyCNamed(Named(req.headers), "content-length")
    ensures out == head + Lines(Fields(req))
  {
    hide Lines, AnyCNamed, Named, Decimal, Line;
    out := before;
    ghost var fields := Named(req.headers);
    if !hasHost {
      LinesText(head, fields, Header("Host", "localhost"));
      HostText();
      out := out + "Host: localhost\r\n";
      fields := fields + [Header("Host", "localhost")];
    }
    assert fields == Named(req.headers) + HostField(req);
    if req.body.Some? && |req.body.value| > 0 && !hasContentLength {
      LinesText(head, fields, Header("Content-Length", Decimal(|req.body.value|)));
      LengthText(Decimal(|req.body.value|));
      ThreeAppends(out, "Content-Length: ", Decimal(|req.body.value|), CRLF);
      out := out + "Content-Length: ";
      out := out + Decimal(|req.body.value|);
      out := out + CRLF;
      fields := fields + [Header("Content-Length", Decimal(|req.body.value|))];
    }
    assert fields == Fields(req);
  }

  lemma LinesText(head: string, hs: seq<Header>, h: Header)
    ensures head + Lines(hs + [h]) == head + Lines(hs) + (Line(h) + CRLF)
  {
    hide Line;
    assert (hs + [h])[..|hs|] == hs;
  }

  lemma HostText()
    ensures Line(Header("Host", "localhost")) + CRLF == "Host: localhost\r\n"
  {
  }

  lemma LengthText(value: string)
    ensures Line(Header("Content-Length", value)) + CRLF == "Content-Length: " + value + CRLF
  {
  }

  lemma NoLines(head: string)
    ensures head + Lines([]) == head
  {
  }

  lemma LinesSnoc(head: string, hs: seq<Header>, h: Header)
    ensures head + Lines(hs + [h]) == head + Lines(hs) + h.name + ": " + h.value + CRLF
  {
    assert (hs + [h])[..|hs|] == hs;
  }

  // ---- A reader after RFC 9112 ----

  datatype Message = Message(reqMethod: string, target: string, version: string, fields: seq<Header>, body: string)

  predicate IsBlank(c: char) {
    c == ' ' || c == '\t'
  }

  function TrimLeft(s: string): (r: string)
    ensures |r| <= |s|
  {
    if s != "" && IsBlank(s[0]) then TrimLeft(s[1..]) else s
  }

  function TrimRight(s: string): string {
    if s != "" && IsBlank(s[|s| - 1]) then TrimRight(s[..|s| - 1]) else s
  }

  /** Section 3: method, target and version, one space apart. */
  function ParseRequestLine(line: string): Option<(string, string, string)> {
    match Find(line, " ", 0)
    case None => None
    case Some(i) =>
      match Find(line, " ", i + 1)
      case None => None
      case Some(j) => if ' ' in line[j + 1..] then None else Some((line[..i], line[i + 1..j], line[j + 1..]))
  }

  /** Section 5.1: the name up to the colon, without whitespace; the value without what surrounds it. */
  function ParseField(line: string): Option<Header> {
    match Find(line, ":", 0)
    case None => None
    case Some(i) =>
      if i == 0 || exists c :: c in line[..i] && IsBlank(c) then None
      else Some(Header(line[..i], TrimRight(TrimLeft(line[i + 1..]))))
  }

  function ParseFields(s: string): (r: Option<(seq<Header>, string)>)
    ensures r.Some? ==> |r.value.1| < |s|
    decreases |s|
  {
    match ReadLine(s)
    case None => None
    case Some((line, rest)) =>
      if line == "" then Some(([], rest)) else
      match ParseField(line)
      case None => None
      case Some(h) =>
        match ParseFields(rest)
        case None => None
        case Some((hs, after)) => Some(([h] + hs, after))
  }

  predicate FieldNamed(h: Header, lower: string) {
    Fold(h.name) == lower
  }

  function ValuesOf(hs: seq<Header>, lower: string): seq<string> {
    if hs == [] then [] else
    var front, h := ValuesOf(hs[..|hs| - 1], lower), hs[|hs| - 1];
    if FieldNamed(h, lower) then front + [h.value] else front
  }

  /** Section 6.3, without transfer codings: the one length all Content-Length fields give, or zero. */
  function BodyLength(hs: seq<Header>): Option<nat> {
    if ValuesOf(hs, "transfer-encoding") != [] then None else
    var lengths := ValuesOf(hs, "content-length");
    if lengths == [] then Some(0)
    else if exists l :: l in lengths && l != lengths[0] then None
    else ParseDecimal(lengths[0])
  }

  /** The body of the given length at the front of what follows the head. */
  function TakeBody(head: (string, string, string), hs: seq<Header>, length: Option<nat>, after: string)
    : (r: Option<(Message, string)>)
    ensures r.Some? ==> |r.value.1| <= |after|
  {
    if length == None || length.value > |after| then None
    else Some((Message(head.0, head.1, head.2, hs, after[..length.value]), after[length.value..]))
  }

  function ReadMessage(s: string): (r: Option<(Message, string)>)
    ensures r.Some? ==> |r.value.1| < |s|
  {
    match ReadLine(s)
    case None => None
    case Some((line, rest)) =>
      match ParseRequestLine(line)
      case None => None
      case Some(head) =>
        match ParseFields(rest)
        case None => None
        case Some((hs, after)) => TakeBody(head, hs, BodyLength(hs), after)
  }

  function ReadAll(s: string): Option<seq<Message>>
    decreases |s|
  {
    if s == "" then Some([]) else
    match ReadMessage(s)
    case None => None
    case Some((m, rest)) =>
      match ReadAll(rest)
      case None => None
      case Some(ms) => Some([m] + ms)
  }

  // ---- What the printer's text reads as ----

  predicate Lacks(s: string, chars: set<char>) {
    forall c :: c in s ==> c !in chars
  }

  /** The field's name and value can be told apart, and whitespace around the value as well. */
  predicate Delimited(h: Header) {
    && h.name != "" && Lacks(h.name, {':', ' ', '\t', '\r', '\n'})
    && (h.value != "" ==> !IsBlank(h.value[0]) && !IsBlank(h.value[|h.value| - 1]))
  }

  predicate CleanField(h: Header) {
    Delimited(h) && Lacks(h.value, {'\r', '\n'})
  }

  /** No field of the request holds a delimiter of the line it is printed on. */
  predicate Clean(req: HttpRequest) {
    && Lacks(req.uri, {' ', '\r', '\n'})
    && Lacks(VersionOf(req), {' ', '\r', '\n'})
    && forall h :: h in req.headers && h.name != "" ==> CleanField(h)
  }

  function Expected(req: HttpRequest): Message {
    Message(MethodToString(req.reqMethod), NormalUri(req.uri), VersionOf(req), Fields(req), BodyOf(req))
  }

  lemma FindFrom(s: string, c: char, from: nat, j: nat)
    requires from <= j < |s| && s[j] == c && c !in s[from..j]
    ensures Find(s, [c], from) == Some(j)
  {
    hide Find;
    assert s[j..j + 1] == [c];
    assert At(s, j, [c]);
    forall i | from <= i < j
      ensures !At(s, i, [c])
    {
      assert s[i..i + 1][0] == s[i] == s[from..j][i - from];
    }
  }

  lemma FindChar(a: string, c: char, b: string)
    requires c !in a
    ensures Find(a + [c] + b, [c], 0) == Some(|a|)
  {
    hide Find;
    assert (a + [c] + b)[0..|a|] == a;
    FindFrom(a + [c] + b, c, 0, |a|);
  }

  /** What `a`, `b` and `c` are in `a x b x c`. */
  lemma ThreeParts(a: string, b: string, c: string, line: string)
    requires line == a + " " + b + " " + c
    ensures var i, j := |a|, |a| + 1 + |b|;
            && |line| == j + 1 + |c| && line[i] == ' ' && line[j] == ' '
            && line[0..i] == line[..i] == a && line[i + 1..j] == b && line[j + 1..] == c
  {
  }

  lemma RequestLineRead(m: string, t: string, v: string)
    requires ' ' !in m && ' ' !in t && ' ' !in v
    ensures ParseRequestLine(m + " " + t + " " + v) == Some((m, t, v))
  {
    hide Find;
    var line := m + " " + t + " " + v;
    var i, j := |m|, |m| + 1 + |t|;
    ThreeParts(m, t, v, line);
    FindFrom(line, ' ', 0, i);
    FindFrom(line, ' ', i + 1, j);
  }

  lemma FieldRead(h: Header)
    requires Delimited(h)
    ensures ParseField(Line(h)) == Some(h)
  {
    hide Find, TrimLeft, TrimRight, Lacks, IsBlank;
    NoBlank(h.name);
    FindChar(h.name, ':', " " + h.value);
    LineParts(h);
    Trimmed(h.value);
  }

  lemma LineParts(h: Header)
    ensures var line := Line(h);
            && line == h.name + ":" + (" " + h.value)
            && line[..|h.name|] == h.name && line[|h.name| + 1..] == " " + h.value
  {
  }

  lemma NoBlank(name: string)
    ensures Lacks(name, {':', ' ', '\t', '\r', '\n'}) ==> ':' !in name && !exists c :: c in name && IsBlank(c)
  {
  }

  lemma Trimmed(value: string)
    ensures (value != "" ==> !IsBlank(value[0]) && !IsBlank(value[|value| - 1])) ==> TrimRight(TrimLeft(" " + value)) == value
  {
    assert (" " + value)[1..] == value;
  }

  lemma {:induction false} LinesFront(h: Header, hs: seq<Header>)
    ensures Lines([h] + hs) == Line(h) + CRLF + Lines(hs)
  {
    if hs == [] {
      assert [h] + hs == [h] && [h][..0] == [];
    } else {
      var front, l := hs[..|hs| - 1], hs[|hs| - 1];
      assert ([h] + hs)[..|hs|] == [h] + front;
      LinesFront(h, front);
      hide Lines;
      FourAppends(Line(h) + CRLF, Lines(front), Line(l), CRLF);
    }
  }

  lemma FourAppends(a: string, b: string, c: string, d: string)
    ensures a + b + c + d == a + (b + c + d)
  {
  }

  lemma {:induction false} FieldsRead(hs: seq<Header>, rest: string)
    requires forall h :: h in hs ==> CleanField(h)
    ensures ParseFields(Lines(hs) + CRLF + rest) == Some((hs, rest))
  {
    hide ParseField, Lines;
    if hs == [] {
      NoLines("");
      ReadLineOf("", rest);
      assert Lines(hs) + CRLF + rest == "" + CRLF + rest;
    } else {
      var h, tail := hs[0], Lines(hs[1..]) + CRLF + rest;
      assert hs == [h] + hs[1..] && h in hs;
      LinesFront(h, hs[1..]);
      assert Lines(hs) + CRLF + rest == Line(h) + CRLF + tail;
      LineHasNoReturn(h);
      ReadLineOf(Line(h), tail);
      FieldRead(h);
      FieldsRead(hs[1..], rest);
    }
  }

  lemma LineHasNoReturn(h: Header)
    requires CleanField(h)
    ensures '\r' !in Line(h) && Line(h) != ""
  {
  }

  lemma {:induction false} NamedIsPart(hs: seq<Header>)
    ensures forall h :: h in Named(hs) <==> h in hs && h.name != ""
  {
    if hs != [] {
      NamedIsPart(hs[..|hs| - 1]);
      SplitLast(hs);
    }
  }

  lemma FieldsClean(req: HttpRequest)
    requires Clean(req)
    ensures forall h :: h in Fields(req) ==> CleanField(h)
  {
    hide Named, CleanField, Decimal, AnyCNamed;
    NamedIsPart(req.headers);
    HostClean();
    DecimalClean(|BodyOf(req)|);
    forall h | h in Fields(req)
      ensures CleanField(h)
    {
      assert h in Named(req.headers) || h in HostField(req) || h in LengthField(req);
    }
  }

  /** Letters and hyphens are no delimiters. */
  lemma NameLacks(name: string)
    requires forall c :: c in name ==> c == '-' || 'A' <= c <= 'z'
    ensures Lacks(name, {':', ' ', '\t', '\r', '\n'})
  {
  }

  lemma LacksConcat(a: string, b: string, chars: set<char>)
    requires Lacks(a, chars) && Lacks(b, chars)
    ensures Lacks(a + b, chars)
  {
  }

  lemma HostClean()
    ensures CleanField(Header("Host", "localhost"))
  {
  }

  lemma DecimalClean(n: nat)
    ensures CleanField(Header("Content-Length", Decimal(n)))
  {
    hide Decimal, ParseDecimal;
    DecimalRoundTrip(n);
    DigitsClean(Decimal(n));
  }

  lemma DigitsClean(d: string)
    requires d != "" && forall c :: c in d ==> '0' <= c <= '9'
    ensures CleanField(Header("Content-Length", d))
  {
    assert d[0] in d && d[|d| - 1] in d;
    assert Lacks("Content-Length", {':', ' ', '\t', '\r', '\n'});
  }

  lemma RequestLineClean(req: HttpRequest)
    requires Clean(req)
    ensures '\r' !in RequestLine(req)
    ensures ParseRequestLine(RequestLine(req)) == Some((MethodToString(req.reqMethod), NormalUri(req.uri), VersionOf(req)))
  {
    hide ParseRequestLine;
    var m, t, v := MethodToString(req.reqMethod), NormalUri(req.uri), VersionOf(req);
    assert ' ' !in m && '\r' !in m;
    assert ' ' !in t && '\r' !in t;
    RequestLineRead(m, t, v);
  }

  /** The head reads back; the body is as long as the printed fields say. */
  lemma HeadRead(req: HttpRequest, rest: string)
    requires Clean(req)
    ensures ReadMessage(Print(req) + rest) ==
            TakeBody((MethodToString(req.reqMethod), NormalUri(req.uri), VersionOf(req)), Fields(req),
                     BodyLength(Fields(req)), BodyOf(req) + rest)
  {
    hide ParseRequestLine, ParseFields, RequestLine, Fields, Lines, BodyLength, TakeBody, Clean;
    var tail := Lines(Fields(req)) + CRLF + (BodyOf(req) + rest);
    assert Print(req) + rest == RequestLine(req) + CRLF + tail;
    RequestLineClean(req);
    ReadLineOf(RequestLine(req), tail);
    FieldsClean(req);
    FieldsRead(Fields(req), BodyOf(req) + rest);
  }

  // ---- When the fields give the body's length ----

  /** The request brings no framing of its own. */
  predicate PlainFraming(req: HttpRequest) {
    forall h :: h in req.headers && h.name != "" ==>
      !CNamed(h, "content-length") && !FieldNamed(h, "transfer-encoding")
  }

  lemma {:induction false} ValuesConcat(a: seq<Header>, b: seq<Header>, lower: string)
    ensures ValuesOf(a + b, lower) == ValuesOf(a, lower) + ValuesOf(b, lower)
  {
    if b == [] {
      assert a + b == a;
    } else {
      assert (a + b)[..|a + b| - 1] == a + b[..|b| - 1];
      ValuesConcat(a, b[..|b| - 1], lower);
    }
  }

  lemma {:induction false} NoValues(hs: seq<Header>, lower: string)
    requires forall h :: h in hs ==> !FieldNamed(h, lower)
    ensures ValuesOf(hs, lower) == []
  {
    if hs != [] {
      NoValues(hs[..|hs| - 1], lower);
    }
  }

  lemma FieldNamedIsCNamed(h: Header, lower: string)
    requires FieldNamed(h, lower) && '\0' !in lower
    ensures CNamed(h, lower)
  {
    FoldKeepsNul(h.name);
    CStringWhole(h.name);
  }

  lemma LengthNamed(value: string)
    ensures FieldNamed(Header("Content-Length", value), "content-length")
    ensures ValuesOf([Header("Content-Length", value)], "content-length") == [value]
  {
    var h := Header("Content-Length", value);
    assert Fold(h.name) == "content-length";
    assert [h][..0] == [];
  }

  /**
   * What the request's own headers say about the body: no transfer coding; the Content-Length
   * fields the reader sees, if any, all give the body's length; and if it sees none, then there is
   * no body or no header keeps the printer from adding one.
   */
  predicate OwnFraming(req: HttpRequest) {
    var own := Named(req.headers);
    var lengths := ValuesOf(own, "content-length");
    && ValuesOf(own, "transfer-encoding") == []
    && if lengths == [] then BodyOf(req) == "" || !AnyCNamed(own, "content-length")
       else (forall l :: l in lengths ==> l == lengths[0]) && ParseDecimal(lengths[0]) == Some(|BodyOf(req)|)
  }

  lemma HostValues(req: HttpRequest)
    ensures ValuesOf(HostField(req), "content-length") == [] && ValuesOf(HostField(req), "transfer-encoding") == []
  {
    hide Named, AnyCNamed;
    if HostField(req) != [] {
      HostNamed();
      NoValues(HostField(req), "content-length");
      NoValues(HostField(req), "transfer-encoding");
    }
  }

  lemma HostNamed()
    ensures !FieldNamed(Header("Host", "localhost"), "content-length")
    ensures !FieldNamed(Header("Host", "localhost"), "transfer-encoding")
  {
    assert |Fold("Host")| == |"Host"|;
  }

  lemma LengthValues(req: HttpRequest)
    ensures ValuesOf(LengthField(req), "content-length") ==
            if LengthField(req) == [] then [] else [Decimal(|BodyOf(req)|)]
    ensures ValuesOf(LengthField(req), "transfer-encoding") == []
  {
    hide Named, AnyCNamed, Decimal;
    if LengthField(req) != [] {
      LengthNamed(Decimal(|BodyOf(req)|));
      NoValues(LengthField(req), "transfer-encoding");
    }
  }

  /** What the reader sees are the request's own values, then the default length if it was added. */
  lemma FieldValues(req: HttpRequest)
    ensures var own := Named(req.headers);
            && ValuesOf(Fields(req), "transfer-encoding") == ValuesOf(own, "transfer-encoding")
            && ValuesOf(Fields(req), "content-length") == ValuesOf(own, "content-length") +
                 (if LengthField(req) == [] then [] else [Decimal(|BodyOf(req)|)])
  {
    hide Named, ValuesOf, HostField, LengthField, Decimal;
    var own := Named(req.headers);
    HostValues(req);
    LengthValues(req);
    ValuesConcat(own, HostField(req), "transfer-encoding");
    ValuesConcat(own + HostField(req), LengthField(req), "transfer-encoding");
    ValuesConcat(own, HostField(req), "content-length");
    ValuesConcat(own + HostField(req), LengthField(req), "content-length");
  }

  /** A Content-Length the reader sees, the printer has seen too. */
  lemma {:induction false} SeenLength(hs: seq<Header>)
    requires ValuesOf(hs, "content-length") != []
    ensures AnyCNamed(hs, "content-length")
  {
    hide FieldNamed, CNamed;
    var front, h := hs[..|hs| - 1], hs[|hs| - 1];
    if FieldNamed(h, "content-length") {
      FieldNamedIsCNamed(h, "content-length");
    } else {
      SeenLength(front);
      SplitLast(hs);
    }
  }

  /** The printed fields give the body's length if and only if the request's own headers allow it. */
  lemma OwnFramingIff(req: HttpRequest)
    ensures BodyLength(Fields(req)) == Some(|BodyOf(req)|) <==> OwnFraming(req)
  {
    hide Named, ValuesOf, Decimal, ParseDecimal, AnyCNamed, Fields;
    var own := Named(req.headers);
    var lengths := ValuesOf(own, "content-length");
    FieldValues(req);
    DecimalRoundTrip(|BodyOf(req)|);
    if lengths != [] {
      SeenLength(own);
      assert lengths + [] == lengths;
    } else {
      assert forall d: string :: lengths + [d] == [d];
    }
  }

  lemma PlainValues(req: HttpRequest)
    requires PlainFraming(req)
    ensures var own := Named(req.headers);
            && ValuesOf(own, "content-length") == [] && ValuesOf(own, "transfer-encoding") == []
            && !AnyCNamed(own, "content-length")
  {
    hide ValuesOf, Named, CNamed, FieldNamed;
    var own := Named(req.headers);
    NamedIsPart(req.headers);
    forall h | h in own
      ensures !FieldNamed(h, "content-length") && !FieldNamed(h, "transfer-encoding")
    {
      if FieldNamed(h, "content-length") {
        FieldNamedIsCNamed(h, "content-length");
      }
    }
    NoValues(own, "transfer-encoding");
    NoValues(own, "content-length");
  }

  lemma PlainIsOwnFraming(req: HttpRequest)
    requires PlainFraming(req)
    ensures OwnFraming(req)
  {
    hide PlainFraming, Named, ValuesOf, ParseDecimal;
    PlainValues(req);
  }

  lemma ExpectedIff(req: HttpRequest, rest: string)
    requires Clean(req)
    ensures ReadMessage(Print(req) + rest) == Some((Expected(req), rest)) <==> OwnFraming(req)
    ensures ReadMessage(Print(req) + rest).Some? && ReadMessage(Print(req) + rest).value.0.body == BodyOf(req) ==>
              OwnFraming(req)
  {
    hide ReadMessage, Print, Fields, BodyLength, OwnFraming;
    HeadRead(req, rest);
    OwnFramingIff(req);
    var body := BodyOf(req);
    assert (body + rest)[..|body|] == body && (body + rest)[|body|..] == rest;
  }

  // ---- What the request asks for, field by field ----

  /** The method a request token stands for: section 9 of RFC 9110, RFC 5789 and RFC 4918. */
  function TokenMethod(token: string): Option<HttpMethod> {
    if token == "GET" then Some(GET)
    else if token == "HEAD" then Some(HEAD)
    else if token == "POST" then Some(POST)
    else if token == "PUT" then Some(PUT)
    else if token == "DELETE" then Some(DELETE)
    else if token == "CONNECT" then Some(CONNECT)
    else if token == "OPTIONS" then Some(OPTIONS)
    else if token == "TRACE" then Some(TRACE)
    else if token == "PATCH" then Some(PATCH)
    else if token == "PROPFIND" then Some(PROPFIND)
    else if token == "PROXY" then Some(PROXY)
    else None
  }

  lemma TokenRead(m: HttpMethod)
    ensures TokenMethod(MethodToString(m)) == Some(m)
  {
  }

  /** The message has the request's method, target and version. */
  predicate SameLine(req: HttpRequest, m: Message) {
    && TokenMethod(m.reqMethod) == Some(req.reqMethod)
    && m.target == (if "/" <= req.uri then req.uri else "/" + req.uri)
    && m.version == (match req.version case Some(v) => v case None => "HTTP/1.1")
  }

  predicate HasName(h: Header) {
    h.name != ""
  }

  predicate SameField(a: Header, b: Header) {
    a == b
  }

  /** The request has a header that a C program takes for the named one. */
  predicate Gives(req: HttpRequest, lower: string) {
    exists h :: h in req.headers && HasName(h) && CNamed(h, lower)
  }

  /** The fields after the request's own: a host and the body's length, each unless it is given or not needed. */
  predicate Defaults(req: HttpRequest, fs: seq<Header>) {
    var host := if Gives(req, "host") then 0 else 1;
    var length := if req.body in {None, Some("")} || Gives(req, "content-length") then 0 else 1;
    && |fs| == host + length
    && (host == 1 ==> fs[0] == Header("Host", "localhost"))
    && (length == 1 ==> fs[host].name == "Content-Length" && ParseDecimal(fs[host].value) == Some(|req.body.value|))
  }

  /** The fields are the request's headers that have a name, in order, and then the defaults. */
  ghost predicate SameFields(req: HttpRequest, fs: seq<Header>) {
    var own := Count(req.headers, HasName);
    && own <= |fs|
    && ShowsKept(req.headers, HasName, SameField, fs[..own])
    && Defaults(req, fs[own..])
  }

  /** The message is what the request asks for. */
  ghost predicate Asked(req: HttpRequest, m: Message) {
    SameLine(req, m) && SameFields(req, m.fields) && m.body == (match req.body case Some(b) => b case None => "")
  }

  lemma {:induction false} NamedInOrder(hs: seq<Header>)
    ensures ShowsKept(hs, HasName, SameField, Named(hs))
  {
    if hs == [] {
      ShowsNone(HasName, SameField);
    } else {
      var front, h := hs[..|hs| - 1], hs[|hs| - 1];
      NamedInOrder(front);
      SplitLast(hs);
      if HasName(h) {
        ShowsOneMore(front, h, HasName, SameField, Named(front), h);
      } else {
        ShowsNoMore(front, h, HasName, SameField, Named(front));
      }
    }
  }

  lemma GivenIff(req: HttpRequest, lower: string)
    ensures AnyCNamed(Named(req.headers), lower) <==> Gives(req, lower)
  {
    hide Named, CNamed;
    NamedIsPart(req.headers);
  }

  lemma PrintedFields(req: HttpRequest)
    ensures SameFields(req, Fields(req))
  {
    hide Named, AnyCNamed, Gives, Decimal, ParseDecimal, ShowsKept;
    NamedInOrder(req.headers);
    GivenIff(req, "host");
    GivenIff(req, "content-length");
    DecimalRoundTrip(|BodyOf(req)|);
    KeptSize(req.headers, HasName, SameField, Named(req.headers));
    var own, added := Named(req.headers), HostField(req) + LengthField(req);
    assert Fields(req) == own + added;
    assert Fields(req)[..|own|] == own && Fields(req)[|own|..] == added;
  }

  lemma ExpectedAsked(req: HttpRequest)
    ensures Asked(req, Expected(req))
  {
    hide SameFields, Fields, MethodToString, TokenMethod;
    TokenRead(req.reqMethod);
    PrintedFields(req);
    assert "/" <= req.uri <==> req.uri != "" && req.uri[0] == '/';
  }

  /**
   * What a clean request asks for is read, whatever follows it, and reading stops at its end, exactly
   * if its own headers frame it; if they do not, what is read is another message or none. The reader
   * wants one number in a Content-Length field: section 8.6 of RFC 9110 lets a recipient take a list
   * of equal numbers for one, and lets it refuse the message, as this one does.
   */
  lemma FramingIff(req: HttpRequest, rest: string)
    requires Clean(req)
    ensures var r := ReadMessage(Print(req) + rest);
            && (r.Some? && Asked(req, r.value.0) <==> OwnFraming(req))
            && (OwnFraming(req) ==> r.value.1 == rest)
  {
    hide ReadMessage, Print, SameLine, SameFields, OwnFraming;
    ExpectedIff(req, rest);
    ExpectedAsked(req);
  }

  /** A reader finds a host field, its own one or the default, unless a header hides its name behind a NUL. */
  lemma HostIff(req: HttpRequest)
    ensures (exists f :: f in Fields(req) && FieldNamed(f, "host")) <==>
            !Gives(req, "host") || exists h :: h in req.headers && HasName(h) && FieldNamed(h, "host")
  {
    hide Named, CNamed, Decimal, FieldNamed;
    NamedIsPart(req.headers);
    GivenIff(req, "host");
    HostIsNamed(Decimal(|BodyOf(req)|));
    if !Gives(req, "host") {
      assert Header("Host", "localhost") in Fields(req);
    } else if h :| h in req.headers && HasName(h) && FieldNamed(h, "host") {
      assert h in Fields(req);
    }
  }

  lemma HostIsNamed(length: string)
    ensures FieldNamed(Header("Host", "localhost"), "host") && !FieldNamed(Header("Content-Length", length), "host")
  {
    assert Fold("Host") == "host";
    assert |Fold("Content-Length")| == |"Content-Length"|;
  }

  /**
   * A header that is named Content-Length only as a C string keeps the printer from adding a length,
   * and the reader sees none: with a body such a request is not read back.
   */
  lemma HiddenLength(h: Header, body: string, rest: string)
    requires CNamed(h, "content-length") && !FieldNamed(h, "content-length") && CleanField(h) && body != ""
    ensures var req := HttpRequest(POST, "/", None, [h], Some(body));
            && Clean(req) && !OwnFraming(req)
            && (ReadMessage(Print(req) + rest).Some? ==> ReadMessage(Print(req) + rest).value.0.body != body)
  {
    hide CNamed, FieldNamed, CleanField, ReadMessage, Print, Expected, ParseDecimal;
    var req := HttpRequest(POST, "/", None, [h], Some(body));
    OnlyHeader(h);
    assert h in [h];
    assert Clean(req) && !OwnFraming(req);
    hide Clean, OwnFraming;
    ExpectedIff(req, rest);
  }

  lemma OnlyHeader(h: Header)
    requires CleanField(h) && !FieldNamed(h, "content-length")
    ensures Named([h]) == [h] && ValuesOf([h], "content-length") == []
  {
    hide FieldNamed;
    assert [h][..0] == [];
  }

  /** There is such a header: its name goes on after a NUL. */
  lemma HiddenName()
    ensures var h := Header("Content-Length" + "\0x", "1");
            CNamed(h, "content-length") && !FieldNamed(h, "content-length") && CleanField(h)
  {
    hide CNamed, CleanField;
    LengthNamed("1");
    NameLacks("Content-Length");
    NulHides("Content-Length", "content-length");
    NulClean("Content-Length");
  }

  lemma NulHides(visible: string, lower: string)
    requires '\0' !in visible && Fold(visible) == lower
    ensures var h := Header(visible + "\0x", "1"); CNamed(h, lower) && !FieldNamed(h, lower)
  {
    hide Fold, CString;
    var name := visible + "\0x";
    assert name == visible + "\0" + "x";
    CStringStops(visible, "x");
    assert |Fold(name)| == |name| > |visible| == |lower|;
  }

  lemma NulClean(visible: string)
    requires Lacks(visible, {':', ' ', '\t', '\r', '\n'})
    ensures CleanField(Header(visible + "\0x", "1"))
  {
    NulLacks();
    hide Lacks;
    LacksConcat(visible, "\0x", {':', ' ', '\t', '\r', '\n'});
  }

  lemma NulLacks()
    ensures Lacks("\0x", {':', ' ', '\t', '\r', '\n'}) && Lacks("1", {'\r', '\n'})
  {
  }

  // ---- Keep-alive: several requests in one buffer ----

  const MAX_REQUESTS: nat := 16

  function PrintAll(rs: seq<HttpRequest>): string {
    if rs == [] then "" else PrintAll(rs[..|rs| - 1]) + Print(rs[|rs| - 1])
  }

  function Sent(rs: seq<HttpRequest>): seq<HttpRequest> {
    if |rs| > MAX_REQUESTS then rs[..MAX_REQUESTS] else rs
  }

  method CombineRequests(requests: seq<HttpRequest>) returns (combined: string)
    ensures combined == PrintAll(Sent(requests))
  {
    hide Print;
    var count := |requests|;
    if count > MAX_REQUESTS {
      count := MAX_REQUESTS;
    }
    combined := "";
    for i := 0 to count
      invariant combined == PrintAll(requests[..i])
    {
      assert requests[..i + 1][..i] == requests[..i];
      var raw := BuildHttpRequest(requests[i]);
      combined := combined + raw;
    }
    assert requests[..count] == Sent(requests);
  }

  /** What the harness hands to connections: one buffer, or one for each request. */
  method FuzzRequests(requests: seq<HttpRequest>, keepAlive: bool) returns (inputs: seq<string>)
    ensures requests == [] ==> inputs == []
    ensures requests != [] && keepAlive ==> inputs == [PrintAll(Sent(requests))]
    ensures !keepAlive ==> |inputs| == |Sent(requests)| && forall i :: 0 <= i < |inputs| ==> inputs[i] == Print(requests[i])
  {
    hide Print, PrintAll;
    inputs := [];
    var count := |requests|;
    if count == 0 {
      return;
    }
    if count > MAX_REQUESTS {
      count := MAX_REQUESTS;
    }
    if keepAlive {
      var combined := CombineRequests(requests);
      inputs := [combined];
    } else {
      for i := 0 to count
        invariant |inputs| == i && forall j :: 0 <= j < i ==> inputs[j] == Print(requests[j])
      {
        var raw := BuildHttpRequest(requests[i]);
        inputs := inputs + [raw];
      }
    }
  }

  /** The messages are what the requests ask for, one for one. */
  ghost predicate AllAsked(rs: seq<HttpRequest>, ms: seq<Message>) {
    |ms| == |rs| && forall i :: 0 <= i < |rs| ==> Asked(rs[i], ms[i])
  }

  lemma AllAskedFront(rs: seq<HttpRequest>, m: Message, ms: seq<Message>)
    requires rs != []
    ensures AllAsked(rs, [m] + ms) <==> Asked(rs[0], m) && AllAsked(rs[1..], ms)
  {
    hide Asked;
    var all := [m] + ms;
    assert forall i :: 1 <= i < |rs| ==> rs[i] == rs[1..][i - 1];
    assert forall i :: 0 <= i < |ms| ==> all[i + 1] == ms[i];
    if Asked(rs[0], m) && AllAsked(rs[1..], ms) {
      forall i | 0 <= i < |rs|
        ensures Asked(rs[i], all[i])
      {
        if i > 0 {
          assert rs[i] == rs[1..][i - 1] && all[i] == ms[i - 1];
        }
      }
    }
    if AllAsked(rs, all) {
      assert all[0] == m;
      forall i | 0 <= i < |rs[1..]|
        ensures Asked(rs[1..][i], ms[i])
      {
        assert rs[1..][i] == rs[i + 1] && ms[i] == all[i + 1];
      }
    }
  }

  lemma {:induction false} PrintAllFront(r: HttpRequest, rs: seq<HttpRequest>)
    ensures PrintAll([r] + rs) == Print(r) + PrintAll(rs)
  {
    hide Print;
    if rs == [] {
      assert [r] + rs == [r] && [r][..0] == [];
    } else {
      assert ([r] + rs)[..|rs|] == [r] + rs[..|rs| - 1];
      PrintAllFront(r, rs[..|rs| - 1]);
    }
  }

  /**
   * What clean requests sent on one connection ask for is read, neither more nor less, exactly if each
   * one's own headers frame it.
   */
  lemma {:induction false} KeepAliveIff(rs: seq<HttpRequest>)
    requires forall r :: r in rs ==> Clean(r)
    ensures var ms := ReadAll(PrintAll(rs));
            ms.Some? && AllAsked(rs, ms.value) <==> forall r :: r in rs ==> OwnFraming(r)
  {
    hide Print, ReadMessage, Clean, OwnFraming, Asked, AllAsked;
    if rs == [] {
      NoneAsked();
    } else {
      var r, tail := rs[0], rs[1..];
      assert rs == [r] + tail && r in rs;
      PrintAllFront(r, tail);
      PrintNotEmpty(r);
      FramingIff(r, PrintAll(tail));
      KeepAliveIff(tail);
      match ReadMessage(PrintAll(rs)) {
        case None =>
        case Some((m, rest)) =>
          if ReadAll(rest).Some? {
            AllAskedFront(rs, m, ReadAll(rest).value);
          }
      }
    }
  }

  lemma NoneAsked()
    ensures AllAsked([], [])
  {
  }

  lemma PrintNotEmpty(r: HttpRequest)
    ensures Print(r) != ""
  {
  }

  /** So what requests without framing of their own ask for is read, up to the first sixteen of them. */
  lemma KeepAliveTheorem(rs: seq<HttpRequest>)
    requires forall r :: r in rs ==> Clean(r) && PlainFraming(r)
    ensures var ms := ReadAll(PrintAll(Sent(rs)));
            ms.Some? && AllAsked(if |rs| > 16 then rs[..16] else rs, ms.value)
  {
    hide Clean, PlainFraming, OwnFraming, AllAsked;
    forall r | r in Sent(rs)
      ensures OwnFraming(r)
    {
      PlainIsOwnFraming(r);
    }
    KeepAliveIff(Sent(rs));
  }
}
