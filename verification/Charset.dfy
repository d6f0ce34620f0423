/**
 * The charset converter: a chunked request whose body is a short primer in one chunk and a bounded
 * run of a repeated unit in the next, with a reader after section 7.1 of RFC 9112.
 */
module Charset {
  import opened Common
  import opened Octets
  import opened Text
  import opened Http1

  datatype XlateTarget = XT_JP | XT_JP2 | XT_KR | XT_CN

  datatype CharsetBody = CharsetBody(target: XlateTarget, usePut: bool, extraHeaders: seq<Header>,
                                     primer: string, driver: string, driverRepeat: U32)

  const ESC: char := 0x1b as char
  const PRIMER_MAX: nat := 7
  const DRIVER_ENOUGH: nat := 8192

  function TargetUri(t: XlateTarget): string {
    match t
    case XT_JP2 => "/jp2"
    case XT_KR => "/kr"
    case XT_CN => "/cn"
    case XT_JP => "/jp"
  }

  // ---- Hexadecimal numbers ----

  function HexDigit(d: nat): char
    requires d < 16
  {
    "0123456789abcdef"[d]
  }

  function Hex(n: nat): (s: string)
    ensures s != ""
  {
    if n < 16 then [HexDigit(n)] else Hex(n / 16) + [HexDigit(n % 16)]
  }

  function HexValue(c: char): Option<nat> {
    if '0' <= c <= '9' then Some(c as int - '0' as int)
    else if 'a' <= c <= 'f' then Some(c as int - 'a' as int + 10)
    else if 'A' <= c <= 'F' then Some(c as int - 'A' as int + 10)
    else None
  }

  function ParseHex(s: string): Option<nat> {
    if s == "" || HexValue(s[|s| - 1]) == None then None else
    var d := HexValue(s[|s| - 1]).value;
    if |s| == 1 then Some(d) else
    match ParseHex(s[..|s| - 1])
    case None => None
    case Some(n) => Some(16 * n + d)
  }

  lemma HexDigitValue(d: nat)
    requires d < 16
    ensures HexValue(HexDigit(d)) == Some(d) && HexDigit(d) !in {'\r', ';'}
    ensures '0' <= HexDigit(d) <= '9' || 'a' <= HexDigit(d) <= 'f'
  {
  }

  lemma {:induction false} HexRoundTrip(n: nat)
    ensures ParseHex(Hex(n)) == Some(n)
    ensures '\r' !in Hex(n) && ';' !in Hex(n)
    ensures forall c :: c in Hex(n) ==> '0' <= c <= '9' || 'a' <= c <= 'f'
  {
    hide HexValue, HexDigit;
    HexDigitValue(n % 16);
    if n >= 16 {
      HexRoundTrip(n / 16);
      var s := Hex(n);
      assert s[..|s| - 1] == Hex(n / 16) && s[|s| - 1] == HexDigit(n % 16);
    }
  }

  // ---- The printer ----

  function Chunk(data: string): string {
    Hex(|data|) + CRLF + data + CRLF
  }

  function Primer(req: CharsetBody): (p: string)
    ensures 1 <= |p| <= PRIMER_MAX
    ensures p <= req.primer || (req.primer == "" && p == [ESC])
  {
    if req.primer == "" then [ESC] else if |req.primer| > PRIMER_MAX then req.primer[..PRIMER_MAX] else req.primer
  }

  function Unit(req: CharsetBody): (u: string)
    ensures u != ""
  {
    if req.driver == "" then [ESC] else req.driver
  }

  function Repeat(req: CharsetBody): (n: nat)
    ensures n > 0
  {
    if req.driverRepeat == 0 then 1 else req.driverRepeat
  }

  function Copies(unit: string, k: nat): (s: string)
    ensures |s| == k * |unit|
  {
    if k == 0 then "" else Copies(unit, k - 1) + unit
  }

  /** As many copies as asked for, but no more than it takes to have enough. */
  function CopyCount(size: nat, repeat: nat): nat
    requires size > 0
  {
    var enough := (DRIVER_ENOUGH + size - 1) / size;
    if repeat < enough then repeat else enough
  }

  function Driver(req: CharsetBody): string {
    Copies(Unit(req), CopyCount(|Unit(req)|, Repeat(req)))
  }

  function ChunkedBody(req: CharsetBody): string {
    Chunk(Primer(req)) + Chunk(Driver(req)) + "0\r\n\r\n"
  }

  function MethodOf(req: CharsetBody): string {
    if req.usePut then "PUT" else "POST"
  }

  /** The fields the request is printed with. */
  function CharsetFields(req: CharsetBody): seq<Header> {
    [Header("Host", "localhost"), Header("Transfer-Encoding", "chunked")] + Named(req.extraHeaders)
  }

  function StartLine(req: CharsetBody): string {
    MethodOf(req) + " " + TargetUri(req.target) + " HTTP/1.1"
  }

  function PrintCharset(req: CharsetBody): string {
    StartLine(req) + CRLF + Lines(CharsetFields(req)) + CRLF + ChunkedBody(req)
  }

  lemma GrowthStops(size: nat, repeat: nat, k: nat)
    requires size > 0 && repeat > 0 && k <= repeat
    requires k > 0 ==> (k - 1) * size < DRIVER_ENOUGH
    requires k == repeat || k * size >= DRIVER_ENOUGH
    ensures k == CopyCount(size, repeat)
  {
    var enough := (DRIVER_ENOUGH + size - 1) / size;
    EnoughCopies(size);
    if k > 0 {
      Cancel(k - 1, enough, size);
    }
    if k < repeat {
      Cancel(enough - 1, k, size);
    }
  }

  /** The least number of copies that is enough. */
  lemma EnoughCopies(size: nat)
    requires size > 0
    ensures var enough := (DRIVER_ENOUGH + size - 1) / size;
            enough > 0 && (enough - 1) * size < DRIVER_ENOUGH <= enough * size
  {
  }

  lemma Monotone(a: int, b: int, c: nat)
    requires a <= b
    ensures a * c <= b * c
  {
    assert b * c - a * c == (b - a) * c;
  }

  lemma Cancel(a: int, b: int, c: nat)
    requires a * c < b * c
    ensures a < b
  {
  }

  method GrowDriver(unit: string, rep: nat) returns (driver: string)
    requires unit != "" && rep > 0
    ensures driver == Copies(unit, CopyCount(|unit|, rep))
  {
    driver := "";
    var i := 0;
    while i < rep && |driver| < DRIVER_ENOUGH
      invariant i <= rep
      invariant driver == Copies(unit, i)
      invariant i > 0 ==> (i - 1) * |unit| < DRIVER_ENOUGH
    {
      driver := driver + unit;
      i := i + 1;
    }
    GrowthStops(|unit|, rep, i);
  }

  method BuildChunk(data: string) returns (s: string)
    ensures s == Chunk(data)
  {
    s := Hex(|data|) + CRLF;
    s := s + data;
    s := s + CRLF;
  }

  method PrintExtra(head: string, hs: seq<Header>) returns (out: string)
    ensures out == head + Lines(Named(hs))
  {
    hide Lines;
    out := head;
    NoLines(head);
    for i := 0 to |hs|
      invariant out == head + Lines(Named(hs[..i]))
    {
      assert hs[..i + 1][..i] == hs[..i];
      var h := hs[i];
      if h.name == "" {
        continue;
      }
      LinesSnoc(head, Named(hs[..i]), h);
      out := out + h.name;
      out := out + ": ";
      out := out + h.value;
      out := out + CRLF;
    }
    assert hs[..|hs|] == hs;
  }

  method BuildCharsetRequest(req: CharsetBody) returns (out: string)
    ensures out == PrintCharset(req)
  {
    hide Lines, Named, Hex, CopyCount, Copies;
    var httpMethod := if req.usePut then "PUT" else "POST";
    var uri := TargetUri(req.target);
    var primer := req.primer;
    if |primer| > PRIMER_MAX {
      primer := primer[..PRIMER_MAX];
    }
    if primer == "" {
      primer := [ESC];
    }
    var unit := req.driver;
    if unit == "" {
      unit := [ESC];
    }
    var rep := req.driverRepeat as nat;
    if rep == 0 {
      rep := 1;
    }
    var driver := GrowDriver(unit, rep);
    assert primer == Primer(req) && driver == Driver(req);
    hide Primer, Driver, Chunk;
    out := httpMethod + " ";
    out := out + uri;
    out := out + " HTTP/1.1\r\n";
    ghost var start := out;
    out := out + "Host: localhost\r\n";
    out := out + "Transfer-Encoding: chunked\r\n";
    out := PrintExtra(out, req.extraHeaders);
    out := out + CRLF;
    HeadText(req, start);
    ghost var head := out;
    var first := BuildChunk(primer);
    out := out + first;
    var second := BuildChunk(driver);
    out := out + second;
    out := out + "0\r\n\r\n";
    ThreeAppends(head, first, second, "0\r\n\r\n");
  }

  lemma {:induction false} LinesConcat(a: seq<Header>, b: seq<Header>)
    ensures Lines(a + b) == Lines(a) + Lines(b)
  {
    hide Line;
    if b == [] {
      assert a + b == a;
    } else {
      var front, last := b[..|b| - 1], b[|b| - 1];
      assert (a + b)[..|a + b| - 1] == a + front;
      LinesConcat(a, front);
      ThreeAppends(Lines(a), Lines(front), Line(last), CRLF);
    }
  }

  lemma FixedLines()
    ensures Lines([Header("Host", "localhost"), Header("Transfer-Encoding", "chunked")]) ==
            "Host: localhost\r\n" + "Transfer-Encoding: chunked\r\n"
  {
    var h, t := Header("Host", "localhost"), Header("Transfer-Encoding", "chunked");
    assert [h, t][..1] == [h] && [h][..0] == [];
    assert Line(h) == "Host: localhost" && Line(t) == "Transfer-Encoding: chunked";
  }

  lemma HeadText(req: CharsetBody, start: string)
    requires start == MethodOf(req) + " " + TargetUri(req.target) + " HTTP/1.1\r\n"
    ensures start + "Host: localhost\r\n" + "Transfer-Encoding: chunked\r\n" + Lines(Named(req.extraHeaders)) + CRLF ==
            StartLine(req) + CRLF + Lines(CharsetFields(req)) + CRLF
  {
    hide Lines, Named;
    FixedLines();
    LinesConcat([Header("Host", "localhost"), Header("Transfer-Encoding", "chunked")], Named(req.extraHeaders));
    assert start == StartLine(req) + CRLF;
    ThreeAppends(start, "Host: localhost\r\n", "Transfer-Encoding: chunked\r\n", Lines(Named(req.extraHeaders)));
  }

  // ---- The reader of a chunked body ----

  /** The size in front of any chunk extension. */
  function ChunkSize(line: string): Option<nat> {
    match Find(line, ";", 0) case Some(i) => ParseHex(line[..i]) case None => ParseHex(line)
  }

  /** The data of each chunk and what follows the trailer section of the last one. */
  function ReadChunks(s: string): (r: Option<(seq<string>, string)>)
    decreases |s|
  {
    match ReadLine(s)
    case None => None
    case Some((line, rest)) =>
      match ChunkSize(line)
      case None => None
      case Some(n) =>
        if n == 0 then
          match ParseFields(rest) case None => None case Some((trailers, after)) => Some(([], after))
        else if n + 2 > |rest| || rest[n..n + 2] != CRLF then None
        else
          match ReadChunks(rest[n + 2..]) case None => None case Some((more, after)) => Some(([rest[..n]] + more, after))
  }

  lemma NoSemicolon(line: string)
    requires ';' !in line
    ensures Find(line, ";", 0) == None
  {
    forall i: nat | i <= |line|
      ensures !At(line, i, ";")
    {
      if i < |line| {
        assert line[i..i + 1][0] == line[i];
      }
    }
  }

  lemma ChunkLineRead(data: string, rest: string)
    ensures ReadLine(Chunk(data) + rest) == Some((Hex(|data|), data + CRLF + rest))
    ensures ChunkSize(Hex(|data|)) == Some(|data|)
  {
    hide Hex, ParseHex, ReadLine, Find;
    HexRoundTrip(|data|);
    NoSemicolon(Hex(|data|));
    ReadLineOf(Hex(|data|), data + CRLF + rest);
    FourAppends(Hex(|data|) + CRLF, data, CRLF, rest);
  }

  /** A chunk with data reads as its data; one without ends the body there. */
  lemma ChunkRead(data: string, rest: string)
    ensures ReadChunks(Chunk(data) + rest) ==
            if data == "" then Some(([], rest)) else
            match ReadChunks(rest) case None => None case Some((more, after)) => Some(([data] + more, after))
  {
    hide Hex, ReadLine, ChunkSize, Chunk, ParseFields;
    ChunkLineRead(data, rest);
    var tail := data + CRLF + rest;
    assert tail[..|data|] == data && tail[|data|..|data| + 2] == CRLF && tail[|data| + 2..] == rest;
    if data == "" {
      EmptyTrailers(rest);
      assert tail == CRLF + rest;
    }
  }

  lemma EmptyTrailers(rest: string)
    ensures ParseFields(CRLF + rest) == Some(([], rest))
  {
    ReadLineOf("", rest);
    assert "" + CRLF + rest == CRLF + rest;
  }

  lemma LastChunk()
    ensures "0\r\n\r\n" == Chunk("")
  {
    assert Hex(0) == "0";
  }

  /** Two chunks with data and one without read as the two. */
  lemma TwoChunksRead(a: string, b: string, rest: string)
    requires a != "" && b != ""
    ensures ReadChunks(Chunk(a) + Chunk(b) + "0\r\n\r\n" + rest) == Some(([a, b], rest))
  {
    hide Chunk, ReadChunks;
    LastChunk();
    ChunkRead("", rest);
    ChunkRead(b, Chunk("") + rest);
    ChunkRead(a, Chunk(b) + (Chunk("") + rest));
    assert Chunk(a) + Chunk(b) + Chunk("") + rest == Chunk(a) + (Chunk(b) + (Chunk("") + rest));
    assert [b] + [] == [b] && [a] + [b] == [a, b];
  }

  /** Enough, but never more than one unit past it, and at least one unit. */
  lemma DriverSize(req: CharsetBody)
    ensures 1 <= |Driver(req)| <= DRIVER_ENOUGH - 1 + |Unit(req)|
    ensures |Driver(req)| >= DRIVER_ENOUGH || Driver(req) == Copies(Unit(req), Repeat(req))
  {
    var size := |Unit(req)|;
    var k, enough := CopyCount(size, Repeat(req)), (DRIVER_ENOUGH + size - 1) / size;
    EnoughCopies(size);
    Monotone(k, enough, size);
    Monotone(1, k, size);
    assert (enough - 1) * size == enough * size - size;
  }

  /** For every input the body reads back as two chunks, the primer and the driver. */
  lemma BodyDecodes(req: CharsetBody, rest: string)
    ensures ReadChunks(ChunkedBody(req) + rest) == Some(([Primer(req), Driver(req)], rest))
  {
    hide Chunk, ReadChunks, Driver;
    DriverSize(req);
    TwoChunksRead(Primer(req), Driver(req), rest);
  }

  // ---- The whole request ----

  /**
   * Section 6.3 for a request with a transfer coding: it must be chunked, once. The fields must hold
   * nothing else: section 5.6.1 of RFC 9110 has recipients skip empty list elements, and this reader
   * takes a field made of them alone for another coding.
   */
  function ReadChunkedMessage(s: string): Option<(Message, seq<string>, string)> {
    match ReadLine(s)
    case None => None
    case Some((line, rest)) =>
      match ParseRequestLine(line)
      case None => None
      case Some(head) =>
        match ParseFields(rest)
        case None => None
        case Some((hs, after)) =>
          if ValuesOf(hs, "transfer-encoding") != ["chunked"] then None else
          match ReadChunks(after)
          case None => None
          case Some((chunks, remains)) => Some((Message(head.0, head.1, head.2, hs, Joined(chunks)), chunks, remains))
  }

  function Joined(chunks: seq<string>): string {
    if chunks == [] then "" else chunks[0] + Joined(chunks[1..])
  }

  predicate AddsCoding(req: CharsetBody) {
    exists h :: h in req.extraHeaders && h.name != "" && FieldNamed(h, "transfer-encoding")
  }

  lemma CodingIff(req: CharsetBody)
    ensures ValuesOf(CharsetFields(req), "transfer-encoding") == ["chunked"] <==> !AddsCoding(req)
  {
    hide Named, ValuesOf;
    var fixed, extra := [Header("Host", "localhost"), Header("Transfer-Encoding", "chunked")], Named(req.extraHeaders);
    FixedCoding();
    ValuesConcat(fixed, extra, "transfer-encoding");
    NamedIsPart(req.extraHeaders);
    if AddsCoding(req) {
      var h :| h in req.extraHeaders && h.name != "" && FieldNamed(h, "transfer-encoding");
      HasValue(extra, h, "transfer-encoding");
      assert |ValuesOf(CharsetFields(req), "transfer-encoding")| > 1;
    } else {
      NoValues(extra, "transfer-encoding");
    }
  }

  lemma FixedCoding()
    ensures ValuesOf([Header("Host", "localhost"), Header("Transfer-Encoding", "chunked")], "transfer-encoding") == ["chunked"]
  {
    hide FieldNamed;
    var h, t := Header("Host", "localhost"), Header("Transfer-Encoding", "chunked");
    assert [h, t][..1] == [h] && [h][..0] == [];
    FoldedNames();
  }

  lemma FoldedNames()
    ensures FieldNamed(Header("Transfer-Encoding", "chunked"), "transfer-encoding")
    ensures !FieldNamed(Header("Host", "localhost"), "transfer-encoding")
  {
    var name := "Transfer-Encoding";
    assert Fold(name) == "transfer-encoding";
    assert |Fold("Host")| == |"Host"|;
  }

  lemma {:induction false} HasValue(hs: seq<Header>, h: Header, lower: string)
    requires h in hs && FieldNamed(h, lower)
    ensures ValuesOf(hs, lower) != []
  {
    hide FieldNamed;
    if h != hs[|hs| - 1] {
      SplitLast(hs);
      HasValue(hs[..|hs| - 1], h, lower);
    }
  }

  lemma StartLineRead(req: CharsetBody)
    ensures '\r' !in StartLine(req)
    ensures ParseRequestLine(StartLine(req)) == Some((MethodOf(req), TargetUri(req.target), "HTTP/1.1"))
  {
    hide ParseRequestLine;
    assert ' ' !in MethodOf(req) && ' ' !in TargetUri(req.target);
    RequestLineRead(MethodOf(req), TargetUri(req.target), "HTTP/1.1");
    assert StartLine(req) == MethodOf(req) + " " + TargetUri(req.target) + " " + "HTTP/1.1";
  }

  lemma CharsetFieldsClean(req: CharsetBody)
    requires forall h :: h in req.extraHeaders && h.name != "" ==> CleanField(h)
    ensures forall h :: h in CharsetFields(req) ==> CleanField(h)
  {
    hide Named, CleanField;
    NamedIsPart(req.extraHeaders);
    HostClean();
    CodingClean();
  }

  lemma CodingClean()
    ensures CleanField(Header("Transfer-Encoding", "chunked"))
  {
    hide Lacks;
    CodingTextClean();
  }

  lemma CodingTextClean()
    ensures Lacks("Transfer-Encoding", {':', ' ', '\t', '\r', '\n'}) && Lacks("chunked", {'\r', '\n'})
  {
    NameLacks("Transfer-Encoding");
  }

  // ---- What the request asks for, field by field ----

  /** The translation a path is configured for. */
  function PathTarget(path: string): Option<XlateTarget> {
    if path == "/jp" then Some(XT_JP)
    else if path == "/jp2" then Some(XT_JP2)
    else if path == "/kr" then Some(XT_KR)
    else if path == "/cn" then Some(XT_CN)
    else None
  }

  /** The fixed fields, then the extra headers that have a name, in order. */
  ghost predicate FieldsAsked(req: CharsetBody, fs: seq<Header>) {
    && |fs| >= 2 && fs[0] == Header("Host", "localhost") && fs[1] == Header("Transfer-Encoding", "chunked")
    && ShowsKept(req.extraHeaders, HasName, SameField, fs[2..])
  }

  /** The start of the given primer, cut to seven octets, or an escape if there is none. */
  predicate PrimerAsked(req: CharsetBody, data: string) {
    if req.primer == "" then data == [0x1b as char]
    else data <= req.primer && (data == req.primer || |data| == 7)
  }

  /** `k` copies of the unit, one after the other. */
  predicate Repeats(data: string, unit: string, k: nat)
    requires unit != ""
  {
    |data| == k * |unit| && forall i :: 0 <= i < |data| ==> data[i] == unit[i % |unit|]
  }

  /** The unit as often as asked for, but no more often than it takes to have 8192 octets. */
  ghost predicate Fills(data: string, unit: string, most: nat)
    requires unit != ""
  {
    exists k: nat ::
      && 0 < k <= most && Repeats(data, unit, k)
      && |data| - |unit| < 8192 && (k == most || |data| >= 8192)
  }

  /** The driver, or an escape if there is none, as often as asked for and at least once. */
  ghost predicate DriverAsked(req: CharsetBody, data: string) {
    Fills(data, if req.driver == "" then [0x1b as char] else req.driver,
          if req.driverRepeat == 0 then 1 else req.driverRepeat)
  }

  ghost predicate CharsetAsked(req: CharsetBody, m: Message, chunks: seq<string>) {
    && m.reqMethod == (if req.usePut then "PUT" else "POST")
    && PathTarget(m.target) == Some(req.target) && m.version == "HTTP/1.1"
    && FieldsAsked(req, m.fields)
    && |chunks| == 2 && PrimerAsked(req, chunks[0]) && DriverAsked(req, chunks[1])
    && m.body == chunks[0] + chunks[1]
  }

  lemma {:induction false} CopiesRepeat(unit: string, k: nat)
    requires unit != ""
    ensures Repeats(Copies(unit, k), unit, k)
  {
    if k > 0 {
      CopiesRepeat(unit, k - 1);
      var data, n := Copies(unit, k), |unit|;
      forall i | 0 <= i < |data|
        ensures data[i] == unit[i % n]
      {
        if i >= (k - 1) * n {
          InLastCopy(i, k - 1, n);
        }
      }
    }
  }

  lemma InLastCopy(i: nat, k: nat, n: nat)
    requires n > 0 && k * n <= i < (k + 1) * n
    ensures i % n == i - k * n
  {
    var rem := i - k * n;
    Monotone(0, 1, n);
    assert rem < n;
    QuotientIs(i, k, n, rem);
  }

  lemma QuotientIs(i: nat, k: nat, n: nat, rem: nat)
    requires n > 0 && i == k * n + rem && rem < n
    ensures i % n == rem
  {
    var q := i / n;
    assert i == q * n + i % n;
    if q < k {
      Monotone(q + 1, k, n);
    } else if q > k {
      Monotone(k + 1, q, n);
    }
  }

  lemma DriverIsAsked(req: CharsetBody)
    ensures DriverAsked(req, Driver(req))
  {
    var unit, most := Unit(req), Repeat(req);
    var size, k := |unit|, CopyCount(|unit|, most);
    var enough := (DRIVER_ENOUGH + size - 1) / size;
    EnoughCopies(size);
    CopiesRepeat(unit, k);
    Monotone(k, enough, size);
    Monotone(1, k, size);
    hide Copies, Repeats;
    assert (enough - 1) * size == enough * size - size;
    assert |Driver(req)| == k * size;
    var data := Driver(req);
    assert Repeats(data, unit, k) && 0 < k <= most;
    assert |data| - size < 8192;
    assert k == most || |data| >= 8192;
    assert Fills(data, unit, most);
  }

  lemma CharsetIsAsked(req: CharsetBody)
    ensures CharsetAsked(req, Message(MethodOf(req), TargetUri(req.target), "HTTP/1.1", CharsetFields(req),
                                      Primer(req) + Driver(req)), [Primer(req), Driver(req)])
  {
    hide Named, Driver, DriverAsked, ShowsKept;
    NamedInOrder(req.extraHeaders);
    assert CharsetFields(req)[2..] == Named(req.extraHeaders);
    DriverIsAsked(req);
  }

  /**
   * With clean extra fields what the request asks for is read, in two chunks and nothing left over,
   * exactly if none of them is another Transfer-Encoding; if one is, the request is refused.
   */
  lemma CharsetReadIff(req: CharsetBody, rest: string)
    requires forall h :: h in req.extraHeaders && h.name != "" ==> CleanField(h)
    ensures var r := ReadChunkedMessage(PrintCharset(req) + rest);
            if AddsCoding(req) then r == None
            else r.Some? && CharsetAsked(req, r.value.0, r.value.1) && r.value.2 == rest
  {
    hide CharsetFields, CleanField, Lines, ReadLine, ParseFields, ParseRequestLine, ReadChunks, ChunkedBody,
         StartLine, Primer, Driver, ValuesOf, AddsCoding, MethodOf, TargetUri, CharsetAsked;
    var tail := Lines(CharsetFields(req)) + CRLF + (ChunkedBody(req) + rest);
    assert PrintCharset(req) + rest == StartLine(req) + CRLF + tail;
    StartLineRead(req);
    ReadLineOf(StartLine(req), tail);
    CharsetFieldsClean(req);
    FieldsRead(CharsetFields(req), ChunkedBody(req) + rest);
    CodingIff(req);
    BodyDecodes(req, rest);
    JoinedTwo(Primer(req), Driver(req));
    CharsetIsAsked(req);
  }

  lemma JoinedTwo(a: string, b: string)
    ensures Joined([a, b]) == a + b
  {
    assert [a, b][1..] == [b] && [b][1..] == [];
    assert Joined([b]) == b + "" == b;
  }
}
