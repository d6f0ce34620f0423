/**
 * The AJP response printer and a decoder of the AJPv13 packets a servlet container sends, with the
 * exact condition under which the decoder recovers what was printed.
 */
module Ajp {
  import opened Common
  import opened Octets

  datatype ResponseCode = OK_200 | CREATED_201 | REDIRECT_301 | REDIRECT_302 | NOT_MODIFIED_304 | BAD_REQUEST_400
    | UNAUTHORIZED_401 | FORBIDDEN_403 | NOT_FOUND_404 | SERVER_ERROR_500 | BAD_GATEWAY_502 | SERVICE_UNAVAILABLE_503

  datatype EncodedHeader = CONTENT_TYPE | CONTENT_LANGUAGE | CONTENT_LENGTH | DATE | LAST_MODIFIED | LOCATION
    | SET_COOKIE | SET_COOKIE2 | SERVLET_ENGINE | STATUS | WWW_AUTHENTICATE | RAW

  datatype ResponseHeader = ResponseHeader(code: EncodedHeader, rawName: Option<string>, value: string)

  datatype Response = Response(status: ResponseCode, statusMsg: Option<string>, headers: seq<ResponseHeader>,
                               bodyChunks: seq<string>, reuse: bool, sendCpong: bool)

  function StatusFromCode(c: ResponseCode): U16 {
    match c
    case OK_200 => 200
    case CREATED_201 => 201
    case REDIRECT_301 => 301
    case REDIRECT_302 => 302
    case NOT_MODIFIED_304 => 304
    case BAD_REQUEST_400 => 400
    case UNAUTHORIZED_401 => 401
    case FORBIDDEN_403 => 403
    case NOT_FOUND_404 => 404
    case SERVER_ERROR_500 => 500
    case BAD_GATEWAY_502 => 502
    case SERVICE_UNAVAILABLE_503 => 503
  }

  function EncodedHeaderCode(c: EncodedHeader): (n: U16)
    ensures c == RAW <==> n == 0
    ensures n != 0 ==> 0xA001 <= n <= 0xA00B
  {
    match c
    case CONTENT_TYPE => 0xA001
    case CONTENT_LANGUAGE => 0xA002
    case CONTENT_LENGTH => 0xA003
    case DATE => 0xA004
    case LAST_MODIFIED => 0xA005
    case LOCATION => 0xA006
    case SET_COOKIE => 0xA007
    case SET_COOKIE2 => 0xA008
    case SERVLET_ENGINE => 0xA009
    case STATUS => 0xA00A
    case WWW_AUTHENTICATE => 0xA00B
    case RAW => 0
  }

  // ---- The messages a response consists of ----

  datatype HeaderName = Coded(code: U16) | Literal(name: string)

  datatype Field = Field(name: HeaderName, value: string)

  datatype Message =
    | Cpong
    | SendHeaders(status: U16, message: string, fields: seq<Field>)
    | SendBodyChunk(data: string)
    | EndResponse(reuse: bool)

  function FieldOf(h: ResponseHeader): Field {
    var code := EncodedHeaderCode(h.code);
    Field(if code != 0 then Coded(code) else Literal(if h.rawName.Some? then h.rawName.value else "X-Custom"), h.value)
  }

  function FieldsOf(hs: seq<ResponseHeader>): (fs: seq<Field>)
    ensures |fs| == |hs|
  {
    if hs == [] then [] else FieldsOf(hs[..|hs| - 1]) + [FieldOf(hs[|hs| - 1])]
  }

  function ChunksOf(cs: seq<string>): seq<Message> {
    if cs == [] then [] else
    var front, c := ChunksOf(cs[..|cs| - 1]), cs[|cs| - 1];
    if c == "" then front else front + [SendBodyChunk(c)]
  }

  function HeadersMessage(r: Response): Message {
    SendHeaders(StatusFromCode(r.status), if r.statusMsg.Some? then r.statusMsg.value else "OK", FieldsOf(r.headers))
  }

  /** What the response says, message by message; empty body chunks are left out. */
  function MessagesOf(r: Response): seq<Message> {
    (if r.sendCpong then [Cpong] else []) + [HeadersMessage(r)] + ChunksOf(r.bodyChunks) + [EndResponse(r.reuse)]
  }

  // ---- Their text ----

  function StringText(s: string): string {
    Octets2(|s| % 0x1_0000) + s + [Octet(0)]
  }

  function FieldText(f: Field): string {
    (match f.name case Coded(c) => Octets2(c) case Literal(n) => StringText(n)) + StringText(f.value)
  }

  function FieldsText(fs: seq<Field>): string {
    if fs == [] then "" else FieldsText(fs[..|fs| - 1]) + FieldText(fs[|fs| - 1])
  }

  function Payload(m: Message): string {
    match m
    case Cpong => [Octet(9)]
    case SendHeaders(status, msg, fs) =>
      [Octet(4)] + Octets2(status) + StringText(msg) + Octets2(|fs| % 0x1_0000) + FieldsText(fs)
    case SendBodyChunk(data) => [Octet(3)] + Octets2(|data| % 0x1_0000) + data + [Octet(0)]
    case EndResponse(reuse) => [Octet(5)] + [Octet(if reuse then 1 else 0)]
  }

  function PacketText(payload: string): string {
    [Octet(0x41)] + [Octet(0x42)] + Octets2(|payload| % 0x1_0000) + payload
  }

  function PacketsText(ms: seq<Message>): string {
    if ms == [] then "" else PacketsText(ms[..|ms| - 1]) + PacketText(Payload(ms[|ms| - 1]))
  }

  // ---- The printer ----

  method AppendString(buf: Buffer, s: string)
    modifies buf
    ensures buf.data == old(buf.data) + StringText(s)
  {
    buf.Append(Octets2(|s| % 0x1_0000));
    buf.Append(s);
    buf.Append([Octet(0)]);
    ThreeAppends(old(buf.data), Octets2(|s| % 0x1_0000), s, [Octet(0)]);
  }

  method WrapPacket(payload: string) returns (pkt: string)
    ensures pkt == PacketText(payload)
  {
    pkt := [Octet(0x41)];
    pkt := pkt + [Octet(0x42)];
    pkt := pkt + Octets2(|payload| % 0x1_0000);
    pkt := pkt + payload;
  }

  method BuildHeadersPayload(r: Response) returns (payload: string)
    ensures payload == Payload(HeadersMessage(r))
  {
    hide StringText, FieldText, FieldsText, FieldOf, FieldsOf, Octets2;
    var buf := new Buffer();
    buf.Append([Octet(4)]);
    assert buf.data == [Octet(4)];
    buf.Append(Octets2(StatusFromCode(r.status)));
    AppendString(buf, if r.statusMsg.Some? then r.statusMsg.value else "OK");
    buf.Append(Octets2(|r.headers| % 0x1_0000));
    AppendFields(buf, r.headers);
    payload := buf.data;
  }

  method AppendFields(buf: Buffer, hs: seq<ResponseHeader>)
    modifies buf
    ensures buf.data == old(buf.data) + FieldsText(FieldsOf(hs))
  {
    hide StringText, FieldText, FieldsText, FieldsOf, Octets2;
    NoFields();
    for i := 0 to |hs|
      invariant buf.data == old(buf.data) + FieldsText(FieldsOf(hs[..i]))
    {
      assert hs[..i + 1] == hs[..i] + [hs[i]];
      FieldsSnoc(old(buf.data), hs[..i], hs[i]);
      var h := hs[i];
      var code := EncodedHeaderCode(h.code);
      if code != 0 {
        buf.Append(Octets2(code));
      } else {
        AppendString(buf, if h.rawName.Some? then h.rawName.value else "X-Custom");
      }
      AppendString(buf, h.value);
    }
    assert hs[..|hs|] == hs;
  }

  lemma NoFields()
    ensures FieldsOf([]) == [] && FieldsText([]) == ""
  {
  }

  lemma FieldsSnoc(before: string, hs: seq<ResponseHeader>, h: ResponseHeader)
    ensures var f := FieldOf(h);
            before + FieldsText(FieldsOf(hs + [h])) ==
            before + FieldsText(FieldsOf(hs)) +
            (match f.name case Coded(c) => Octets2(c) case Literal(n) => StringText(n)) + StringText(f.value)
  {
    hide Octets2, StringText, FieldOf;
    assert (hs + [h])[..|hs|] == hs;
    var fs := FieldsOf(hs);
    assert (fs + [FieldOf(h)])[..|fs|] == fs;
  }

  method BuildAjpResponse(r: Response) returns (result: string)
    ensures result == PacketsText(MessagesOf(r))
  {
    hide PacketText, PacketsText, Payload, ChunksOf;
    result := "";
    NoPackets();
    ghost var ms := [];
    if r.sendCpong {
      PacketsSnoc(ms, Cpong);
      CpongPayload();
      var pkt := WrapPacket([Octet(9)]);
      result := result + pkt;
      ms := ms + [Cpong];
    }
    PacketsSnoc(ms, HeadersMessage(r));
    var payload := BuildHeadersPayload(r);
    var pkt := WrapPacket(payload);
    result := result + pkt;
    ms := ms + [HeadersMessage(r)];
    result := AddChunks(result, ms, r.bodyChunks);
    ms := ms + ChunksOf(r.bodyChunks);
    PacketsSnoc(ms, EndResponse(r.reuse));
    EndPayload(r.reuse);
    pkt := WrapPacket([Octet(5)] + [Octet(if r.reuse then 1 else 0)]);
    result := result + pkt;
    assert ms + [EndResponse(r.reuse)] == MessagesOf(r);
  }

  method AddChunks(before: string, ghost ms: seq<Message>, chunks: seq<string>) returns (result: string)
    requires before == PacketsText(ms)
    ensures result == PacketsText(ms + ChunksOf(chunks))
  {
    hide PacketText, PacketsText, Payload, ChunksOf, Octets2;
    result := before;
    NoPackets();
    assert ms + [] == ms;
    for i := 0 to |chunks|
      invariant result == PacketsText(ms + ChunksOf(chunks[..i]))
    {
      var data := chunks[i];
      assert chunks[..i + 1] == chunks[..i] + [data];
      ChunksSnoc(ms, chunks[..i], data);
      if data == "" {
        continue;
      }
      PacketsSnoc(ms + ChunksOf(chunks[..i]), SendBodyChunk(data));
      ChunkPayload(data);
      var payload := [Octet(3)];
      payload := payload + Octets2(|data| % 0x1_0000);
      payload := payload + data;
      payload := payload + [Octet(0)];
      var pkt := WrapPacket(payload);
      result := result + pkt;
    }
    assert chunks[..|chunks|] == chunks;
  }

  lemma NoPackets()
    ensures PacketsText([]) == "" && ChunksOf([]) == []
  {
  }

  lemma CpongPayload()
    ensures Payload(Cpong) == [Octet(9)]
  {
  }

  lemma EndPayload(reuse: bool)
    ensures Payload(EndResponse(reuse)) == [Octet(5)] + [Octet(if reuse then 1 else 0)]
  {
  }

  lemma ChunkPayload(data: string)
    ensures Payload(SendBodyChunk(data)) == [Octet(3)] + Octets2(|data| % 0x1_0000) + data + [Octet(0)]
  {
  }

  lemma PacketsSnoc(ms: seq<Message>, m: Message)
    ensures PacketsText(ms + [m]) == PacketsText(ms) + PacketText(Payload(m))
  {
    hide PacketText, Payload;
    assert (ms + [m])[..|ms|] == ms;
  }

  lemma ChunksSnoc(ms: seq<Message>, cs: seq<string>, c: string)
    ensures ms + ChunksOf(cs + [c]) == if c == "" then ms + ChunksOf(cs) else ms + ChunksOf(cs) + [SendBodyChunk(c)]
  {
    assert (cs + [c])[..|cs|] == cs;
  }

  // ---- A decoder of AJPv13 responses ----

  /** A two-octet number at the front. */
  function Decode16(s: string): (r: Option<(U16, string)>)
    ensures r.Some? ==> |s| == 2 + |r.value.1|
  {
    if |s| < 2 || s[0] as int >= 0x100 || s[1] as int >= 0x100 then None else
    NumberOfTwo(s[0], s[1]);
    Some((Number([s[0], s[1]]), s[2..]))
  }

  /** A length, that many octets, and a zero octet; the length 0xFFFF means no string at all. */
  function DecodeString(s: string): (r: Option<(string, string)>)
    ensures r.Some? ==> |s| == 3 + |r.value.0| + |r.value.1|
  {
    match Decode16(s)
    case None => None
    case Some((n, rest)) =>
      if n == 0xFFFF || |rest| < n + 1 || rest[n] != Octet(0) then None else Some((rest[..n], rest[n + 1..]))
  }

  /** A number in 0xA000..0xA0FF is a header code, of which eleven are known; else a string follows. */
  function DecodeName(s: string): (r: Option<(HeaderName, string)>)
    ensures r.Some? ==> |s| == NameSize(r.value.0) + |r.value.1| && NameFits(r.value.0)
  {
    match Decode16(s)
    case None => None
    case Some((n, rest)) =>
      if n / 0x100 == 0xA0 then (if 0xA001 <= n <= 0xA00B then Some((Coded(n), rest)) else None) else
      match DecodeString(s)
      case None => None
      case Some((name, after)) => Some((Literal(name), after))
  }

  function NameSize(n: HeaderName): nat {
    match n case Coded(_) => 2 case Literal(s) => 3 + |s|
  }

  /** The name cannot be taken for something else: a literal one's length does not look like a code. */
  predicate NameFits(n: HeaderName) {
    match n case Coded(c) => 0xA001 <= c <= 0xA00B case Literal(s) => |s| / 0x100 != 0xA0
  }

  function DecodeField(s: string): (r: Option<(Field, string)>)
    ensures r.Some? ==> |s| == FieldSize(r.value.0) + |r.value.1| && NameFits(r.value.0.name)
  {
    match DecodeName(s)
    case None => None
    case Some((name, rest)) =>
      match DecodeString(rest)
      case None => None
      case Some((value, after)) => Some((Field(name, value), after))
  }

  function FieldSize(f: Field): nat {
    NameSize(f.name) + 3 + |f.value|
  }

  function FieldsSize(fs: seq<Field>): nat {
    if fs == [] then 0 else FieldSize(fs[0]) + FieldsSize(fs[1..])
  }

  function DecodeFields(s: string, n: nat): (r: Option<seq<Field>>)
    ensures r.Some? ==> |s| == FieldsSize(r.value) && |r.value| == n && forall f :: f in r.value ==> NameFits(f.name)
  {
    if n == 0 then (if s == "" then Some([]) else None) else
    match DecodeField(s)
    case None => None
    case Some((f, rest)) =>
      match DecodeFields(rest, n - 1)
      case None => None
      case Some(fs) =>
        assert ([f] + fs)[1..] == fs;
        Some([f] + fs)
  }

  function DecodeHeaders(s: string): (r: Option<Message>)
    ensures r.Some? ==> Size(r.value) == 1 + |s| && NamesFit(r.value)
  {
    match Decode16(s)
    case None => None
    case Some((status, s1)) =>
      match DecodeString(s1)
      case None => None
      case Some((msg, s2)) =>
        match Decode16(s2)
        case None => None
        case Some((n, s3)) =>
          match DecodeFields(s3, n)
          case None => None
          case Some(fs) => Some(SendHeaders(status, msg, fs))
  }

  /** The octets of a message's payload. */
  function Size(m: Message): nat {
    match m
    case Cpong => 1
    case SendHeaders(_, msg, fs) => 8 + |msg| + FieldsSize(fs)
    case SendBodyChunk(data) => 4 + |data|
    case EndResponse(_) => 2
  }

  predicate NamesFit(m: Message) {
    m.SendHeaders? ==> forall f :: f in m.fields ==> NameFits(f.name)
  }

  function DecodePayload(p: string): (r: Option<Message>)
    ensures r.Some? ==> Size(r.value) == |p| && NamesFit(r.value)
  {
    if p == "" then None else
    match p[0] as int
    case 9 => if |p| == 1 then Some(Cpong) else None
    case 4 => DecodeHeaders(p[1..])
    case 3 =>
      (match Decode16(p[1..])
       case None => None
       case Some((n, rest)) =>
         if |rest| == n + 1 && rest[n] == Octet(0) then Some(SendBodyChunk(rest[..n])) else None)
    case 5 => if |p| == 2 && p[1] as int <= 1 then Some(EndResponse(p[1] as int == 1)) else None
    case _ => None
  }

  /** 'A', 'B', a length, and that many octets. */
  function DecodePacket(s: string): (r: Option<(string, string)>)
    ensures r.Some? ==> |r.value.1| < |s| && |r.value.0| <= 0xFFFF
  {
    if |s| < 4 || s[0] != Octet(0x41) || s[1] != Octet(0x42) then None else
    match Decode16(s[2..])
    case None => None
    case Some((n, rest)) => if |rest| < n then None else Some((rest[..n], rest[n..]))
  }

  function DecodeAll(s: string): (r: Option<seq<Message>>)
    ensures r.Some? ==> forall m :: m in r.value ==> Encodable(m)
    decreases |s|
  {
    if s == "" then Some([]) else
    match DecodePacket(s)
    case None => None
    case Some((p, rest)) =>
      match DecodePayload(p)
      case None => None
      case Some(m) =>
        PayloadSize(m);
        match DecodeAll(rest)
        case None => None
        case Some(ms) => Some([m] + ms)
  }

  /** The payload fits its length field and no literal header name looks like a code. */
  predicate Encodable(m: Message) {
    |Payload(m)| <= 0xFFFF && NamesFit(m)
  }

  lemma {:induction false} FieldsTextSize(fs: seq<Field>)
    ensures |FieldsText(fs)| == FieldsSize(fs)
  {
    if fs != [] {
      assert fs == [fs[0]] + fs[1..];
      FieldsFront(fs[0], fs[1..]);
      FieldsTextSize(fs[1..]);
    }
  }

  lemma PayloadSize(m: Message)
    ensures |Payload(m)| == Size(m)
  {
    if m.SendHeaders? {
      hide FieldsText, FieldsSize;
      FieldsTextSize(m.fields);
    }
  }

  // ---- The round trip ----

  lemma Decode16RoundTrip(n: U16, rest: string)
    ensures Decode16(Octets2(n) + rest) == Some((n, rest))
  {
    hide Number;
    Octets2RoundTrip(n);
    var s := Octets2(n) + rest;
    assert [s[0], s[1]] == Octets2(n) && s[2..] == rest;
  }

  /** A string's length is cut to sixteen bits. */
  lemma LengthReadsCut(t: string, rest: string)
    ensures Decode16(StringText(t) + rest) == Some((|t| % 0x1_0000, t + [Octet(0)] + rest))
  {
    hide Octets2, Decode16;
    var body := t + [Octet(0)] + rest;
    assert StringText(t) + rest == Octets2(|t| % 0x1_0000) + body;
    Decode16RoundTrip(|t| % 0x1_0000, body);
  }

  lemma StringRoundTrip(t: string, rest: string)
    requires |t| < 0xFFFF
    ensures DecodeString(StringText(t) + rest) == Some((t, rest))
    ensures Decode16(StringText(t) + rest) == Some((|t|, t + [Octet(0)] + rest))
  {
    hide StringText, Decode16;
    LengthReadsCut(t, rest);
    var body := t + [Octet(0)] + rest;
    assert body[..|t|] == t && body[|t| + 1..] == rest && body[|t|] == Octet(0);
  }

  lemma NameRoundTrip(n: HeaderName, rest: string)
    requires NameFits(n) && NameSize(n) <= 0xFFFF
    ensures DecodeName((match n case Coded(c) => Octets2(c) case Literal(s) => StringText(s)) + rest) == Some((n, rest))
  {
    hide Octets2, StringText, Decode16, DecodeString;
    match n
    case Coded(c) => Decode16RoundTrip(c, rest);
    case Literal(s) => StringRoundTrip(s, rest);
  }

  lemma FieldRoundTrip(f: Field, rest: string)
    requires NameFits(f.name) && FieldSize(f) <= 0xFFFF
    ensures DecodeField(FieldText(f) + rest) == Some((f, rest))
  {
    hide Octets2, StringText, DecodeName, DecodeString;
    var name := match f.name case Coded(c) => Octets2(c) case Literal(s) => StringText(s);
    assert FieldText(f) + rest == name + (StringText(f.value) + rest);
    NameRoundTrip(f.name, StringText(f.value) + rest);
    StringRoundTrip(f.value, rest);
  }

  lemma {:induction false} FieldsFront(f: Field, fs: seq<Field>)
    ensures FieldsText([f] + fs) == FieldText(f) + FieldsText(fs)
  {
    hide FieldText;
    if fs == [] {
      assert [f] + fs == [f] && [f][..0] == [];
    } else {
      assert ([f] + fs)[..|fs|] == [f] + fs[..|fs| - 1];
      FieldsFront(f, fs[..|fs| - 1]);
      hide FieldsText;
      ConcatAssociative(FieldText(f), FieldsText(fs[..|fs| - 1]), FieldText(fs[|fs| - 1]));
    }
  }

  lemma {:induction false} FieldsRoundTrip(fs: seq<Field>)
    requires FieldsSize(fs) <= 0xFFFF && forall f :: f in fs ==> NameFits(f.name)
    ensures DecodeFields(FieldsText(fs), |fs|) == Some(fs)
    ensures |fs| <= FieldsSize(fs)
  {
    hide FieldText, DecodeField, NameFits;
    if fs != [] {
      var f, tail := fs[0], fs[1..];
      assert fs == [f] + tail && f in fs;
      FieldsFront(f, tail);
      FieldRoundTrip(f, FieldsText(tail));
      FieldsRoundTrip(tail);
    }
  }

  lemma HeadersRoundTrip(status: U16, msg: string, fs: seq<Field>)
    requires 8 + |msg| + FieldsSize(fs) <= 0xFFFF && forall f :: f in fs ==> NameFits(f.name)
    ensures DecodePayload(Payload(SendHeaders(status, msg, fs))) == Some(SendHeaders(status, msg, fs))
  {
    hide Octets2, StringText, Decode16, DecodeString, DecodeFields, FieldsText, FieldsSize, NameFits;
    FieldsRoundTrip(fs);
    var s3 := FieldsText(fs);
    var s2 := Octets2(|fs|) + s3;
    var s1 := StringText(msg) + s2;
    var p := Payload(SendHeaders(status, msg, fs));
    assert p[1..] == Octets2(status) + s1 && p[0] == Octet(4);
    Decode16RoundTrip(status, s1);
    StringRoundTrip(msg, s2);
    Decode16RoundTrip(|fs|, s3);
  }

  lemma ChunkRoundTrip(data: string)
    requires Encodable(SendBodyChunk(data))
    ensures DecodePayload(Payload(SendBodyChunk(data))) == Some(SendBodyChunk(data))
  {
    PayloadSize(SendBodyChunk(data));
    hide Octets2, Decode16;
    var p, rest := Payload(SendBodyChunk(data)), data + [Octet(0)];
    assert p[1..] == Octets2(|data|) + rest && p[0] == Octet(3);
    Decode16RoundTrip(|data|, rest);
    assert rest[..|data|] == data;
  }

  lemma PayloadRoundTrip(m: Message)
    requires Encodable(m)
    ensures DecodePayload(Payload(m)) == Some(m)
  {
    match m
    case Cpong =>
    case SendHeaders(status, msg, fs) =>
      PayloadSize(m);
      HeadersRoundTrip(status, msg, fs);
    case SendBodyChunk(data) => ChunkRoundTrip(data);
    case EndResponse(_) =>
  }

  /** A packet reads as a start of its payload, whose length is cut to sixteen bits. */
  lemma PacketReadsCut(p: string, rest: string)
    ensures var n := |p| % 0x1_0000; DecodePacket(PacketText(p) + rest) == Some((p[..n], p[n..] + rest))
  {
    hide Octets2, Decode16;
    var n := |p| % 0x1_0000;
    var s := PacketText(p) + rest;
    assert s[2..] == Octets2(n) + (p + rest) && s[0] == Octet(0x41) && s[1] == Octet(0x42);
    Decode16RoundTrip(n, p + rest);
    assert (p + rest)[..n] == p[..n] && (p + rest)[n..] == p[n..] + rest;
  }

  lemma PacketRoundTrip(p: string, rest: string)
    requires |p| <= 0xFFFF
    ensures DecodePacket(PacketText(p) + rest) == Some((p, rest))
  {
    hide DecodePacket, PacketText;
    PacketReadsCut(p, rest);
    assert p[..|p|] == p && p[|p|..] + rest == rest;
  }

  lemma {:induction false} PacketsFront(m: Message, ms: seq<Message>)
    ensures PacketsText([m] + ms) == PacketText(Payload(m)) + PacketsText(ms)
  {
    hide PacketText, Payload;
    if ms == [] {
      assert [m] + ms == [m] && [m][..0] == [];
    } else {
      assert ([m] + ms)[..|ms|] == [m] + ms[..|ms| - 1];
      PacketsFront(m, ms[..|ms| - 1]);
      hide PacketsText;
      ConcatAssociative(PacketText(Payload(m)), PacketsText(ms[..|ms| - 1]), PacketText(Payload(ms[|ms| - 1])));
    }
  }

  lemma {:induction false} EncodableDecodes(ms: seq<Message>)
    requires forall m :: m in ms ==> Encodable(m)
    ensures DecodeAll(PacketsText(ms)) == Some(ms)
  {
    hide PacketText, Payload, DecodePacket, DecodePayload, NamesFit, PacketsText;
    if ms == [] {
      NoPackets();
    } else {
      var m, tail := ms[0], ms[1..];
      assert ms == [m] + tail && m in ms;
      PacketsFront(m, tail);
      PayloadRoundTrip(m);
      PacketRoundTrip(Payload(m), PacketsText(tail));
      PacketNotEmpty(Payload(m));
      EncodableDecodes(tail);
    }
  }

  lemma PacketNotEmpty(p: string)
    ensures PacketText(p) != ""
  {
  }

  // ---- What the response asks for, field by field ----

  /** The status codes of section 15 of RFC 9110 the fuzzer knows. */
  function StatusOf(n: nat): Option<ResponseCode> {
    match n
    case 200 => Some(OK_200)
    case 201 => Some(CREATED_201)
    case 301 => Some(REDIRECT_301)
    case 302 => Some(REDIRECT_302)
    case 304 => Some(NOT_MODIFIED_304)
    case 400 => Some(BAD_REQUEST_400)
    case 401 => Some(UNAUTHORIZED_401)
    case 403 => Some(FORBIDDEN_403)
    case 404 => Some(NOT_FOUND_404)
    case 500 => Some(SERVER_ERROR_500)
    case 502 => Some(BAD_GATEWAY_502)
    case 503 => Some(SERVICE_UNAVAILABLE_503)
    case _ => None
  }

  /** The header AJPv13 has a code for. */
  function HeaderOf(code: nat): Option<EncodedHeader> {
    match code
    case 0xA001 => Some(CONTENT_TYPE)
    case 0xA002 => Some(CONTENT_LANGUAGE)
    case 0xA003 => Some(CONTENT_LENGTH)
    case 0xA004 => Some(DATE)
    case 0xA005 => Some(LAST_MODIFIED)
    case 0xA006 => Some(LOCATION)
    case 0xA007 => Some(SET_COOKIE)
    case 0xA008 => Some(SET_COOKIE2)
    case 0xA009 => Some(SERVLET_ENGINE)
    case 0xA00A => Some(STATUS)
    case 0xA00B => Some(WWW_AUTHENTICATE)
    case _ => None
  }

  /** The header's own code, or for a raw one its name spelled out, and its value. */
  predicate HeaderAsked(h: ResponseHeader, f: Field) {
    && f.value == h.value
    && match f.name
       case Coded(c) => HeaderOf(c) == Some(h.code)
       case Literal(n) => h.code == RAW && n == match h.rawName case Some(raw) => raw case None => "X-Custom"
  }

  predicate AllHeadersAsked(hs: seq<ResponseHeader>, fs: seq<Field>) {
    |fs| == |hs| && forall i :: 0 <= i < |hs| ==> HeaderAsked(hs[i], fs[i])
  }

  predicate HeadAsked(r: Response, m: Message) {
    && m.SendHeaders? && StatusOf(m.status) == Some(r.status)
    && m.message == (match r.statusMsg case Some(text) => text case None => "OK")
    && AllHeadersAsked(r.headers, m.fields)
  }

  predicate NotEmpty(data: string) {
    data != ""
  }

  predicate CarriedBy(data: string, m: Message) {
    m == SendBodyChunk(data)
  }

  /** A reply to a probe if asked for, the headers, every chunk that is not empty, and the end. */
  ghost predicate ResponseAsked(r: Response, ms: seq<Message>) {
    var at := if r.sendCpong then 1 else 0;
    var end := |ms| - 1;
    && at < end
    && (r.sendCpong ==> ms[0] == Cpong)
    && HeadAsked(r, ms[at])
    && ShowsKept(r.bodyChunks, NotEmpty, CarriedBy, ms[at + 1..end])
    && ms[end] == EndResponse(r.reuse)
  }

  lemma HeaderAskedIff(h: ResponseHeader, f: Field)
    ensures HeaderAsked(h, f) <==> f == FieldOf(h)
  {
  }

  lemma {:induction false} HeadersAskedIff(hs: seq<ResponseHeader>, fs: seq<Field>)
    ensures AllHeadersAsked(hs, fs) <==> fs == FieldsOf(hs)
  {
    if hs != [] && |fs| == |hs| {
      hide HeaderAsked, FieldOf, AllHeadersAsked;
      var n := |hs| - 1;
      HeadersAskedIff(hs[..n], fs[..n]);
      HeaderAskedIff(hs[n], fs[n]);
      LastHeaderAsked(hs, fs);
      SnocEqual(fs, FieldsOf(hs[..n]), FieldOf(hs[n]));
    }
  }

  lemma LastHeaderAsked(hs: seq<ResponseHeader>, fs: seq<Field>)
    requires hs != [] && |fs| == |hs|
    ensures var n := |hs| - 1;
            AllHeadersAsked(hs, fs) <==> AllHeadersAsked(hs[..n], fs[..n]) && HeaderAsked(hs[n], fs[n])
  {
    hide HeaderAsked;
  }

  lemma SnocEqual(fs: seq<Field>, front: seq<Field>, last: Field)
    requires fs != []
    ensures fs == front + [last] <==> fs[..|fs| - 1] == front && fs[|fs| - 1] == last
  {
    SplitLast(fs);
  }

  lemma StatusAskedIff(c: ResponseCode, n: nat)
    ensures StatusOf(n) == Some(c) <==> n == StatusFromCode(c)
  {
  }

  lemma HeadAskedIff(r: Response, m: Message)
    ensures HeadAsked(r, m) <==> m == HeadersMessage(r)
  {
    hide FieldsOf, AllHeadersAsked, StatusOf, StatusFromCode;
    if m.SendHeaders? {
      HeadersAskedIff(r.headers, m.fields);
      StatusAskedIff(r.status, m.status);
    }
  }

  lemma {:induction false} ChunksInOrder(cs: seq<string>)
    ensures ShowsKept(cs, NotEmpty, CarriedBy, ChunksOf(cs))
  {
    if cs == [] {
      ShowsNone(NotEmpty, CarriedBy);
    } else {
      var front, c := cs[..|cs| - 1], cs[|cs| - 1];
      ChunksInOrder(front);
      SplitLast(cs);
      if NotEmpty(c) {
        ShowsOneMore(front, c, NotEmpty, CarriedBy, ChunksOf(front), SendBodyChunk(c));
      } else {
        ShowsNoMore(front, c, NotEmpty, CarriedBy, ChunksOf(front));
      }
    }
  }

  lemma ChunksAskedIff(cs: seq<string>, ms: seq<Message>)
    ensures ShowsKept(cs, NotEmpty, CarriedBy, ms) <==> ms == ChunksOf(cs)
  {
    hide ChunksOf;
    ChunksInOrder(cs);
    if ShowsKept(cs, NotEmpty, CarriedBy, ms) {
      ShownOnce(cs, NotEmpty, CarriedBy, ms, ChunksOf(cs));
    }
  }

  lemma AskedIffMessages(r: Response, ms: seq<Message>)
    ensures ResponseAsked(r, ms) <==> ms == MessagesOf(r)
  {
    hide ChunksOf, HeadersMessage, HeadAsked, ShowsKept;
    var at, end := if r.sendCpong then 1 else 0, |ms| - 1;
    var all := MessagesOf(r);
    assert all[at] == HeadersMessage(r) && all[at + 1..|all| - 1] == ChunksOf(r.bodyChunks);
    if at < end {
      HeadAskedIff(r, ms[at]);
      ChunksAskedIff(r.bodyChunks, ms[at + 1..end]);
      assert ms == ms[..at] + [ms[at]] + ms[at + 1..end] + [ms[end]];
    }
  }

  /**
   * What the response asks for is recovered, message by message, exactly if each of its messages is
   * encodable.
   */
  lemma ResponseDecodesIff(r: Response)
    ensures var ms := DecodeAll(PacketsText(MessagesOf(r)));
            ms.Some? && ResponseAsked(r, ms.value) <==> forall m :: m in MessagesOf(r) ==> Encodable(m)
  {
    hide PacketsText, MessagesOf, ResponseAsked;
    if forall m :: m in MessagesOf(r) ==> Encodable(m) {
      EncodableDecodes(MessagesOf(r));
      AskedIffMessages(r, MessagesOf(r));
    }
    var ms := DecodeAll(PacketsText(MessagesOf(r)));
    if ms.Some? {
      AskedIffMessages(r, ms.value);
    }
  }
}
