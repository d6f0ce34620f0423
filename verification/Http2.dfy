/**
 * The HTTP/2 connection printer, a decoder of the frame layer after section 4.1 of RFC 7540, and a
 * reading of each frame's payload after its section 6.
 */
module Http2 {
  import opened Common
  import opened Octets
  import opened Http1
  import opened Hpack

  // ---- What is printed ----

  datatype SettingId = HEADER_TABLE_SIZE | ENABLE_PUSH | MAX_CONCURRENT_STREAMS | INITIAL_WINDOW_SIZE
    | MAX_FRAME_SIZE | MAX_HEADER_LIST_SIZE

  datatype Setting = Setting(id: SettingId, value: U32)

  datatype Body =
    | SettingsBody(settings: seq<Setting>, ack: bool)
    | DataBody(data: string, endStream: bool)
    | HeadersBody(headers: seq<Header>, endStream: bool, dep: Option<U32>, weight: Option<U32>)
    | WindowUpdateBody(increment: U32)
    | RstStreamBody(errorCode: U32)
    | GoawayBody(lastStreamId: U32, errorCode: U32, debugData: Option<string>)
    | PingBody(probe: Option<string>, ack: bool)
    | PriorityBody(depStreamId: U32, exclusive: bool, weight: Option<U32>)
    | ContinuationBody(headers: seq<Header>, endHeaders: bool)
    | NoBody

  datatype H2Frame = H2Frame(body: Body, streamId: Option<U32>)

  datatype Http2Request = Http2Request(frames: seq<H2Frame>, rawPreface: Option<string>)

  const PREFACE := "PRI * HTTP/2.0\r\n\r\nSM\r\n\r\n"

  // ---- Raw frames ----

  /** A frame as section 4.1 has it; the reserved bit is not part of it. */
  datatype RawFrame = RawFrame(kind: U8, flags: U8, streamId: nat, payload: string)

  function HeaderText(length: U32, kind: U8, flags: U8, streamId: U32): string {
    Octets3(length) + [Octet(kind), Octet(flags)] +
    [Octet(streamId / 0x100_0000 % 0x80), Octet(streamId / 0x1_0000 % 0x100), Octet(streamId / 0x100 % 0x100),
     Octet(streamId % 0x100)]
  }

  /** The length argument is the payload's size cut to 32 bits. */
  function FrameText(f: RawFrame): string
    requires f.streamId < 0x8000_0000
  {
    HeaderText(|f.payload| % 0x1_0000_0000, f.kind, f.flags, f.streamId) + f.payload
  }

  function SettingCode(id: SettingId): U16 {
    match id
    case HEADER_TABLE_SIZE => 1
    case ENABLE_PUSH => 2
    case MAX_CONCURRENT_STREAMS => 3
    case INITIAL_WINDOW_SIZE => 4
    case MAX_FRAME_SIZE => 5
    case MAX_HEADER_LIST_SIZE => 6
  }

  function SettingsText(ss: seq<Setting>): string {
    if ss == [] then "" else
    var s := ss[|ss| - 1];
    SettingsText(ss[..|ss| - 1]) + Octets2(SettingCode(s.id)) + Octets4(s.value)
  }

  function WeightOctet(weight: Option<U32>): U8 {
    if weight.Some? then weight.value % 0x100 else 16
  }

  function PriorityText(dep: U32, weight: Option<U32>): string {
    Octets4(dep) + [Octet(WeightOctet(weight))]
  }

  /** `dep |= 0x80000000` */
  function WithExclusive(dep: U32, exclusive: bool): U32 {
    if exclusive && dep < 0x8000_0000 then dep + 0x8000_0000 else dep
  }

  /** Eight octets: the first ones of the data, then zeros. */
  function PingText(data: Option<string>): (s: string)
    ensures |s| == 8
  {
    var d := if data.Some? then data.value else "";
    seq(8, i requires 0 <= i => if i < |d| then d[i] else Octet(0))
  }

  /** The frame a message is printed as, if any. */
  function Raw(f: H2Frame): (r: Option<RawFrame>)
    ensures r.Some? ==> r.value.streamId < 0x8000_0000
  {
    var id := (if f.streamId.Some? then f.streamId.value else 0) % 0x8000_0000;
    match f.body
    case SettingsBody(ss, ack) => Some(RawFrame(4, if ack then 1 else 0, 0, if ack then "" else SettingsText(ss)))
    case DataBody(data, end) => Some(RawFrame(0, if end then 1 else 0, id, data))
    case HeadersBody(hs, end, dep, weight) =>
      var flags := 4 + (if end then 1 else 0) + if dep.Some? then 0x20 else 0;
      var block := BlockText(Named(hs));
      Some(RawFrame(1, flags, id, if dep.Some? then PriorityText(dep.value, weight) + block else block))
    case WindowUpdateBody(inc) => Some(RawFrame(8, 0, id, Octets4(inc % 0x8000_0000)))
    case RstStreamBody(code) => Some(RawFrame(3, 0, id, Octets4(code)))
    case GoawayBody(last, code, debug) =>
      Some(RawFrame(7, 0, 0, Octets4(last) + Octets4(code) + if debug.Some? then debug.value else ""))
    case PingBody(data, ack) => Some(RawFrame(6, if ack then 1 else 0, 0, PingText(data)))
    case PriorityBody(dep, ex, weight) => Some(RawFrame(2, 0, id, PriorityText(WithExclusive(dep, ex), weight)))
    case ContinuationBody(hs, end) => Some(RawFrame(9, if end then 4 else 0, id, BlockText(Named(hs))))
    case NoBody => None
  }

  function Raws(fs: seq<H2Frame>): (rs: seq<RawFrame>)
    ensures forall r :: r in rs ==> r.streamId < 0x8000_0000
  {
    if fs == [] then [] else
    var front, r := Raws(fs[..|fs| - 1]), Raw(fs[|fs| - 1]);
    if r.Some? then front + [r.value] else front
  }

  function FramesText(rs: seq<RawFrame>): string
    requires forall r :: r in rs ==> r.streamId < 0x8000_0000
  {
    if rs == [] then "" else FramesText(rs[..|rs| - 1]) + FrameText(rs[|rs| - 1])
  }

  function Preface(req: Http2Request): string {
    if req.rawPreface.Some? then req.rawPreface.value else PREFACE
  }

  // ---- The printer ----

  method WriteFrameHeader(out: Buffer, length: U32, kind: U8, flags: U8, streamId: U32)
    modifies out
    ensures out.data == old(out.data) + HeaderText(length, kind, flags, streamId % 0x8000_0000)
  {
    out.Append([Octet(length / 0x1_0000 % 0x100)]);
    out.Append([Octet(length / 0x100 % 0x100)]);
    out.Append([Octet(length % 0x100)]);
    out.Append([Octet(kind)]);
    out.Append([Octet(flags)]);
    out.Append([Octet(streamId / 0x100_0000 % 0x80)]);
    out.Append([Octet(streamId / 0x1_0000 % 0x100)]);
    out.Append([Octet(streamId / 0x100 % 0x100)]);
    out.Append([Octet(streamId % 0x100)]);
    ReservedBit(streamId);
  }

  lemma ReservedBit(id: U32)
    ensures var low := id % 0x8000_0000;
            && low / 0x100_0000 % 0x80 == id / 0x100_0000 % 0x80
            && low / 0x1_0000 % 0x100 == id / 0x1_0000 % 0x100
            && low / 0x100 % 0x100 == id / 0x100 % 0x100
            && low % 0x100 == id % 0x100
  {
    if id >= 0x8000_0000 {
      var low := id - 0x8000_0000;
      assert id % 0x8000_0000 == low;
      ShiftByTop(low);
    } else {
      assert id % 0x8000_0000 == id;
    }
  }

  lemma ShiftByTop(low: nat)
    ensures (low + 0x8000_0000) / 0x100_0000 % 0x80 == low / 0x100_0000 % 0x80
    ensures (low + 0x8000_0000) / 0x1_0000 % 0x100 == low / 0x1_0000 % 0x100
    ensures (low + 0x8000_0000) / 0x100 % 0x100 == low / 0x100 % 0x100
    ensures (low + 0x8000_0000) % 0x100 == low % 0x100
  {
    ShiftFirst(low);
    ShiftSecond(low);
    ShiftThird(low);
    ShiftFourth(low);
  }

  lemma ShiftFirst(low: nat)
    ensures (low + 0x8000_0000) / 0x100_0000 % 0x80 == low / 0x100_0000 % 0x80
  {
    assert (low + 0x8000_0000) / 0x100_0000 == low / 0x100_0000 + 0x80;
  }

  lemma ShiftSecond(low: nat)
    ensures (low + 0x8000_0000) / 0x1_0000 % 0x100 == low / 0x1_0000 % 0x100
  {
    assert (low + 0x8000_0000) / 0x1_0000 == low / 0x1_0000 + 0x8000;
  }

  lemma ShiftThird(low: nat)
    ensures (low + 0x8000_0000) / 0x100 % 0x100 == low / 0x100 % 0x100
  {
    assert (low + 0x8000_0000) / 0x100 == low / 0x100 + 0x80_0000;
  }

  lemma ShiftFourth(low: nat)
    ensures (low + 0x8000_0000) % 0x100 == low % 0x100
  {
  }

  /** A header and the payload it announces. */
  method Emit(out: Buffer, kind: U8, flags: U8, streamId: U32, payload: string)
    modifies out
    ensures out.data == old(out.data) + FrameText(RawFrame(kind, flags, streamId % 0x8000_0000, payload))
  {
    hide HeaderText;
    WriteFrameHeader(out, |payload| % 0x1_0000_0000, kind, flags, streamId);
    out.Append(payload);
  }

  method BuildSettingsPayload(settings: seq<Setting>) returns (payload: string)
    ensures payload == SettingsText(settings)
  {
    payload := "";
    for i := 0 to |settings|
      invariant payload == SettingsText(settings[..i])
    {
      assert settings[..i + 1][..i] == settings[..i];
      payload := payload + Octets2(SettingCode(settings[i].id));
      payload := payload + Octets4(settings[i].value);
    }
    assert settings[..|settings|] == settings;
  }

  /** A header block, after the priority fields if there are any. */
  method HeadersPayload(dep: Option<U32>, weight: Option<U32>, headers: seq<Header>) returns (payload: string)
    ensures payload == if dep.Some? then PriorityText(dep.value, weight) + BlockText(Named(headers)) else BlockText(Named(headers))
  {
    hide BlockText, Named, Octets4;
    var buf := new Buffer();
    if dep.Some? {
      buf.Append(Octets4(dep.value));
      buf.Append([Octet(if weight.Some? then weight.value % 0x100 else 16)]);
    }
    WriteHpackHeaders(buf, headers);
    payload := buf.data;
  }

  method PingPayload(data: Option<string>) returns (payload: string)
    ensures payload == PingText(data)
  {
    var bytes := new char[8](_ => Octet(0));
    if data.Some? {
      var len := if |data.value| < 8 then |data.value| else 8;
      for i := 0 to len
        invariant forall j :: 0 <= j < 8 ==> bytes[j] == if j < i then data.value[j] else Octet(0)
      {
        bytes[i] := data.value[i];
      }
    }
    payload := bytes[..];
  }

  method WriteFrame(out: Buffer, f: H2Frame)
    modifies out
    ensures out.data == if Raw(f).Some? then old(out.data) + FrameText(Raw(f).value) else old(out.data)
  {
    hide FrameText, SettingsText, BlockText, Named, PriorityText, PingText, Octets4;
    var streamId := if f.streamId.Some? then f.streamId.value else 0;
    match f.body
    case SettingsBody(ss, ack) =>
      var flags := if ack then 1 else 0;
      if ack {
        Emit(out, 4, flags, 0, "");
      } else {
        var payload := BuildSettingsPayload(ss);
        Emit(out, 4, flags, 0, payload);
      }
    case DataBody(data, end) =>
      Emit(out, 0, if end then 1 else 0, streamId, data);
    case HeadersBody(hs, end, dep, weight) =>
      var flags := 4;
      if end {
        flags := flags + 1;
      }
      if dep.Some? {
        flags := flags + 0x20;
      }
      var payload := HeadersPayload(dep, weight, hs);
      Emit(out, 1, flags, streamId, payload);
    case WindowUpdateBody(inc) =>
      Emit(out, 8, 0, streamId, Octets4(inc % 0x8000_0000));
    case RstStreamBody(code) =>
      Emit(out, 3, 0, streamId, Octets4(code));
    case GoawayBody(last, code, debug) =>
      var payload := Octets4(last) + Octets4(code);
      payload := payload + if debug.Some? then debug.value else "";
      Emit(out, 7, 0, 0, payload);
    case PingBody(data, ack) =>
      var payload := PingPayload(data);
      Emit(out, 6, if ack then 1 else 0, 0, payload);
    case PriorityBody(dep, ex, weight) =>
      Emit(out, 2, 0, streamId, PriorityText(WithExclusive(dep, ex), weight));
    case ContinuationBody(hs, end) =>
      var payload := HeadersPayload(None, None, hs);
      Emit(out, 9, if end then 4 else 0, streamId, payload);
    case NoBody =>
  }

  method BuildHttp2Request(req: Http2Request) returns (text: string)
    ensures text == Preface(req) + FramesText(Raws(req.frames))
  {
    hide FramesText, Raws;
    var out := new Buffer();
    if req.rawPreface.Some? {
      out.Append(req.rawPreface.value);
    } else {
      out.Append(PREFACE);
    }
    WriteFrames(out, req.frames);
    text := out.data;
  }

  method WriteFrames(out: Buffer, fs: seq<H2Frame>)
    modifies out
    ensures out.data == old(out.data) + FramesText(Raws(fs))
  {
    hide FrameText, Raw, FramesText, Raws;
    NoFrames();
    for i := 0 to |fs|
      invariant out.data == old(out.data) + FramesText(Raws(fs[..i]))
    {
      ghost var before := fs[..i];
      assert fs[..i + 1] == before + [fs[i]];
      RawsSnoc(before, fs[i]);
      WriteFrame(out, fs[i]);
      if Raw(fs[i]).Some? {
        FramesSnoc(old(out.data), Raws(before), Raw(fs[i]).value);
      }
    }
    assert fs[..|fs|] == fs;
  }

  lemma NoFrames()
    ensures Raws([]) == [] && FramesText([]) == ""
  {
  }

  lemma RawsSnoc(fs: seq<H2Frame>, f: H2Frame)
    ensures Raws(fs + [f]) == if Raw(f).Some? then Raws(fs) + [Raw(f).value] else Raws(fs)
  {
    hide Raw;
    assert (fs + [f])[..|fs|] == fs;
  }

  lemma FramesSnoc(before: string, rs: seq<RawFrame>, r: RawFrame)
    requires (forall r :: r in rs ==> r.streamId < 0x8000_0000) && r.streamId < 0x8000_0000
    ensures before + FramesText(rs + [r]) == before + FramesText(rs) + FrameText(r)
  {
  }

  // ---- The frame layer, read back ----

  /** Section 4.1: a nine-octet header, the reserved bit ignored, and as much payload as it says. */
  function DecodeFrame(s: string): (r: Option<(RawFrame, string)>)
    ensures r.Some? ==> |r.value.1| < |s| && |r.value.0.payload| < 0x100_0000
  {
    if |s| < 9 || exists i :: 0 <= i < 9 && s[i] as int >= 0x100 then None else
    Bounded3(s[0], s[1], s[2]);
    var n := Number([s[0], s[1], s[2]]);
    if |s| < 9 + n then None else
    var id := Number([s[5], s[6], s[7], s[8]]) % 0x8000_0000;
    Some((RawFrame(s[3] as int, s[4] as int, id, s[9..9 + n]), s[9 + n..]))
  }

  lemma Bounded3(a: char, b: char, c: char)
    requires a as int < 0x100 && b as int < 0x100 && c as int < 0x100
    ensures Number([a, b, c]) < 0x100_0000
  {
    NumberOfFour(a, b, c, c);
  }

  function DecodeFrames(s: string): Option<seq<RawFrame>>
    decreases |s|
  {
    if s == "" then Some([]) else
    match DecodeFrame(s)
    case None => None
    case Some((r, rest)) =>
      match DecodeFrames(rest)
      case None => None
      case Some(rs) => Some([r] + rs)
  }

  predicate Fits(r: RawFrame) {
    r.streamId < 0x8000_0000 && |r.payload| < 0x100_0000
  }

  /** A frame reads as itself with a start of its payload, whose length is cut to 24 bits. */
  lemma FrameReadsCut(r: RawFrame, rest: string)
    requires r.streamId < 0x8000_0000
    ensures var n := |r.payload| % 0x100_0000;
            DecodeFrame(FrameText(r) + rest) == Some((r.(payload := r.payload[..n]), r.payload[n..] + rest))
  {
    hide Number, HeaderText;
    var size, id := |r.payload| % 0x1_0000_0000, r.streamId;
    var n := |r.payload| % 0x100_0000;
    var h := HeaderText(size, r.kind, r.flags, id);
    var s := FrameText(r) + rest;
    HeaderRoundTrip(size, r.kind, r.flags, id);
    CutTwice(|r.payload|);
    assert s == h + (r.payload + rest);
    assert s[9..9 + n] == r.payload[..n] && s[9 + n..] == r.payload[n..] + rest;
  }

  lemma CutTwice(n: nat)
    ensures n % 0x1_0000_0000 % 0x100_0000 == n % 0x100_0000
  {
    var q := n / 0x1_0000_0000;
    ModThree(q * 0x100 + n % 0x1_0000_0000 / 0x100_0000, n % 0x1_0000_0000 % 0x100_0000);
  }

  lemma FrameRoundTrip(r: RawFrame, rest: string)
    requires Fits(r)
    ensures DecodeFrame(FrameText(r) + rest) == Some((r, rest))
  {
    hide DecodeFrame, FrameText;
    FrameReadsCut(r, rest);
    var p := r.payload;
    assert p[..|p|] == p && p[|p|..] + rest == rest;
  }

  lemma HeaderRoundTrip(n: U32, kind: U8, flags: U8, id: U32)
    requires id < 0x8000_0000
    ensures var h := HeaderText(n, kind, flags, id);
            && |h| == 9 && (forall i :: 0 <= i < 9 ==> h[i] as int < 0x100)
            && Number([h[0], h[1], h[2]]) == n % 0x100_0000
            && h[3] as int == kind && h[4] as int == flags
            && Number([h[5], h[6], h[7], h[8]]) % 0x8000_0000 == id
  {
    hide Number;
    var h := HeaderText(n, kind, flags, id);
    Octets3RoundTrip(n);
    StreamIdRoundTrip(id);
    assert [h[0], h[1], h[2]] == Octets3(n);
  }

  lemma StreamIdRoundTrip(id: U32)
    requires id < 0x8000_0000
    ensures Number([Octet(id / 0x100_0000 % 0x80), Octet(id / 0x1_0000 % 0x100), Octet(id / 0x100 % 0x100),
                    Octet(id % 0x100)]) % 0x8000_0000 == id
  {
    hide Number;
    Octets4RoundTrip(id);
    assert id / 0x100_0000 % 0x80 == id / 0x100_0000 % 0x100;
  }

  lemma {:induction false} FramesFront(r: RawFrame, rs: seq<RawFrame>)
    requires (forall r :: r in rs ==> r.streamId < 0x8000_0000) && r.streamId < 0x8000_0000
    ensures FramesText([r] + rs) == FrameText(r) + FramesText(rs)
  {
    hide FrameText;
    if rs == [] {
      assert [r] + rs == [r] && [r][..0] == [];
    } else {
      assert ([r] + rs)[..|rs|] == [r] + rs[..|rs| - 1];
      FramesFront(r, rs[..|rs| - 1]);
    }
  }

  /** The frames read back in order exactly if every payload's size fits in the length field. */
  lemma FramesReadIff(rs: seq<RawFrame>)
    requires forall r :: r in rs ==> r.streamId < 0x8000_0000
    ensures DecodeFrames(FramesText(rs)) == Some(rs) <==> forall r :: r in rs ==> Fits(r)
  {
    DecodedFramesFit(FramesText(rs));
    if forall r :: r in rs ==> Fits(r) {
      FittingFramesRead(rs);
    }
  }

  lemma {:induction false} FittingFramesRead(rs: seq<RawFrame>)
    requires forall r :: r in rs ==> r.streamId < 0x8000_0000 && Fits(r)
    ensures DecodeFrames(FramesText(rs)) == Some(rs)
  {
    hide FrameText, DecodeFrame;
    if rs != [] {
      assert rs == [rs[0]] + rs[1..] && rs[0] in rs;
      FramesFront(rs[0], rs[1..]);
      FrameRoundTrip(rs[0], FramesText(rs[1..]));
      FittingFramesRead(rs[1..]);
    }
  }

  lemma {:induction false} DecodedFramesFit(s: string)
    ensures DecodeFrames(s).Some? ==> forall r :: r in DecodeFrames(s).value ==> |r.payload| < 0x100_0000
    decreases |s|
  {
    if s != "" && DecodeFrame(s).Some? {
      DecodedFramesFit(DecodeFrame(s).value.1);
    }
  }

  /** A connection starts with the preface it was given, or with the one of section 3.5. */
  predicate Prefaced(req: Http2Request, text: string) {
    if req.rawPreface.Some? then text == req.rawPreface.value else text == "PRI * HTTP/2.0\r\n\r\nSM\r\n\r\n"
  }

  /** The whole connection: the preface, then every printed frame in order. */
  lemma ConnectionRead(req: Http2Request)
    ensures var text, n := Preface(req) + FramesText(Raws(req.frames)), |Preface(req)|;
            && Prefaced(req, text[..n])
            && (DecodeFrames(text[n..]) == Some(Raws(req.frames)) <==>
                forall r :: r in Raws(req.frames) ==> |r.payload| < 0x100_0000)
  {
    hide DecodeFrames;
    var text, n := Preface(req) + FramesText(Raws(req.frames)), |Preface(req)|;
    assert text[..n] == Preface(req);
    assert text[n..] == FramesText(Raws(req.frames));
    FramesReadIff(Raws(req.frames));
  }

  // ---- What a frame means ----

  datatype Dependency = Dependency(exclusive: bool, on: nat, weight: nat)

  datatype Meaning =
    | DataMeaning(id: nat, data: string, endStream: bool)
    | HeadersMeaning(id: nat, endStream: bool, endHeaders: bool, priority: Option<Dependency>, headers: seq<Header>)
    | PriorityMeaning(id: nat, dependency: Dependency)
    | RstStreamMeaning(id: nat, errorCode: nat)
    | SettingsMeaning(ack: bool, entries: seq<(nat, nat)>)
    | PingMeaning(ack: bool, probe: string)
    | GoawayMeaning(last: nat, errorCode: nat, debug: string)
    | WindowUpdateMeaning(id: nat, increment: nat)
    | ContinuationMeaning(id: nat, endHeaders: bool, headers: seq<Header>)

  predicate Flag(flags: U8, bit: nat)
    requires bit > 0
  {
    flags / bit % 2 == 1
  }

  /** Sections 6.2 and 6.3: the dependency's top bit is the exclusive flag; the weight is one more. */
  function ReadDependency(s: string): Dependency
    requires |s| >= 5
  {
    var n := Number([s[0], s[1], s[2], s[3]]);
    Dependency(n >= 0x8000_0000, n % 0x8000_0000, s[4] as int + 1)
  }

  /** Section 6.5.1: a sequence of two-octet identifiers and four-octet values. */
  function ReadSettings(s: string): Option<seq<(nat, nat)>>
    decreases |s|
  {
    if s == "" then Some([]) else
    if |s| < 6 then None else
    match ReadSettings(s[6..])
    case None => None
    case Some(more) => Some([(Number([s[0], s[1]]), Number([s[2], s[3], s[4], s[5]]))] + more)
  }

  function ReadPayload(r: RawFrame): Option<Meaning> {
    var p := r.payload;
    match r.kind
    case 0 => Some(DataMeaning(r.streamId, p, Flag(r.flags, 1)))
    case 1 =>
      var prioritized := Flag(r.flags, 0x20);
      if prioritized && |p| < 5 then None else
      (match DecodeBlock(if prioritized then p[5..] else p)
       case None => None
       case Some(hs) => Some(HeadersMeaning(r.streamId, Flag(r.flags, 1), Flag(r.flags, 4),
                                            if prioritized then Some(ReadDependency(p)) else None, hs)))
    case 2 => if |p| != 5 then None else Some(PriorityMeaning(r.streamId, ReadDependency(p)))
    case 3 => if |p| != 4 then None else Some(RstStreamMeaning(r.streamId, Number(p)))
    case 4 =>
      if Flag(r.flags, 1) && p != "" then None else
      (match ReadSettings(p) case None => None case Some(es) => Some(SettingsMeaning(Flag(r.flags, 1), es)))
    case 6 => if |p| != 8 then None else Some(PingMeaning(Flag(r.flags, 1), p))
    case 7 =>
      if |p| < 8 then None
      else Some(GoawayMeaning(Number(p[..4]) % 0x8000_0000, Number(p[4..8]), p[8..]))
    case 8 => if |p| != 4 then None else Some(WindowUpdateMeaning(r.streamId, Number(p) % 0x8000_0000))
    case 9 =>
      (match DecodeBlock(p)
       case None => None
       case Some(hs) => Some(ContinuationMeaning(r.streamId, Flag(r.flags, 4), hs)))
    case _ => None
  }

  function Entries(ss: seq<Setting>): seq<(nat, nat)> {
    if ss == [] then [] else [(SettingCode(ss[0].id), ss[0].value)] + Entries(ss[1..])
  }

  function DependencyOf(dep: U32, exclusive: bool, weight: Option<U32>): Dependency {
    Dependency(exclusive || dep >= 0x8000_0000, dep % 0x8000_0000, WeightOctet(weight) + 1)
  }

  /** What the fuzzer's message asks for. */
  function Intended(f: H2Frame): Option<Meaning> {
    var id := (if f.streamId.Some? then f.streamId.value else 0) % 0x8000_0000;
    match f.body
    case SettingsBody(ss, ack) => Some(SettingsMeaning(ack, if ack then [] else Entries(ss)))
    case DataBody(data, end) => Some(DataMeaning(id, data, end))
    case HeadersBody(hs, end, dep, weight) =>
      Some(HeadersMeaning(id, end, true, if dep.Some? then Some(DependencyOf(dep.value, false, weight)) else None, Named(hs)))
    case WindowUpdateBody(inc) => Some(WindowUpdateMeaning(id, inc % 0x8000_0000))
    case RstStreamBody(code) => Some(RstStreamMeaning(id, code))
    case GoawayBody(last, code, debug) =>
      Some(GoawayMeaning(last % 0x8000_0000, code, if debug.Some? then debug.value else ""))
    case PingBody(data, ack) => Some(PingMeaning(ack, PingText(data)))
    case PriorityBody(dep, ex, weight) => Some(PriorityMeaning(id, DependencyOf(dep, ex, weight)))
    case ContinuationBody(hs, end) => Some(ContinuationMeaning(id, end, Named(hs)))
    case NoBody => None
  }

  function HeadersOf(f: H2Frame): seq<Header> {
    match f.body
    case HeadersBody(hs, _, _, _) => Named(hs)
    case ContinuationBody(hs, _) => Named(hs)
    case _ => []
  }

  lemma DependencyRoundTrip(dep: U32, exclusive: bool, weight: Option<U32>, rest: string)
    ensures ReadDependency(PriorityText(WithExclusive(dep, exclusive), weight) + rest) == DependencyOf(dep, exclusive, weight)
    ensures |PriorityText(dep, weight)| == 5 && (PriorityText(dep, weight) + rest)[5..] == rest
  {
    hide Number;
    var d := WithExclusive(dep, exclusive);
    var s := PriorityText(d, weight) + rest;
    Octets4RoundTrip(d);
    assert [s[0], s[1], s[2], s[3]] == Octets4(d);
  }

  lemma {:induction false} SettingsFront(s: Setting, ss: seq<Setting>)
    ensures SettingsText([s] + ss) == Octets2(SettingCode(s.id)) + Octets4(s.value) + SettingsText(ss)
  {
    hide Octets2, Octets4, SettingCode;
    if ss == [] {
      assert [s] + ss == [s] && [s][..0] == [];
    } else {
      var front, last := ss[..|ss| - 1], ss[|ss| - 1];
      assert ([s] + ss)[..|ss|] == [s] + front;
      SettingsFront(s, front);
      hide SettingsText;
      ThreeAppends(Octets2(SettingCode(s.id)) + Octets4(s.value), SettingsText(front), Octets2(SettingCode(last.id)),
                   Octets4(last.value));
    }
  }

  lemma {:induction false} SettingsRoundTrip(ss: seq<Setting>)
    ensures ReadSettings(SettingsText(ss)) == Some(Entries(ss))
  {
    if ss != [] {
      hide Number, SettingsText;
      var s, tail := ss[0], SettingsText(ss[1..]);
      assert ss == [s] + ss[1..];
      SettingsFront(s, ss[1..]);
      var t := SettingsText(ss);
      Octets2RoundTrip(SettingCode(s.id));
      Octets4RoundTrip(s.value);
      assert [t[0], t[1]] == Octets2(SettingCode(s.id));
      assert [t[2], t[3], t[4], t[5]] == Octets4(s.value);
      assert t[6..] == tail;
      SettingsRoundTrip(ss[1..]);
    }
  }

  // ---- What the message asks for, field by field ----

  /** Section 6.5.2: the setting an identifier stands for. */
  function SettingOf(code: nat): Option<SettingId> {
    match code
    case 1 => Some(HEADER_TABLE_SIZE)
    case 2 => Some(ENABLE_PUSH)
    case 3 => Some(MAX_CONCURRENT_STREAMS)
    case 4 => Some(INITIAL_WINDOW_SIZE)
    case 5 => Some(MAX_FRAME_SIZE)
    case 6 => Some(MAX_HEADER_LIST_SIZE)
    case _ => None
  }

  predicate EntriesAsked(ss: seq<Setting>, es: seq<(nat, nat)>) {
    |es| == |ss| && forall i :: 0 <= i < |ss| ==> SettingOf(es[i].0) == Some(ss[i].id) && es[i].1 == ss[i].value
  }

  /** Thirty-one bits of the given stream identifier, or zero if there is none. */
  predicate OnStream(f: H2Frame, id: nat) {
    id == match f.streamId case Some(n) => n % 0x8000_0000 case None => 0
  }

  /** The weight is sent in eight bits, 16 if there is none, and stands for one more. */
  predicate DependencyAsked(dep: U32, exclusive: bool, weight: Option<U32>, d: Dependency) {
    && d.exclusive == (exclusive || dep >= 0x8000_0000) && d.on == dep % 0x8000_0000
    && d.weight == (match weight case Some(w) => w % 0x100 + 1 case None => 17)
  }

  /** The first eight octets of the data, filled up with zeros. */
  predicate ProbeAsked(data: Option<string>, probe: string) {
    var given := match data case Some(d) => d case None => "";
    |probe| == 8 && forall i :: 0 <= i < 8 ==> probe[i] == if i < |given| then given[i] else '\0'
  }

  ghost predicate HeadersAsked(hs: seq<Header>, read: seq<Header>) {
    ShowsKept(hs, HasName, SameField, read)
  }

  ghost predicate FrameAsked(f: H2Frame, m: Meaning) {
    match f.body
    case SettingsBody(ss, ack) =>
      m.SettingsMeaning? && m.ack == ack && if ack then m.entries == [] else EntriesAsked(ss, m.entries)
    case DataBody(data, end) => m.DataMeaning? && OnStream(f, m.id) && m.data == data && m.endStream == end
    case HeadersBody(hs, end, dep, weight) =>
      && m.HeadersMeaning? && OnStream(f, m.id) && m.endStream == end && m.endHeaders && HeadersAsked(hs, m.headers)
      && m.priority.Some? == dep.Some? && (dep.Some? ==> DependencyAsked(dep.value, false, weight, m.priority.value))
    case WindowUpdateBody(inc) => m.WindowUpdateMeaning? && OnStream(f, m.id) && m.increment == inc % 0x8000_0000
    case RstStreamBody(code) => m.RstStreamMeaning? && OnStream(f, m.id) && m.errorCode == code
    case GoawayBody(last, code, debug) =>
      && m.GoawayMeaning? && m.last == last % 0x8000_0000 && m.errorCode == code
      && m.debug == (match debug case Some(d) => d case None => "")
    case PingBody(data, ack) => m.PingMeaning? && m.ack == ack && ProbeAsked(data, m.probe)
    case PriorityBody(dep, ex, weight) =>
      m.PriorityMeaning? && OnStream(f, m.id) && DependencyAsked(dep, ex, weight, m.dependency)
    case ContinuationBody(hs, end) =>
      m.ContinuationMeaning? && OnStream(f, m.id) && m.endHeaders == end && HeadersAsked(hs, m.headers)
    case NoBody => false
  }

  lemma {:induction false} EntriesAreAsked(ss: seq<Setting>)
    ensures EntriesAsked(ss, Entries(ss))
  {
    if ss != [] {
      EntriesAreAsked(ss[1..]);
      var es := Entries(ss);
      assert es[1..] == Entries(ss[1..]);
      forall i | 0 <= i < |ss|
        ensures i < |es| && SettingOf(es[i].0) == Some(ss[i].id) && es[i].1 == ss[i].value
      {
        if i > 0 {
          assert es[i] == es[1..][i - 1] && ss[i] == ss[1..][i - 1];
        }
      }
    }
  }

  lemma HeadersAskedIff(hs: seq<Header>, read: seq<Header>)
    ensures HeadersAsked(hs, read) <==> read == Named(hs)
  {
    hide Named;
    NamedInOrder(hs);
    if HeadersAsked(hs, read) {
      ShownOnce(hs, HasName, SameField, read, Named(hs));
    }
  }

  lemma IntendedAsked(f: H2Frame)
    requires f.body != NoBody
    ensures Intended(f).Some? && FrameAsked(f, Intended(f).value)
  {
    hide Named, HeadersAsked, EntriesAsked, Entries, SettingOf, ProbeAsked, PingText;
    match f.body
    case SettingsBody(ss, _) => EntriesAreAsked(ss);
    case HeadersBody(hs, _, _, _) => HeadersAskedIff(hs, Named(hs));
    case ContinuationBody(hs, _) => HeadersAskedIff(hs, Named(hs));
    case PingBody(data, _) => ProbeIsAsked(data);
    case _ =>
  }

  lemma ProbeIsAsked(data: Option<string>)
    ensures ProbeAsked(data, PingText(data))
  {
    var given := if data.Some? then data.value else "";
    assert Octet(0) == '\0';
    forall i | 0 <= i < 8
      ensures PingText(data)[i] == if i < |given| then given[i] else '\0'
    {
    }
  }

  /** Of a frame with headers only the intended reading is what was asked for. */
  lemma OnlyIntended(f: H2Frame, m: Meaning)
    requires (f.body.HeadersBody? || f.body.ContinuationBody?) && FrameAsked(f, m)
    ensures Intended(f) == Some(m)
  {
    hide Named, HeadersAsked;
    match f.body
    case HeadersBody(hs, _, _, _) => HeadersAskedIff(hs, m.headers);
    case ContinuationBody(hs, _) => HeadersAskedIff(hs, m.headers);
  }

  function Bit(flags: U8, bit: nat): nat
    requires bit > 0
  {
    if Flag(flags, bit) then bit else 0
  }

  /** The flags are made of bits section 6 defines for the kind of frame, padding excepted. */
  predicate NoOtherFlags(kind: U8, flags: U8) {
    match kind
    case 0 | 4 | 6 => flags == Bit(flags, 1)
    case 1 => flags == Bit(flags, 1) + Bit(flags, 4) + Bit(flags, 0x20)
    case 9 => flags == Bit(flags, 4)
    case _ => flags == 0
  }

  /**
   * What a sender owes besides: no flag without a meaning (section 4.1), stream zero for what concerns
   * the connection (sections 6.5, 6.7 and 6.8), and the reserved bit of a window increment unset
   * (section 6.9).
   */
  lemma SentAsRequired(f: H2Frame)
    requires f.body != NoBody
    ensures var r := Raw(f).value;
            && NoOtherFlags(r.kind, r.flags)
            && (r.kind in {4, 6, 7} ==> r.streamId == 0)
            && (r.kind == 8 ==> |r.payload| == 4 && r.payload[0] as int < 0x80)
  {
    hide SettingsText, BlockText, Named, PriorityText, PingText, Octets4, NoOtherFlags;
    FlagValues();
    match f.body
    case WindowUpdateBody(inc) => TopBitUnset(inc % 0x8000_0000);
    case _ =>
  }

  lemma FlagValues()
    ensures forall kind: U8 :: kind in {2, 3, 7, 8} ==> NoOtherFlags(kind, 0)
    ensures NoOtherFlags(0, 0) && NoOtherFlags(0, 1) && NoOtherFlags(4, 0) && NoOtherFlags(4, 1)
    ensures NoOtherFlags(6, 0) && NoOtherFlags(6, 1) && NoOtherFlags(9, 0) && NoOtherFlags(9, 4)
    ensures NoOtherFlags(1, 4) && NoOtherFlags(1, 5) && NoOtherFlags(1, 0x24) && NoOtherFlags(1, 0x25)
  {
  }

  lemma TopBitUnset(n: U32)
    requires n < 0x8000_0000
    ensures Octets4(n)[0] as int < 0x80
  {
    assert n / 0x100_0000 < 0x80;
  }

  lemma IntendedIff(f: H2Frame)
    requires f.body != NoBody
    ensures Raw(f).Some? && Intended(f).Some?
    ensures ReadPayload(Raw(f).value) == Intended(f) <==> forall h :: h in HeadersOf(f) ==> Short(h)
  {
    hide Number, ReadSettings, SettingsText, DecodeBlock, BlockText, Named, Octets4, PingText, ReadDependency, PriorityText;
    match f.body
    case SettingsBody(ss, ack) => SettingsMean(f);
    case DataBody(data, end) =>
    case HeadersBody(hs, end, dep, weight) => HeadersMeaningIff(f);
    case WindowUpdateBody(inc) =>
      Octets4RoundTrip(inc % 0x8000_0000);
      assert inc % 0x8000_0000 % 0x8000_0000 == inc % 0x8000_0000;
    case RstStreamBody(code) => Octets4RoundTrip(code);
    case GoawayBody(last, code, debug) => GoawayMeans(f);
    case PingBody(data, ack) =>
    case PriorityBody(dep, ex, weight) => PriorityMeans(f);
    case ContinuationBody(hs, end) => BlockDecodesIff(Named(hs));
  }

  lemma HeadersMeaningIff(f: H2Frame)
    requires f.body.HeadersBody?
    ensures ReadPayload(Raw(f).value) == Intended(f) <==> forall h :: h in HeadersOf(f) ==> Short(h)
  {
    hide Number, DecodeBlock, BlockText, Named, Octets4, ReadDependency, Short, PriorityText;
    var HeadersBody(hs, end, dep, weight) := f.body;
    BlockDecodesIff(Named(hs));
    if dep.Some? {
      DependencyRoundTrip(dep.value, false, weight, BlockText(Named(hs)));
    }
  }

  lemma SettingsMean(f: H2Frame)
    requires f.body.SettingsBody?
    ensures ReadPayload(Raw(f).value) == Intended(f)
  {
    hide SettingsText, ReadSettings, Entries, Number, BlockText, DecodeBlock, Named;
    NoSettings();
    SettingsRoundTrip(f.body.settings);
  }

  lemma NoSettings()
    ensures ReadSettings("") == Some([])
  {
  }

  lemma GoawayMeans(f: H2Frame)
    requires f.body.GoawayBody?
    ensures ReadPayload(Raw(f).value) == Intended(f)
  {
    hide Number;
    var GoawayBody(last, code, debug) := f.body;
    Octets4RoundTrip(last);
    Octets4RoundTrip(code);
    var p := Raw(f).value.payload;
    assert p[..4] == Octets4(last) && p[4..8] == Octets4(code);
    assert p[8..] == if debug.Some? then debug.value else "";
  }

  lemma PriorityMeans(f: H2Frame)
    requires f.body.PriorityBody?
    ensures ReadPayload(Raw(f).value) == Intended(f)
  {
    hide ReadDependency;
    var PriorityBody(dep, ex, weight) := f.body;
    DependencyRoundTrip(dep, ex, weight, "");
    var p := PriorityText(WithExclusive(dep, ex), weight);
    assert p + "" == p;
  }

  /** A frame reads as what was asked for, exactly if its header strings have at most 126 octets. */
  lemma MeaningIff(f: H2Frame)
    requires f.body != NoBody
    ensures Raw(f).Some?
    ensures var m := ReadPayload(Raw(f).value);
            m.Some? && FrameAsked(f, m.value) <==> forall h :: h in HeadersOf(f) ==> Short(h)
  {
    hide Raw, ReadPayload, Intended, FrameAsked, Short;
    IntendedIff(f);
    IntendedAsked(f);
    var m := ReadPayload(Raw(f).value);
    if m.Some? && FrameAsked(f, m.value) && (f.body.HeadersBody? || f.body.ContinuationBody?) {
      OnlyIntended(f, m.value);
    }
  }

  // ---- The whole connection, message by message ----

  predicate HasBody(f: H2Frame) {
    f.body != NoBody
  }

  predicate PrintedAs(f: H2Frame, r: RawFrame) {
    Raw(f) == Some(r)
  }

  lemma {:induction false} RawsInOrder(fs: seq<H2Frame>)
    ensures ShowsKept(fs, HasBody, PrintedAs, Raws(fs))
  {
    hide Raw;
    if fs == [] {
      ShowsNone(HasBody, PrintedAs);
    } else {
      var front, f := fs[..|fs| - 1], fs[|fs| - 1];
      RawsInOrder(front);
      SplitLast(fs);
      BodyPrinted(f);
      if HasBody(f) {
        ShowsOneMore(front, f, HasBody, PrintedAs, Raws(front), Raw(f).value);
      } else {
        ShowsNoMore(front, f, HasBody, PrintedAs, Raws(front));
      }
    }
  }

  lemma BodyPrinted(f: H2Frame)
    ensures Raw(f).Some? <==> HasBody(f)
  {
  }

  function ReadFrames(rs: seq<RawFrame>): Option<seq<Meaning>> {
    if rs == [] then Some([]) else
    match ReadFrames(rs[..|rs| - 1])
    case None => None
    case Some(front) =>
      match ReadPayload(rs[|rs| - 1])
      case None => None
      case Some(last) => Some(front + [last])
  }

  lemma NothingRead()
    ensures ReadFrames([]) == Some([])
  {
  }

  lemma ReadFramesSnoc(rs: seq<RawFrame>, r: RawFrame)
    requires ReadFrames(rs).Some? && ReadPayload(r).Some?
    ensures ReadFrames(rs + [r]) == Some(ReadFrames(rs).value + [ReadPayload(r).value])
  {
    hide ReadPayload;
    assert (rs + [r])[..|rs|] == rs;
  }

  function ReadConnection(s: string): Option<seq<Meaning>> {
    match DecodeFrames(s) case None => None case Some(rs) => ReadFrames(rs)
  }

  lemma {:induction false} RawsRead(fs: seq<H2Frame>)
    requires forall f, h :: f in fs && h in HeadersOf(f) ==> Short(h)
    ensures var ms := ReadFrames(Raws(fs)); ms.Some? && ShowsKept(fs, HasBody, FrameAsked, ms.value)
  {
    hide Raw, Raws, ReadFrames, ReadPayload, FrameAsked, HeadersOf, Short, ShowsKept;
    if fs == [] {
      NoFrames();
      NothingRead();
      ShowsNone(HasBody, FrameAsked);
    } else {
      var front, f := fs[..|fs| - 1], fs[|fs| - 1];
      SplitLast(fs);
      RawsRead(front);
      BodyPrinted(f);
      RawsSnoc(front, f);
      var ms := ReadFrames(Raws(front)).value;
      if HasBody(f) {
        assert f in fs;
        MeaningIff(f);
        ReadFramesSnoc(Raws(front), Raw(f).value);
        ShowsOneMore(front, f, HasBody, FrameAsked, ms, ReadPayload(Raw(f).value).value);
      } else {
        ShowsNoMore(front, f, HasBody, FrameAsked, ms);
      }
    }
  }

  /** After the preface the connection reads as the messages that have a body, one for one and in order. */
  lemma ConnectionMeans(req: Http2Request)
    requires forall r :: r in Raws(req.frames) ==> |r.payload| < 0x100_0000
    requires forall f, h :: f in req.frames && h in HeadersOf(f) ==> Short(h)
    ensures var text, n := Preface(req) + FramesText(Raws(req.frames)), |Preface(req)|;
            && Prefaced(req, text[..n])
            && var ms := ReadConnection(text[n..]);
               ms.Some? && ShowsKept(req.frames, HasBody, FrameAsked, ms.value)
  {
    hide DecodeFrames, FramesText, Raws, ReadFrames, ShowsKept, HeadersOf, Short, Preface, Prefaced;
    ConnectionRead(req);
    RawsRead(req.frames);
  }
}
