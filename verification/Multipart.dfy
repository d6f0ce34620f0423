/**
 * The multipart converter's editing of a printed request in place: it adds the two fields that
 * announce the body and replaces what follows the head.
 */
module Multipart {
  import opened Common
  import opened Octets
  import opened Text
  import opened Http1
  import opened MultipartBody

  // ---- Editing the request ----

  function TypeValue(mp: MultipartRequest): string {
    "multipart/form-data; boundary=" + Boundary(mp)
  }

  function TypeField(mp: MultipartRequest): Header {
    Header("Content-Type", TypeValue(mp))
  }

  function LengthOf(mp: MultipartRequest): Header {
    Header("Content-Length", Decimal(|Body(mp)|))
  }

  function Insertion(mp: MultipartRequest): string {
    Line(TypeField(mp)) + CRLF + (Line(LengthOf(mp)) + CRLF)
  }

  function Applied(mp: MultipartRequest, request: string): string {
    match Find(request, BLANK_LINE, 0)
    case None => request
    case Some(h) =>
      var inserted := request[..h + 2] + Insertion(mp) + request[h + 2..];
      match Find(inserted, BLANK_LINE, 0)
      case None => inserted
      case Some(e) => inserted[..e + 4] + Body(mp)
  }

  method ApplyMultipart(mp: MultipartRequest, request: Buffer)
    modifies request
    ensures request.data == Applied(mp, old(request.data))
  {
    hide Body, Boundary, Decimal, Find;
    var body := BuildBody(mp);
    var ctHeader := "Content-Type: multipart/form-data; boundary=";
    ctHeader := ctHeader + Boundary(mp);
    ctHeader := ctHeader + CRLF;
    var clHeader := "Content-Length: ";
    clHeader := clHeader + Decimal(|body|);
    clHeader := clHeader + CRLF;
    InsertionText(mp, ctHeader, clHeader);
    hide Insertion;
    var hend := Find(request.data, BLANK_LINE, 0);
    if hend == None {
      return;
    }
    request.data := request.data[..hend.value + 2] + (ctHeader + clHeader) + request.data[hend.value + 2..];
    hend := Find(request.data, BLANK_LINE, 0);
    if hend == None {
      return;
    }
    request.data := request.data[..hend.value + 4] + body;
  }

  lemma InsertionText(mp: MultipartRequest, ct: string, cl: string)
    requires ct == "Content-Type: multipart/form-data; boundary=" + Boundary(mp) + CRLF
    requires cl == "Content-Length: " + Decimal(|Body(mp)|) + CRLF
    ensures Insertion(mp) == ct + cl
  {
    hide Body, Boundary, Decimal;
    TypeLine(mp);
    LengthText(Decimal(|Body(mp)|));
  }

  lemma TypeLine(mp: MultipartRequest)
    ensures Line(TypeField(mp)) == "Content-Type: multipart/form-data; boundary=" + Boundary(mp)
  {
    hide Boundary;
  }

  // ---- Where a head ends ----

  /** `s` is a head without the empty line that ends it: with that line, its first blank line is at its end. */
  ghost predicate HeadText(s: string) {
    && |s| >= 2 && s[|s| - 2] == '\r' && s[|s| - 1] == '\n'
    && forall i: nat :: i + 2 < |s| ==> !At(s + CRLF, i, BLANK_LINE)
  }

  lemma AtBlankLine(s: string, i: nat)
    ensures At(s, i, BLANK_LINE) <==>
            i + 4 <= |s| && s[i] == '\r' && s[i + 1] == '\n' && s[i + 2] == '\r' && s[i + 3] == '\n'
  {
  }

  /** What precedes the empty line of a request with a blank line is a head. */
  lemma FoundHead(request: string, h: nat)
    requires Find(request, BLANK_LINE, 0) == Some(h)
    ensures h + 4 <= |request| && HeadText(request[..h + 2]) && request[h + 2..] == CRLF + request[h + 4..]
  {
    hide Find, At, HeadText;
    AtBlankLine(request, h);
    FoundRest(request, h);
    PrefixIsHead(request, h);
  }

  lemma FoundRest(request: string, h: nat)
    requires h + 4 <= |request| && request[h + 2] == '\r' && request[h + 3] == '\n'
    ensures request[h + 2..] == CRLF + request[h + 4..]
  {
  }

  lemma PrefixIsHead(request: string, h: nat)
    requires h + 4 <= |request| && request[h] == '\r' && request[h + 1] == '\n'
    requires forall i: nat :: i < h ==> !At(request, i, BLANK_LINE)
    requires request[h + 2] == '\r' && request[h + 3] == '\n'
    ensures HeadText(request[..h + 2])
  {
    hide At;
    var s := request[..h + 2];
    forall i: nat | i + 2 < |s|
      ensures !At(s + CRLF, i, BLANK_LINE)
    {
      assert !At(request, i, BLANK_LINE);
      AtBlankLine(request, i);
      AtBlankLine(s + CRLF, i);
    }
  }

  /** A head is found again, whatever follows its empty line. */
  lemma HeadFound(s: string, rest: string)
    requires HeadText(s)
    ensures Find(s + CRLF + rest, BLANK_LINE, 0) == Some(|s| - 2)
  {
    hide Find, At;
    var t := s + CRLF + rest;
    AtBlankLine(t, |s| - 2);
    forall i: nat | i + 2 < |s|
      ensures !At(t, i, BLANK_LINE)
    {
      assert !At(s + CRLF, i, BLANK_LINE);
      AtBlankLine(s + CRLF, i);
      AtBlankLine(t, i);
    }
  }

  /** One more line, neither empty nor with a carriage return, makes a longer head. */
  lemma HeadLonger(s: string, line: string)
    requires HeadText(s) && line != "" && '\r' !in line
    ensures HeadText(s + line + CRLF)
  {
    var t := s + line + CRLF;
    forall i: nat | i + 2 < |t|
      ensures !At(t + CRLF, i, BLANK_LINE)
    {
      AtBlankLine(t + CRLF, i);
      if i + 2 < |s| {
        AtBlankLine(s + CRLF, i);
      } else if i < |s| {
        assert (t + CRLF)[|s|] == line[0];
      } else if i < |s| + |line| {
        assert (t + CRLF)[i] == line[i - |s|];
      }
    }
  }

  lemma FirstLineIsHead(line: string)
    requires '\r' !in line
    ensures HeadText(line + CRLF)
  {
    var t := line + CRLF;
    forall i: nat | i + 2 < |t|
      ensures !At(t + CRLF, i, BLANK_LINE)
    {
      AtBlankLine(t + CRLF, i);
      assert (t + CRLF)[i] == line[i];
    }
  }

  lemma {:induction false} LinesAreHead(s: string, hs: seq<Header>)
    requires HeadText(s) && forall h :: h in hs ==> CleanField(h)
    ensures HeadText(s + Lines(hs))
  {
    hide HeadText, CleanField, Line;
    if hs == [] {
      NoLines(s);
    } else {
      var front, last := hs[..|hs| - 1], hs[|hs| - 1];
      LinesAreHead(s, front);
      LineHasNoReturn(last);
      HeadLonger(s + Lines(front), Line(last));
      ThreeAppends(s, Lines(front), Line(last), CRLF);
    }
  }

  // ---- What the edit yields ----

  lemma BoundaryHasReturn(mp: MultipartRequest)
    ensures '\r' in Boundary(mp) <==> mp.boundary % 10 == BOUND_CRLF
    ensures mp.boundary % 10 == BOUND_CRLF ==> Boundary(mp) == CRLF
    ensures Boundary(mp) != "" && Lacks(Boundary(mp), {' ', '\t'})
    ensures mp.boundary % 10 != BOUND_CRLF ==> Lacks(Boundary(mp), {'\r', '\n'})
  {
  }

  lemma TypeFieldClean(mp: MultipartRequest)
    requires mp.boundary % 10 != BOUND_CRLF
    ensures CleanField(TypeField(mp))
  {
    BoundaryHasReturn(mp);
    hide Boundary;
    TypeClean(Boundary(mp));
  }

  lemma TypeClean(b: string)
    requires b != "" && Lacks(b, {' ', '\t', '\r', '\n'})
    ensures CleanField(Header("Content-Type", "multipart/form-data; boundary=" + b))
  {
    TypeNameClean();
    ValueClean("multipart/form-data; boundary=", b);
  }

  lemma TypeNameClean()
    ensures Lacks("Content-Type", {':', ' ', '\t', '\r', '\n'})
    ensures Lacks("multipart/form-data; boundary=", {'\r', '\n'})
  {
    NameLacks("Content-Type");
  }

  lemma ValueClean(start: string, b: string)
    requires b != "" && Lacks(b, {' ', '\t', '\r', '\n'})
    requires start != "" && start[0] == 'm' && Lacks(start, {'\r', '\n'})
    ensures var v := start + b;
            Lacks(v, {'\r', '\n'}) && v != "" && !IsBlank(v[0]) && !IsBlank(v[|v| - 1])
  {
    LacksConcat(start, b, {'\r', '\n'});
    assert b[|b| - 1] in b;
  }

  lemma LengthOfClean(mp: MultipartRequest)
    ensures CleanField(LengthOf(mp))
  {
    hide Decimal, Body, CleanField;
    DecimalClean(|Body(mp)|);
  }

  /** The request as it should be: its head, the two new fields last, and exactly the new body. */
  function Announced(mp: MultipartRequest, head: string): string {
    head + Insertion(mp) + CRLF + Body(mp)
  }

  lemma InsertedHead(mp: MultipartRequest, head: string)
    requires HeadText(head) && mp.boundary % 10 != BOUND_CRLF
    ensures HeadText(head + Insertion(mp))
  {
    hide HeadText, CleanField, Line, TypeField, LengthOf;
    var t, l := TypeField(mp), LengthOf(mp);
    TypeFieldClean(mp);
    LineHasNoReturn(t);
    HeadLonger(head, Line(t));
    LengthOfClean(mp);
    LineHasNoReturn(l);
    HeadLonger(head + Line(t) + CRLF, Line(l));
    assert head + Line(t) + CRLF + Line(l) + CRLF == head + Insertion(mp);
  }

  lemma AppliedAt(mp: MultipartRequest, request: string, h: nat, head: string, rest: string)
    requires Find(request, BLANK_LINE, 0) == Some(h)
    requires HeadText(head)
    requires request[..h + 2] + Insertion(mp) + request[h + 2..] == head + CRLF + rest
    ensures Applied(mp, request) == head + CRLF + Body(mp)
  {
    hide Body, Insertion, Find, At;
    HeadFound(head, rest);
    hide HeadText;
    assert (head + CRLF + rest)[..|head| + 2] == head + CRLF;
  }

  lemma PlainBoundary(mp: MultipartRequest, request: string, h: nat)
    requires Find(request, BLANK_LINE, 0) == Some(h) && mp.boundary % 10 != BOUND_CRLF
    ensures Applied(mp, request) == Announced(mp, request[..h + 2])
  {
    FoundHead(request, h);
    InsertedHead(mp, request[..h + 2]);
    hide HeadText, Body, Insertion, Applied;
    AppliedAt(mp, request, h, request[..h + 2] + Insertion(mp), request[h + 4..]);
  }

  lemma CrlfInsertion(mp: MultipartRequest, line: string)
    requires mp.boundary % 10 == BOUND_CRLF && line == "Content-Type: multipart/form-data; boundary="
    ensures Insertion(mp) == line + CRLF + CRLF + (Line(LengthOf(mp)) + CRLF)
  {
    hide Boundary, TypeField, Line, LengthOf;
    BoundaryHasReturn(mp);
    TypeLine(mp);
  }

  /** With the boundary CR LF the type field ends the head: the length field is cut off. */
  lemma CrlfBoundary(mp: MultipartRequest, request: string, h: nat)
    requires Find(request, BLANK_LINE, 0) == Some(h) && mp.boundary % 10 == BOUND_CRLF
    ensures Applied(mp, request) ==
            request[..h + 2] + "Content-Type: multipart/form-data; boundary=" + CRLF + CRLF + Body(mp)
  {
    hide HeadText, Body, Insertion, Applied, LengthOf, Line, Find, Boundary;
    FoundHead(request, h);
    var line := "Content-Type: multipart/form-data; boundary=";
    var head := request[..h + 2] + line + CRLF;
    HeadLonger(request[..h + 2], line);
    var l := Line(LengthOf(mp)) + CRLF;
    CrlfInsertion(mp, line);
    assert request[..h + 2] + (line + CRLF + CRLF + l) + request[h + 2..] == head + CRLF + (l + request[h + 2..]);
    AppliedAt(mp, request, h, head, l + request[h + 2..]);
  }

  /**
   * A request with a blank line gets its two fields as the last of its head and then exactly the
   * body, if and only if the boundary is not the one that is itself a line end. A request without a
   * blank line is left alone.
   */
  lemma AppliedIff(mp: MultipartRequest, request: string)
    ensures Find(request, BLANK_LINE, 0) == None ==> Applied(mp, request) == request
    ensures forall h :: Find(request, BLANK_LINE, 0) == Some(h) ==>
              (Applied(mp, request) == Announced(mp, request[..h + 2]) <==> mp.boundary % 10 != BOUND_CRLF)
  {
    hide Find, Announced, Insertion;
    var f := Find(request, BLANK_LINE, 0);
    if f.Some? {
      hide Applied;
      if mp.boundary % 10 != BOUND_CRLF {
        PlainBoundary(mp, request, f.value);
      } else {
        CrlfBoundary(mp, request, f.value);
        CrlfTooShort(mp, request[..f.value + 2]);
      }
    }
  }

  lemma CrlfTooShort(mp: MultipartRequest, head: string)
    requires mp.boundary % 10 == BOUND_CRLF
    ensures Announced(mp, head) != head + "Content-Type: multipart/form-data; boundary=" + CRLF + CRLF + Body(mp)
  {
  }

  // ---- A printed request with a multipart body, read back ----

  function NewFields(mp: MultipartRequest, req: HttpRequest): seq<Header> {
    Fields(req) + [TypeField(mp), LengthOf(mp)]
  }

  lemma PrintedHead(req: HttpRequest)
    requires Clean(req)
    ensures var head := RequestLine(req) + CRLF + Lines(Fields(req));
            && |head| >= 2
            && Find(Print(req), BLANK_LINE, 0) == Some(|head| - 2)
            && Print(req)[..|head|] == head
  {
    hide RequestLine, Fields, CleanField, Clean, Lines, Find, At, ParseRequestLine;
    RequestLineClean(req);
    FieldsClean(req);
    FirstLineIsHead(RequestLine(req));
    LinesAreHead(RequestLine(req) + CRLF, Fields(req));
    HeadFound(RequestLine(req) + CRLF + Lines(Fields(req)), BodyOf(req));
  }

  lemma LinesAddTwo(hs: seq<Header>, a: Header, b: Header)
    ensures Lines(hs + [a, b]) == Lines(hs) + (Line(a) + CRLF + (Line(b) + CRLF))
  {
    hide Line;
    assert (hs + [a, b])[..|hs| + 1] == hs + [a];
    assert (hs + [a])[..|hs|] == hs;
  }

  /** The reader sees the printed fields, then the two new ones, and the length they give. */
  lemma AppliedRead(mp: MultipartRequest, req: HttpRequest)
    requires Clean(req) && mp.boundary % 10 != BOUND_CRLF
    ensures ReadMessage(Applied(mp, Print(req))) ==
            TakeBody((MethodToString(req.reqMethod), NormalUri(req.uri), VersionOf(req)), NewFields(mp, req),
                     BodyLength(NewFields(mp, req)), Body(mp))
  {
    hide Print, Applied, ParseRequestLine, ParseFields, RequestLine, NewFields, Lines, BodyLength, TakeBody, Clean,
         CleanField, Body, Find, ReadLine;
    AppliedText(mp, req);
    RequestLineClean(req);
    NewFieldsClean(mp, req);
    ReadLineOf(RequestLine(req), Lines(NewFields(mp, req)) + CRLF + Body(mp));
    FieldsRead(NewFields(mp, req), Body(mp));
  }

  lemma AppliedText(mp: MultipartRequest, req: HttpRequest)
    requires Clean(req) && mp.boundary % 10 != BOUND_CRLF
    ensures Applied(mp, Print(req)) == RequestLine(req) + CRLF + (Lines(NewFields(mp, req)) + CRLF + Body(mp))
  {
    hide Print, Applied, RequestLine, Fields, Lines, Body, Find, Clean, Line, TypeField, LengthOf;
    PrintedHead(req);
    var head := RequestLine(req) + CRLF + Lines(Fields(req));
    PlainBoundary(mp, Print(req), |head| - 2);
    LinesAddTwo(Fields(req), TypeField(mp), LengthOf(mp));
    Reassociate(RequestLine(req) + CRLF, Lines(Fields(req)), Insertion(mp), CRLF, Body(mp));
  }

  lemma Reassociate(a: string, b: string, c: string, d: string, e: string)
    ensures a + b + c + d + e == a + (b + c + d + e)
  {
  }

  lemma NewFieldsClean(mp: MultipartRequest, req: HttpRequest)
    requires Clean(req) && mp.boundary % 10 != BOUND_CRLF
    ensures forall h :: h in NewFields(mp, req) ==> CleanField(h)
  {
    hide Fields, CleanField, Body, TypeField, LengthOf;
    FieldsClean(req);
    TypeFieldClean(mp);
    LengthOfClean(mp);
  }

  lemma DecimalInjective(m: nat, n: nat)
    ensures Decimal(m) == Decimal(n) <==> m == n
  {
    DecimalRoundTrip(m);
    DecimalRoundTrip(n);
  }

  /** What the reader sees are the printed fields' values, then the new length. */
  lemma AddedValues(fs: seq<Header>, t: Header, length: string)
    requires !FieldNamed(t, "content-length") && !FieldNamed(t, "transfer-encoding")
    ensures var l := Header("Content-Length", length);
            && ValuesOf(fs + [t, l], "transfer-encoding") == ValuesOf(fs, "transfer-encoding")
            && ValuesOf(fs + [t, l], "content-length") == ValuesOf(fs, "content-length") + [length]
  {
    hide ValuesOf, FieldNamed;
    var l := Header("Content-Length", length);
    LengthNamed(length);
    NewNames(length);
    assert fs + [t, l] == fs + [t] + [l];
    NoValues([t], "content-length");
    NoValues([t, l], "transfer-encoding");
    ValuesConcat(fs, [t, l], "transfer-encoding");
    ValuesConcat(fs, [t], "content-length");
    ValuesConcat(fs + [t], [l], "content-length");
  }

  lemma NewNames(value: string)
    ensures !FieldNamed(Header("Content-Type", value), "content-length")
    ensures !FieldNamed(Header("Content-Type", value), "transfer-encoding")
    ensures !FieldNamed(Header("Content-Length", value), "transfer-encoding")
  {
    assert |Fold("Content-Type")| == |"Content-Type"|;
    assert |Fold("Content-Length")| == |"Content-Length"|;
  }

  /**
   * Whatever lengths the request is printed with are the new one: those of its own headers, and the
   * default one if it has a body and no header keeps the printer from adding it.
   */
  predicate LengthsAgree(mp: MultipartRequest, req: HttpRequest) {
    var own := Named(req.headers);
    && ValuesOf(own, "transfer-encoding") == []
    && (forall l :: l in ValuesOf(own, "content-length") ==> l == Decimal(|Body(mp)|))
    && (BodyOf(req) == "" || AnyCNamed(own, "content-length") || |BodyOf(req)| == |Body(mp)|)
  }

  lemma NewFieldsLength(mp: MultipartRequest, req: HttpRequest)
    ensures BodyLength(NewFields(mp, req)) == if LengthsAgree(mp, req) then Some(|Body(mp)|) else None
  {
    hide Body, Fields, ValuesOf, Decimal, ParseDecimal, Named, AnyCNamed, TypeValue, FieldNamed;
    NewNames(TypeValue(mp));
    AddedValues(Fields(req), TypeField(mp), Decimal(|Body(mp)|));
    FieldValues(req);
    DecimalInjective(|BodyOf(req)|, |Body(mp)|);
    DecimalRoundTrip(|Body(mp)|);
    var own, mine, theirs := ValuesOf(Named(req.headers), "content-length"), Decimal(|BodyOf(req)|), Decimal(|Body(mp)|);
    var added := if LengthField(req) == [] then [] else [mine];
    AllEqual(own, added, theirs);
    var values := ValuesOf(NewFields(mp, req), "content-length");
    assert values == own + added + [theirs];
    assert (exists l :: l in values && l != values[0]) <==> !forall l :: l in values ==> l == values[0];
    assert LengthField(req) != [] ==> mine in added;
  }

  lemma AllEqual(a: seq<string>, b: seq<string>, last: string)
    ensures var s := a + b + [last];
            && ((forall l :: l in s ==> l == s[0]) <==> (forall l :: l in a ==> l == last) && (forall l :: l in b ==> l == last))
            && ((forall l :: l in s ==> l == s[0]) ==> s[0] == last)
  {
    var s := a + b + [last];
    assert s[|s| - 1] == last && last in s && s[0] in s;
    assert forall l :: l in a || l in b ==> l in s;
    assert forall l :: l in s ==> l in a || l in b || l == last;
  }

  lemma ExpectedReadBack(mp: MultipartRequest, req: HttpRequest)
    requires Clean(req) && mp.boundary % 10 != BOUND_CRLF
    ensures ReadMessage(Applied(mp, Print(req))) ==
            if LengthsAgree(mp, req)
            then Some((Expected(req).(fields := NewFields(mp, req), body := Body(mp)), ""))
            else None
  {
    hide ReadMessage, Applied, Print, Body, BodyLength, NewFields, Fields, Clean, LengthsAgree, TakeBody;
    AppliedRead(mp, req);
    NewFieldsLength(mp, req);
    TakeWhole((MethodToString(req.reqMethod), NormalUri(req.uri), VersionOf(req)), NewFields(mp, req),
              BodyLength(NewFields(mp, req)), Body(mp));
  }

  /**
   * The message has the request's line and fields, then the two that announce the body: its boundary
   * and its length.
   */
  ghost predicate Edited(mp: MultipartRequest, req: HttpRequest, m: Message) {
    var n := |m.fields| - 2;
    && n >= 0 && SameLine(req, m) && SameFields(req, m.fields[..n])
    && m.fields[n] == Header("Content-Type", "multipart/form-data; boundary=" + BOUNDARIES[mp.boundary % 10])
    && m.fields[n + 1].name == "Content-Length" && ParseDecimal(m.fields[n + 1].value) == Some(|m.body|)
  }

  lemma ExpectedEdited(mp: MultipartRequest, req: HttpRequest)
    ensures Edited(mp, req, Expected(req).(fields := NewFields(mp, req), body := Body(mp)))
  {
    hide SameFields, Fields, Body, Decimal, ParseDecimal, TokenMethod, MethodToString;
    ExpectedAsked(req);
    DecimalRoundTrip(|Body(mp)|);
    var m := Expected(req).(fields := NewFields(mp, req), body := Body(mp));
    assert m.fields[..|m.fields| - 2] == Fields(req);
    assert SameLine(req, m) && SameFields(req, m.fields[..|m.fields| - 2]);
  }

  /**
   * A printed request that takes a multipart body reads back as the edited request with that body and
   * nothing left over, exactly if every length it was printed with is the new one, as when it had no
   * body: its own Content-Length stays beside the new one, and a reader refuses a message whose
   * lengths differ.
   */
  lemma ReadBackIff(mp: MultipartRequest, req: HttpRequest)
    requires Clean(req) && mp.boundary % 10 != BOUND_CRLF
    ensures var r := ReadMessage(Applied(mp, Print(req)));
            if LengthsAgree(mp, req) then r.Some? && r.value.1 == "" && Edited(mp, req, r.value.0) && r.value.0.body == Body(mp)
            else r == None
  {
    hide ReadMessage, Applied, Print, Body, Edited, Clean, LengthsAgree;
    ExpectedReadBack(mp, req);
    ExpectedEdited(mp, req);
  }

  /** The parameter of a multipart media type: section 5.1.1 of RFC 2046. */
  function BoundaryOf(value: string): Option<string> {
    var start := "multipart/form-data; boundary=";
    if start <= value then Some(value[|start|..]) else None
  }

  /** Read with the boundary the message announces, its body has the parts that were asked for. */
  ghost predicate PartsCome(reader: Reader, mp: MultipartRequest, m: Message) {
    && |m.fields| >= 2
    && var boundary := BoundaryOf(m.fields[|m.fields| - 2].value);
       && boundary.Some?
       && var read := ReadBody(reader, boundary.value, m.body);
          read.Some? && PartsAsked(mp, read.value)
  }

  /** The parts come through the whole request exactly if each of them keeps the framing. */
  lemma PartsReadBackIff(reader: Reader, mp: MultipartRequest, req: HttpRequest)
    requires Clean(req) && mp.boundary % 10 != BOUND_CRLF && LengthsAgree(mp, req)
    requires reader == Full ==> Undashed(PartsSent(mp))
    ensures var r := ReadMessage(Applied(mp, Print(req)));
            && r.Some?
            && (PartsCome(reader, mp, r.value.0) <==>
                forall p :: p in PartsSent(mp) ==> WellFramed(BOUNDARIES[mp.boundary % 10], p))
  {
    hide ReadMessage, Applied, Print, Body, ReadBody, Clean, LengthsAgree, PartsAsked, PartsSent, WellFramed, SameLine,
         SameFields, BoundaryOf;
    ReadBackIff(mp, req);
    BoundaryRead(mp);
    BodyReadIff(reader, mp);
  }

  lemma BoundaryRead(mp: MultipartRequest)
    ensures BoundaryOf("multipart/form-data; boundary=" + BOUNDARIES[mp.boundary % 10]) == Some(Boundary(mp))
  {
  }

  lemma TakeWhole(head: (string, string, string), hs: seq<Header>, length: Option<nat>, body: string)
    requires length in {None, Some(|body|)}
    ensures TakeBody(head, hs, length, body) ==
            if length == None then None else Some((Message(head.0, head.1, head.2, hs, body), ""))
  {
    assert body[..|body|] == body && body[|body|..] == "";
  }
}
