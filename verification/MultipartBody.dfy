/**
 * The multipart converter's body: its printer, a reader after section 5.1.1 of RFC 2046, and exactly
 * which parts the reader recovers.
 */
module MultipartBody {
  import opened Common
  import opened Octets
  import opened Text
  import opened Http1

  datatype Part = Part(disposition: nat, fieldName: Option<string>, body: Option<string>,
                       injectFakeBoundary: bool, extraDashes: U32)

  datatype MultipartRequest = MultipartRequest(boundary: nat, parts: seq<Part>, tightSpacing: bool)

  const BOUNDARIES := ["a", "ab", "x", "--", "boundary", "fuzzboundary", "AAAA", "----", "0", "\r\n"]

  const DISPOSITIONS := ["form-data", "attachment", "inline", "",
                         "form-data; name=\"test\"; filename=\"x.txt\"", "form-data; name=\"a\""]

  const BOUND_CRLF: nat := 9

  function Boundary(mp: MultipartRequest): string {
    BOUNDARIES[mp.boundary % 10]
  }

  // ---- The body ----

  function Dashes(n: nat): string {
    if n == 0 then "" else Dashes(n - 1) + "-"
  }

  function DispositionText(part: Part): string {
    var disp := DISPOSITIONS[part.disposition % 6];
    if disp == "" then "" else
    "Content-Disposition: " + disp +
    (if part.fieldName.Some? && part.fieldName.value != "" then "; name=\"" + part.fieldName.value + "\"" else "") + CRLF
  }

  function ContentOf(part: Part): string {
    if part.body.Some? then part.body.value else ""
  }

  function FakeText(boundary: string, part: Part): string {
    if part.injectFakeBoundary then CRLF + "--" + boundary + CRLF else ""
  }

  function PartText(boundary: string, part: Part): string {
    "--" + Dashes(part.extraDashes) + boundary + CRLF + DispositionText(part) + CRLF + ContentOf(part) +
    FakeText(boundary, part) + CRLF
  }

  function PartsText(boundary: string, parts: seq<Part>): string {
    if parts == [] then "" else PartsText(boundary, parts[..|parts| - 1]) + PartText(boundary, parts[|parts| - 1])
  }

  function Body(mp: MultipartRequest): string {
    var b := Boundary(mp);
    if mp.parts == [] then "--" + b + "\r\n\r\n\r\n--" + b + "--\r\n"
    else PartsText(b, mp.parts) + ("--" + b + "--\r\n")
  }

  method BuildPart(boundary: string, part: Part, tightSpacing: bool) returns (text: string)
    ensures text == PartText(boundary, part)
  {
    text := "--";
    for d := 0 to part.extraDashes
      invariant text == "--" + Dashes(d)
    {
      text := text + "-";
    }
    text := text + boundary;
    text := text + CRLF;
    var disposition := BuildDisposition(part);
    text := text + disposition;
    if tightSpacing {
      text := text + CRLF;
    } else {
      text := text + CRLF;
    }
    text := text + if part.body.Some? then part.body.value else "";
    text := text + if part.injectFakeBoundary then CRLF + "--" + boundary + CRLF else "";
    text := text + CRLF;
  }

  method BuildDisposition(part: Part) returns (text: string)
    ensures text == DispositionText(part)
  {
    text := "";
    var disp := DISPOSITIONS[part.disposition % 6];
    if disp != "" {
      text := "Content-Disposition: ";
      text := text + disp;
      text := text + if part.fieldName.Some? && part.fieldName.value != "" then "; name=\"" + part.fieldName.value + "\"" else "";
      text := text + CRLF;
    }
  }

  method BuildBody(mp: MultipartRequest) returns (body: string)
    ensures body == Body(mp)
  {
    hide PartText;
    var boundary := Boundary(mp);
    if |mp.parts| == 0 {
      body := "--";
      body := body + boundary;
      body := body + "\r\n\r\n\r\n--";
      body := body + boundary;
      body := body + "--\r\n";
    } else {
      body := "";
      for i := 0 to |mp.parts|
        invariant body == PartsText(boundary, mp.parts[..i])
      {
        assert mp.parts[..i + 1][..i] == mp.parts[..i];
        var text := BuildPart(boundary, mp.parts[i], mp.tightSpacing);
        body := body + text;
      }
      assert mp.parts[..|mp.parts|] == mp.parts;
      body := body + ("--" + boundary + "--\r\n");
    }
  }

  // ---- The body, read back after section 5.1.1 of RFC 2046 ----

  datatype BodyPart = BodyPart(fields: seq<Header>, content: string)

  function Delimiter(boundary: string): string {
    CRLF + "--" + boundary
  }

  /**
   * A full reader takes all that the section's grammar has a reader take: a preamble, padding behind
   * a boundary, and a part that ends after its fields, if it has any, without an empty line. A strict
   * one takes only what a composer should write.
   */
  datatype Reader = Strict | Full

  /** A part's fields and content; the fields may be all there is. */
  function ParsePart(reader: Reader, text: string): Option<(seq<Header>, string)> {
    if ParseFields(text).Some? || reader == Strict then ParseFields(text) else
    var fieldsOnly := ParseFields(text + CRLF);
    if fieldsOnly.Some? && fieldsOnly.value.1 == "" then fieldsOnly else None
  }

  /** A part up to the next delimiter, and what follows that delimiter. */
  function ReadPart(reader: Reader, boundary: string, s: string): (r: Option<(BodyPart, string)>)
    ensures r.Some? ==> |r.value.1| < |s|
  {
    var t := if reader == Full then TrimLeft(s) else s;
    if !At(t, 0, CRLF) then None else
    match Find(t[2..], Delimiter(boundary), 0)
    case None => None
    case Some(i) =>
      match ParsePart(reader, t[2..][..i])
      case None => None
      case Some((fields, content)) => Some((BodyPart(fields, content), t[2..][i + |Delimiter(boundary)|..]))
  }

  /** What follows a delimiter: the end, or a part and more. */
  function ReadParts(reader: Reader, boundary: string, s: string): Option<seq<BodyPart>>
    decreases |s|
  {
    if At(s, 0, "--") then Some([]) else
    match ReadPart(reader, boundary, s)
    case None => None
    case Some((part, rest)) =>
      match ReadParts(reader, boundary, rest)
      case None => None
      case Some(parts) => Some([part] + parts)
  }

  function ReadBody(reader: Reader, boundary: string, s: string): Option<seq<BodyPart>> {
    if At(s, 0, "--" + boundary) then ReadParts(reader, boundary, s[2 + |boundary|..])
    else if reader == Strict then None
    else match Find(s, Delimiter(boundary), 0)
         case None => None
         case Some(i) => ReadParts(reader, boundary, s[i + |Delimiter(boundary)|..])
  }

  function PartFields(part: Part): seq<Header> {
    var disp := DISPOSITIONS[part.disposition % 6];
    if disp == "" then []
    else if part.fieldName.Some? && part.fieldName.value != "" then
      [Header("Content-Disposition", disp + "; name=\"" + part.fieldName.value + "\"")]
    else [Header("Content-Disposition", disp)]
  }

  function PartContent(part: Part): string {
    Lines(PartFields(part)) + CRLF + ContentOf(part)
  }

  function Intended(part: Part): BodyPart {
    BodyPart(PartFields(part), ContentOf(part))
  }

  function IntendedParts(parts: seq<Part>): seq<BodyPart> {
    if parts == [] then [] else [Intended(parts[0])] + IntendedParts(parts[1..])
  }

  /**
   * The part asks for nothing that breaks the framing, its field stays on one line, and the
   * delimiter comes first where the part ends.
   */
  predicate WellFramed(boundary: string, part: Part) {
    && part.extraDashes == 0 && !part.injectFakeBoundary
    && (forall h :: h in PartFields(part) ==> OneLine(h.value))
    && Find(PartContent(part) + Delimiter(boundary), Delimiter(boundary), 0) == Some(|PartContent(part)|)
  }

  // ---- What is printed, part by part ----

  /** A message without parts is printed as one part without fields or content. */
  const NO_PART: Part := Part(3, None, None, false, 0)

  function PartsSent(mp: MultipartRequest): seq<Part> {
    if mp.parts == [] then [NO_PART] else mp.parts
  }

  function Printed(boundary: string, parts: seq<Part>): string {
    if parts == [] then "--" + boundary + "--\r\n" else PartText(boundary, parts[0]) + Printed(boundary, parts[1..])
  }

  lemma DispositionLines(part: Part)
    ensures DispositionText(part) == Lines(PartFields(part))
  {
    hide Lines;
    var disp := DISPOSITIONS[part.disposition % 6];
    NoLines("");
    if disp != "" {
      if part.fieldName.Some? && part.fieldName.value != "" {
        var name := "; name=\"" + part.fieldName.value + "\"";
        DispositionLine(disp, name);
        assert disp + name == disp + "; name=\"" + part.fieldName.value + "\"";
      } else {
        DispositionLine(disp, "");
        assert disp + "" == disp;
      }
    }
  }

  lemma DispositionLine(disp: string, name: string)
    ensures Lines([Header("Content-Disposition", disp + name)]) == "Content-Disposition: " + disp + name + CRLF
  {
  }

  lemma {:induction false} PartsFront(boundary: string, part: Part, parts: seq<Part>)
    ensures PartsText(boundary, [part] + parts) == PartText(boundary, part) + PartsText(boundary, parts)
  {
    hide PartText;
    if parts == [] {
      assert [part] + parts == [part] && [part][..0] == [];
    } else {
      assert ([part] + parts)[..|parts|] == [part] + parts[..|parts| - 1];
      PartsFront(boundary, part, parts[..|parts| - 1]);
    }
  }

  lemma {:induction false} PartsPrinted(boundary: string, parts: seq<Part>)
    ensures PartsText(boundary, parts) + ("--" + boundary + "--\r\n") == Printed(boundary, parts)
  {
    hide PartText;
    if parts == [] {
      assert "" + ("--" + boundary + "--\r\n") == "--" + boundary + "--\r\n";
    } else {
      var p, rest := parts[0], parts[1..];
      assert parts == [p] + rest;
      PartsFront(boundary, p, rest);
      PartsPrinted(boundary, rest);
      ConcatAssociative(PartText(boundary, p), PartsText(boundary, rest), "--" + boundary + "--\r\n");
    }
  }

  lemma EmptyIsOnePart(mp: MultipartRequest)
    requires mp.parts == []
    ensures Body(mp) == PartsText(Boundary(mp), [NO_PART]) + ("--" + Boundary(mp) + "--\r\n")
  {
    hide Boundary;
    var b := Boundary(mp);
    assert DispositionText(NO_PART) == "";
    assert PartText(b, NO_PART) == "--" + b + CRLF + CRLF + CRLF;
    assert [NO_PART][..0] == [];
    assert PartsText(b, [NO_PART]) == "--" + b + CRLF + CRLF + CRLF;
    assert "--" + b + "\r\n\r\n\r\n--" + b + "--\r\n" == "--" + b + CRLF + CRLF + CRLF + ("--" + b + "--\r\n");
  }

  lemma BodyPrinted(mp: MultipartRequest)
    ensures Body(mp) == Printed(Boundary(mp), PartsSent(mp))
  {
    hide Boundary, PartsText, PartText, Printed;
    if mp.parts == [] {
      EmptyIsOnePart(mp);
    }
    PartsPrinted(Boundary(mp), PartsSent(mp));
  }

  // ---- A part's fields and content ----

  lemma PartFieldsDelimited(part: Part)
    ensures |PartFields(part)| <= 1
    ensures forall h :: h in PartFields(part) ==> Delimited(h)
  {
    var disp := DISPOSITIONS[part.disposition % 6];
    DispositionsTrimmed(part.disposition % 6);
    NameLacks("Content-Disposition");
    hide Lacks, IsBlank;
    if disp != "" && part.fieldName.Some? {
      QuoteIsNoBlank(disp + "; name=\"" + part.fieldName.value);
    }
  }

  lemma DispositionsTrimmed(i: nat)
    requires i < 6
    ensures DISPOSITIONS[i] != "" ==> !IsBlank(DISPOSITIONS[i][0]) && !IsBlank(DISPOSITIONS[i][|DISPOSITIONS[i]| - 1])
  {
  }

  lemma QuoteIsNoBlank(s: string)
    ensures !IsBlank((s + "\"")[|s|])
  {
  }

  lemma LineOneLine(h: Header)
    requires Delimited(h)
    ensures OneLine(Line(h)) <==> OneLine(h.value)
  {
    hide OneLine, IsBlank;
    OneLineIff(Line(h));
    OneLineIff(h.value);
    var start := h.name + ": ";
    assert Line(h) == start + h.value;
    if !OneLine(h.value) {
      var i: nat :| i + 2 <= |h.value| && h.value[i] == '\r' && h.value[i + 1] == '\n';
      assert Line(h)[|start| + i] == '\r' && Line(h)[|start| + i + 1] == '\n';
    }
    if !OneLine(Line(h)) {
      var i: nat :| i + 2 <= |Line(h)| && Line(h)[i] == '\r' && Line(h)[i + 1] == '\n';
      assert forall j :: 0 <= j < |start| ==> start[j] != '\r';
      assert h.value[i - |start|] == '\r' && h.value[i + 1 - |start|] == '\n';
    }
  }

  lemma EmptyLineRead(content: string)
    ensures ParseFields(CRLF + content) == Some(([], content))
  {
    ReadLineOf("", content);
    assert "" + CRLF + content == CRLF + content;
  }

  lemma OneFieldText(h: Header, content: string)
    ensures Lines([h]) + CRLF + content == Line(h) + CRLF + (CRLF + content)
  {
    hide Line;
    assert [h][..0] == [];
    assert Lines([h]) == "" + Line(h) + CRLF;
  }

  lemma OneFieldRead(h: Header, content: string)
    requires Delimited(h) && OneLine(h.value)
    ensures ParseFields(Line(h) + CRLF + (CRLF + content)) == Some(([h], content))
  {
    LineOneLine(h);
    FieldRead(h);
    assert Line(h) != "";
    hide OneLine, Delimited, Line, ParseField, ReadLine;
    ReadOneLine(Line(h), CRLF + content);
    EmptyLineRead(content);
    assert [h] + [] == [h];
  }

  lemma ContentRead(part: Part)
    requires forall h :: h in PartFields(part) ==> OneLine(h.value)
    ensures ParseFields(PartContent(part)) == Some((PartFields(part), ContentOf(part)))
  {
    hide ParseFields, Delimited, OneLine, Line, ContentOf;
    PartFieldsDelimited(part);
    if PartFields(part) == [] {
      NoLines("");
      EmptyLineRead(ContentOf(part));
      assert PartContent(part) == CRLF + ContentOf(part);
    } else {
      var h := PartFields(part)[0];
      assert PartFields(part) == [h];
      hide PartFields;
      assert h in PartFields(part);
      OneFieldText(h, ContentOf(part));
      OneFieldRead(h, ContentOf(part));
    }
  }

  // ---- Only that content reads as that part ----

  lemma ParsedNone(y: string)
    requires ParseFields(y).Some? && ParseFields(y).value.0 == []
    ensures y == CRLF + ParseFields(y).value.1
  {
    hide ReadLine, ParseField;
    ReadLineSplits(y);
    assert "" + CRLF + ReadLine(y).value.1 == CRLF + ReadLine(y).value.1;
  }

  lemma ParsedOne(y: string)
    requires ParseFields(y).Some? && |ParseFields(y).value.0| == 1
    ensures ReadLine(y).Some?
    ensures var line := ReadLine(y).value.0;
            && y == line + CRLF + (CRLF + ParseFields(y).value.1) && OneLine(line)
            && ParseField(line) == Some(ParseFields(y).value.0[0])
  {
    hide ReadLine, ParseField, OneLine;
    ReadLineSplits(y);
    ParsedNone(ReadLine(y).value.1);
  }

  lemma PartOfOneLine(s: string, i: nat, j: nat)
    requires OneLine(s) && i <= j <= |s|
    ensures OneLine(s[i..j])
  {
    hide OneLine;
    OneLineIff(s);
    OneLineIff(s[i..j]);
  }

  lemma {:induction false} TrimLeftOneLine(s: string)
    requires OneLine(s)
    ensures OneLine(TrimLeft(s))
  {
    hide OneLine, IsBlank;
    if s != "" && IsBlank(s[0]) {
      PartOfOneLine(s, 1, |s|);
      assert s[1..|s|] == s[1..];
      TrimLeftOneLine(s[1..]);
    }
  }

  lemma {:induction false} TrimRightOneLine(s: string)
    requires OneLine(s)
    ensures OneLine(TrimRight(s))
  {
    hide OneLine, IsBlank;
    if s != "" && IsBlank(s[|s| - 1]) {
      PartOfOneLine(s, 0, |s| - 1);
      assert s[0..|s| - 1] == s[..|s| - 1];
      TrimRightOneLine(s[..|s| - 1]);
    }
  }

  lemma ValueOneLine(line: string)
    requires OneLine(line) && ParseField(line).Some?
    ensures OneLine(ParseField(line).value.value)
  {
    hide OneLine, IsBlank, TrimLeft, TrimRight, Find;
    var i := Find(line, ":", 0).value;
    assert i < |line|;
    PartOfOneLine(line, i + 1, |line|);
    assert line[i + 1..|line|] == line[i + 1..];
    TrimLeftOneLine(line[i + 1..]);
    TrimRightOneLine(TrimLeft(line[i + 1..]));
  }

  /** A line end comes no earlier than the end of the first line. */
  lemma NoEarlierEnd(z: string, line: string, n: nat)
    requires OneLine(line) && line + CRLF <= z
    requires n + 2 <= |z| && z[n] == '\r' && z[n + 1] == '\n'
    ensures |line| <= n
  {
    hide OneLine;
    OneLineIff(line);
    assert z[|line|] == '\r';
  }

  /** Two texts, one the start of the other, have the same first line. */
  lemma SameFirstLine(y: string, line: string, after: string, line2: string, after2: string)
    requires y == line + CRLF + after && OneLine(line) && OneLine(line2)
    requires y <= line2 + CRLF + after2
    ensures |line| == |line2|
  {
    hide OneLine;
    var z := line2 + CRLF + after2;
    assert z[|line2|] == '\r' && z[|line2| + 1] == '\n';
    NoEarlierEnd(z, line2, |line|);
    NoEarlierEnd(y, line, |line2|);
  }

  lemma OnlyFieldReads(h: Header, y: string, content: string, after: string)
    requires Delimited(h) && y <= Line(h) + CRLF + (CRLF + after)
    requires ParseFields(y) == Some(([h], content))
    ensures |y| == |Line(h)| + 4 + |content| && OneLine(h.value)
  {
    hide ParseFields, Delimited, OneLine, Line;
    ParsedOne(y);
    var line := ReadLine(y).value.0;
    ValueOneLine(line);
    LineOneLine(h);
    hide ReadLine, ParseField;
    SameFirstLine(y, line, CRLF + content, Line(h), CRLF + after);
  }

  /** Where a start of the part's text reads as the part, it is the part's own content. */
  lemma OnlyContentReads(part: Part, y: string, after: string)
    requires y <= Lines(PartFields(part)) + CRLF + after
    ensures ParseFields(y) == Some((PartFields(part), ContentOf(part))) ==>
              |y| == |PartContent(part)| && forall h :: h in PartFields(part) ==> OneLine(h.value)
  {
    hide ParseFields, Delimited, OneLine, Line, ContentOf;
    PartFieldsDelimited(part);
    var fields := PartFields(part);
    hide PartFields;
    if ParseFields(y) != Some((fields, ContentOf(part))) {
    } else if fields == [] {
      NoLines("");
      ParsedNone(y);
    } else {
      var h := fields[0];
      assert fields == [h] && h in fields;
      hide Lines;
      OneFieldText(h, after);
      OneFieldText(h, ContentOf(part));
      OnlyFieldReads(h, y, ContentOf(part), after);
    }
  }

  // ---- One part, read ----

  /** What follows the line end after a part's delimiter, if the part has no extra dashes. */
  function Following(boundary: string, part: Part, rest: string): string {
    PartContent(part) + FakeText(boundary, part) + CRLF + rest
  }

  lemma PartTextParts(boundary: string, part: Part, rest: string)
    requires part.extraDashes == 0
    ensures PartText(boundary, part) + rest == "--" + boundary + (CRLF + Following(boundary, part, rest))
  {
    hide DispositionText, PartFields, Lines, FakeText, ContentOf;
    DispositionLines(part);
    assert "--" + Dashes(0) == "--";
    Regroup("--" + boundary, Lines(PartFields(part)), ContentOf(part), FakeText(boundary, part), rest);
  }

  lemma Regroup(opening: string, fields: string, content: string, fake: string, rest: string)
    ensures opening + CRLF + fields + CRLF + content + fake + CRLF + rest ==
            opening + (CRLF + (fields + CRLF + content + fake + CRLF + rest))
  {
  }

  lemma ReadAfterDelimiter(reader: Reader, boundary: string, s: string)
    ensures ReadBody(reader, boundary, "--" + boundary + s) == ReadParts(reader, boundary, s)
  {
    hide ReadParts;
    var t := "--" + boundary + s;
    assert t[..2 + |boundary|] == "--" + boundary && t[2 + |boundary|..] == s;
  }

  /** A part is read where its text has the delimiter for the first time. */
  lemma ReadPartAt(reader: Reader, boundary: string, text: string, i: nat)
    requires Find(text, Delimiter(boundary), 0) == Some(i)
    ensures !At(CRLF + text, 0, "--")
    ensures ReadPart(reader, boundary, CRLF + text) ==
            match ParsePart(reader, text[..i])
            case None => None
            case Some((fields, content)) => Some((BodyPart(fields, content), text[i + |Delimiter(boundary)|..]))
  {
    hide ParsePart, Find, Delimiter;
    var s := CRLF + text;
    assert TrimLeft(s) == s;
    assert s[2..] == text && s[..2] == CRLF;
  }

  /** Finding a pattern for the first time at the end of a text does not depend on what follows. */
  lemma FoundAtEnd(text: string, pat: string, rest: string)
    ensures Find(text + pat + rest, pat, 0) == Some(|text|) <==> Find(text + pat, pat, 0) == Some(|text|)
  {
    hide Find;
    var s, t := text + pat + rest, text + pat;
    assert s[|text|..|text| + |pat|] == pat == t[|text|..|text| + |pat|];
    assert At(s, |text|, pat) && At(t, |text|, pat);
    forall i: nat | i < |text|
      ensures At(s, i, pat) <==> At(t, i, pat)
    {
      assert t[i..i + |pat|] == s[i..i + |pat|];
    }
  }

  /** The delimiter stands after a text exactly if what follows the line end starts with a boundary. */
  lemma DelimiterFollows(boundary: string, text: string, rest: string)
    ensures At(text + CRLF + rest, |text|, Delimiter(boundary)) <==> At(rest, 0, "--" + boundary)
    ensures At(rest, 0, "--" + boundary) ==>
              text + CRLF + rest == text + Delimiter(boundary) + rest[2 + |boundary|..]
  {
    var s, n := text + CRLF + rest, 2 + |boundary|;
    if n <= |rest| {
      assert s[|text|..|text| + 2 + n] == CRLF + rest[..n];
      assert Delimiter(boundary) == CRLF + ("--" + boundary);
      assert (CRLF + rest[..n])[2..] == rest[..n] && Delimiter(boundary)[2..] == "--" + boundary;
    }
  }

  lemma WellFramedRead(reader: Reader, boundary: string, part: Part, rest: string)
    requires WellFramed(boundary, part) && At(rest, 0, "--" + boundary)
    ensures ReadPart(reader, boundary, CRLF + Following(boundary, part, rest)) ==
            Some((Intended(part), rest[2 + |boundary|..]))
    ensures !At(CRLF + Following(boundary, part, rest), 0, "--")
  {
    hide ParseFields, Find, PartFields, OneLine, PartContent, Delimiter;
    var text, more := PartContent(part), rest[2 + |boundary|..];
    var pat := Delimiter(boundary);
    ContentRead(part);
    DelimiterFollows(boundary, text, rest);
    FoundAtEnd(text, pat, more);
    assert text + "" == text;
    assert Following(boundary, part, rest) == text + pat + more;
    ReadPartAt(reader, boundary, text + pat + more, |text|);
    assert (text + pat + more)[..|text|] == text && (text + pat + more)[|text| + |pat|..] == more;
  }

  predicate ReadsIntended(reader: Reader, boundary: string, part: Part, rest: string) {
    var r := ReadPart(reader, boundary, CRLF + Following(boundary, part, rest));
    r.Some? && r.value.0 == Intended(part)
  }

  /** A part read as intended is read where its own content ends. */
  lemma IntendedRead(reader: Reader, boundary: string, part: Part, rest: string)
    ensures ReadsIntended(reader, boundary, part, rest) ==>
              && Find(Following(boundary, part, rest), Delimiter(boundary), 0) == Some(|PartContent(part)|)
              && forall h :: h in PartFields(part) ==> OneLine(h.value)
  {
    hide ParseFields, Find, PartFields, OneLine, Delimiter, ContentOf, FakeText, Lines;
    if ReadsIntended(reader, boundary, part, rest) {
      var text := Following(boundary, part, rest);
      assert (CRLF + text)[2..] == text;
      var i := Find(text, Delimiter(boundary), 0).value;
      ReadPartAt(reader, boundary, text, i);
      hide ReadPart, ParsePart;
      IntendedParse(reader, boundary, part, rest, i);
    }
  }

  lemma IntendedParse(reader: Reader, boundary: string, part: Part, rest: string, i: nat)
    requires Find(Following(boundary, part, rest), Delimiter(boundary), 0) == Some(i)
    ensures ParsePart(reader, Following(boundary, part, rest)[..i]) == Some((PartFields(part), ContentOf(part))) ==>
              i == |PartContent(part)| && forall h :: h in PartFields(part) ==> OneLine(h.value)
  {
    hide ParseFields, Find, PartFields, OneLine, Delimiter, ContentOf, FakeText, Lines;
    var text := Following(boundary, part, rest);
    var after := ContentOf(part) + FakeText(boundary, part) + CRLF + rest;
    assert text == Lines(PartFields(part)) + CRLF + after;
    if ParseFields(text[..i]) == Some((PartFields(part), ContentOf(part))) {
      OnlyContentReads(part, text[..i], after);
    } else {
      NotFieldsOnly(boundary, part, rest, i);
    }
  }

  /** A part's text, which has an empty line, is not read as fields alone. */
  lemma NotFieldsOnly(boundary: string, part: Part, rest: string, i: nat)
    requires Find(Following(boundary, part, rest), Delimiter(boundary), 0) == Some(i)
    ensures ContentOf(part) == "" ==>
              ParseFields(Following(boundary, part, rest)[..i] + CRLF) != Some((PartFields(part), ""))
  {
    hide ParseFields, Find, PartFields, OneLine, Delimiter, FakeText, Lines, At;
    var text := Following(boundary, part, rest);
    DelimiterStarts(boundary, text, i);
    if ContentOf(part) == "" {
      NoContentText(boundary, part, rest);
      if ParseFields(text[..i] + CRLF) == Some((PartFields(part), "")) {
        assert text[..i] + CRLF == text[..i + 2];
        OnlyContentReads(part, text[..i + 2], FakeText(boundary, part) + CRLF + rest);
      }
    }
  }

  lemma NoContentText(boundary: string, part: Part, rest: string)
    requires ContentOf(part) == ""
    ensures var text := Following(boundary, part, rest);
            var n := |PartContent(part)|;
            && text == Lines(PartFields(part)) + CRLF + (FakeText(boundary, part) + CRLF + rest)
            && n < |text| && text[n] == '\r'
  {
    hide PartFields, Lines;
  }

  lemma DelimiterStarts(boundary: string, s: string, i: nat)
    requires At(s, i, Delimiter(boundary))
    ensures i + 4 <= |s| && s[i] == '\r' && s[i + 1] == '\n' && s[i + 2] == '-' && s[i + 3] == '-'
  {
    var w := s[i..i + |Delimiter(boundary)|];
    assert w[0] == s[i] && w[1] == s[i + 1] && w[2] == s[i + 2] && w[3] == s[i + 3];
  }

  // ---- Where dashes or a fake boundary break the framing ----

  /** A boundary is all dashes or has none. */
  predicate Shaped(b: string) {
    b != "" && ((forall c :: c in b ==> c == '-') || '-' !in b)
  }

  lemma BoundaryShaped(mp: MultipartRequest)
    ensures Shaped(Boundary(mp))
  {
  }

  lemma AllDashes(b: string)
    requires Shaped(b) && '-' in b
    ensures forall k :: 0 <= k < |b| ==> b[k] == '-'
  {
    forall k | 0 <= k < |b|
      ensures b[k] == '-'
    {
      assert b[k] in b;
    }
  }

  lemma {:induction false} DashesOnly(n: nat)
    ensures |Dashes(n)| == n && forall k :: 0 <= k < n ==> Dashes(n)[k] == '-'
  {
    if n > 0 {
      DashesOnly(n - 1);
    }
  }

  /** The text of a part, with the dashes in front of its boundary. */
  lemma DashedText(boundary: string, part: Part, rest: string)
    ensures var dashes := "--" + Dashes(part.extraDashes);
            && |dashes| == 2 + part.extraDashes && (forall k :: 0 <= k < |dashes| ==> dashes[k] == '-')
            && PartText(boundary, part) + rest ==
                 dashes + boundary + (CRLF + DispositionText(part) + CRLF + ContentOf(part) + FakeText(boundary, part) + CRLF + rest)
  {
    hide DispositionText, FakeText, ContentOf, Dashes;
    DashesOnly(part.extraDashes);
  }

  /** With extra dashes a part's delimiter is not one, or reads as the end. */
  lemma DashesBreak(boundary: string, part: Part, rest: string)
    requires Shaped(boundary) && part.extraDashes > 0
    ensures ReadBody(Strict, boundary, PartText(boundary, part) + rest) in {None, Some([])}
  {
    hide DispositionText, FakeText, ContentOf, Dashes, ReadBody;
    DashedText(boundary, part, rest);
    DashedRead(boundary, "--" + Dashes(part.extraDashes),
               CRLF + DispositionText(part) + CRLF + ContentOf(part) + FakeText(boundary, part) + CRLF + rest);
  }

  lemma DashedRead(boundary: string, dashes: string, after: string)
    requires Shaped(boundary) && |dashes| > 2 && forall k :: 0 <= k < |dashes| ==> dashes[k] == '-'
    ensures ReadBody(Strict, boundary, dashes + boundary + after) in {None, Some([])}
  {
    hide ReadPart;
    var s := dashes + boundary + after;
    if '-' in boundary {
      AllDashes(boundary);
      var rest := s[2 + |boundary|..];
      assert rest[0] == s[2 + |boundary|] == '-';
      NotALineEnd(boundary, rest);
    } else {
      assert s[2] == '-' && boundary[0] in boundary;
      assert ("--" + boundary)[2] == boundary[0];
    }
  }

  lemma NotALineEnd(boundary: string, s: string)
    requires s != "" && s[0] == '-'
    ensures ReadParts(Strict, boundary, s) in {None, Some([])}
  {
    AtCrlf(s, 0);
  }

  /** `x` repeats the text before it; then what stands after it stands earlier as well. */
  lemma Repeats(u: string, x: string, rest: string, pat: string)
    requires x <= u + x + rest && |u| <= |x| && |pat| <= |u|
    requires At(u + x + rest, |x|, pat)
    ensures At(u + x + rest, |x| - |u|, pat)
  {
    var f, n := u + x + rest, |x| - |u|;
    assert forall k :: 0 <= k < |x| ==> f[k] == x[k] == f[|u| + k];
    assert f[n..n + |pat|] == f[|x|..|x| + |pat|];
  }

  /** A text with extra dashes in front never repeats itself up to the delimiter for the first time. */
  lemma NoRepetition(boundary: string, dashes: string, x: string, rest: string)
    requires boundary != "" && '-' !in boundary
    requires |dashes| > 2 && forall k :: 0 <= k < |dashes| ==> dashes[k] == '-'
    requires var f := dashes + boundary + CRLF + CRLF + x + rest;
             && x <= f && At(f, |x|, Delimiter(boundary))
    ensures exists k: nat :: k < |x| && At(dashes + boundary + CRLF + CRLF + x + rest, k, Delimiter(boundary))
  {
    var u := dashes + boundary + CRLF + CRLF;
    LongRepetition(boundary, dashes, x, rest);
    Repeats(u, x, rest, Delimiter(boundary));
  }

  lemma LongRepetition(boundary: string, dashes: string, x: string, rest: string)
    requires boundary != "" && '-' !in boundary
    requires |dashes| > 2 && forall k :: 0 <= k < |dashes| ==> dashes[k] == '-'
    requires var f := dashes + boundary + CRLF + CRLF + x + rest;
             && x <= f && At(f, |x|, Delimiter(boundary))
    ensures |dashes + boundary + CRLF + CRLF| <= |x|
  {
    hide At, Delimiter;
    DelimiterChars(boundary, dashes + boundary + CRLF + CRLF + x + rest, |x|);
    assert boundary[0] in boundary;
    if |x| < |dashes + boundary + CRLF + CRLF| {
      ShortRepetition(boundary, dashes, x, rest);
    }
  }

  lemma DelimiterChars(boundary: string, s: string, i: nat)
    requires boundary != "" && At(s, i, Delimiter(boundary))
    ensures i + 5 <= |s| && s[i] == '\r' && s[i + 1] == '\n' && s[i + 2] == '-' && s[i + 3] == '-' && s[i + 4] == boundary[0]
  {
    var w := s[i..i + |Delimiter(boundary)|];
    assert w[0] == s[i] && w[1] == s[i + 1] && w[2] == s[i + 2] && w[3] == s[i + 3] && w[4] == s[i + 4];
  }

  lemma ShortRepetition(boundary: string, dashes: string, x: string, rest: string)
    requires boundary != "" && '-' !in boundary
    requires |dashes| > 2 && forall k :: 0 <= k < |dashes| ==> dashes[k] == '-'
    requires var u := dashes + boundary + CRLF + CRLF;
             x <= u + x + rest && |x| < |u| && |x| + 5 <= |u + x + rest|
    ensures var f := dashes + boundary + CRLF + CRLF + x + rest;
            f[|x|] == '\r' && f[|x| + 2] == '-' ==> f[|x| + 4] == '-'
  {
    var u := dashes + boundary + CRLF + CRLF;
    var f := u + x + rest;
    var tail := boundary + CRLF + CRLF;
    assert forall c :: c in tail ==> c != '-';
    assert forall k :: |dashes| <= k < |u| ==> u[k] == tail[k - |dashes|];
    assert u[|u| - 1] == '\n';
    if f[|x|] == '\r' && f[|x| + 2] == '-' {
      assert |x| == |u| - 2;
      assert f[|x| + 4] == x[2] == f[2] == '-';
    }
  }

  lemma NothingRead()
    ensures ParseFields("") == None
  {
  }

  /** Nothing stands between two delimiters: no part can be read. */
  lemma EmptyPart(boundary: string, f: string)
    requires At(f, 0, "--" + boundary)
    ensures ReadPart(Strict, boundary, CRLF + (CRLF + f)) == None
  {
    hide ParseFields, Delimiter;
    var text := CRLF + f;
    assert "" + CRLF + f == text;
    DelimiterFollows(boundary, "", f);
    assert Find(text, Delimiter(boundary), 0) == Some(0);
    hide Find, At;
    ReadPartAt(Strict, boundary, text, 0);
    NothingRead();
  }

  lemma StartsPlainly(boundary: string, s: string)
    ensures At("--" + boundary + s, 0, "--" + boundary)
  {
    assert ("--" + boundary + s)[..2 + |boundary|] == "--" + boundary;
  }

  lemma DashesStart(boundary: string, dashes: string, after: string)
    requires Shaped(boundary) && '-' in boundary
    requires |dashes| > 2 && forall k :: 0 <= k < |dashes| ==> dashes[k] == '-'
    ensures At(dashes + boundary + after, 0, "--" + boundary)
  {
    var s := dashes + boundary + after;
    AllDashes(boundary);
    assert forall k :: 0 <= k < 2 + |boundary| ==> s[k] == '-' == ("--" + boundary)[k];
    assert s[..2 + |boundary|] == "--" + boundary;
  }

  lemma NotPrintedPlainly(boundary: string, parts: seq<Part>)
    requires Shaped(boundary)
    ensures !At(Printed(boundary, parts), 0, "--" + boundary) ==>
              parts != [] && parts[0].extraDashes > 0 && '-' !in boundary
  {
    hide PartText, At, Shaped;
    if parts == [] {
      StartsPlainly(boundary, "--\r\n");
    } else {
      var p, rest := parts[0], Printed(boundary, parts[1..]);
      if p.extraDashes == 0 {
        PartTextParts(boundary, p, rest);
        StartsPlainly(boundary, CRLF + Following(boundary, p, rest));
      } else {
        DashedText(boundary, p, rest);
        if '-' in boundary {
          DashesStart(boundary, "--" + Dashes(p.extraDashes),
                      CRLF + DispositionText(p) + CRLF + ContentOf(p) + FakeText(boundary, p) + CRLF + rest);
        }
      }
    }
  }

  lemma FakePlace(boundary: string, f: string, i: nat)
    requires boundary != "" && '-' !in boundary && |f| > 2 && f[2] == '-'
    requires At(CRLF + f, i, Delimiter(boundary))
    ensures i >= 2
  {
    hide At, Delimiter;
    var text := CRLF + f;
    DelimiterChars(boundary, text, i);
    assert boundary[0] in boundary;
    assert text[1] == '\n' && text[4] == '-';
  }

  /** What is read between two line ends and the first delimiter after them. */
  lemma FakeContent(boundary: string, f: string, i: nat, fields: seq<Header>, x: string)
    requires Find(CRLF + f, Delimiter(boundary), 0) == Some(i)
    requires ParseFields((CRLF + f)[..i]) == Some((fields, x))
    requires boundary != "" && '-' !in boundary && |f| > 2 && f[2] == '-'
    ensures fields == [] && x <= f && At(f, |x|, Delimiter(boundary))
    ensures forall k: nat :: k < |x| ==> !At(f, k, Delimiter(boundary))
  {
    hide ParseFields, Find, At, Delimiter;
    var text := CRLF + f;
    FakePlace(boundary, f, i);
    EmptyLineRead(f[..i - 2]);
    assert text[..i] == CRLF + f[..i - 2];
    AtShifted(f, i - 2, Delimiter(boundary));
    forall k: nat | k < |x|
      ensures !At(f, k, Delimiter(boundary))
    {
      assert !At(text, k + 2, Delimiter(boundary));
      AtShifted(f, k, Delimiter(boundary));
    }
  }

  lemma AtShifted(f: string, k: nat, pat: string)
    ensures At(CRLF + f, k + 2, pat) <==> At(f, k, pat)
  {
    if k + |pat| <= |f| {
      assert (CRLF + f)[k + 2..k + 2 + |pat|] == f[k..k + |pat|];
    }
  }

  lemma FakeMisreads(boundary: string, part: Part, rest: string)
    requires boundary != "" && '-' !in boundary && part.extraDashes > 0
    ensures var r := ReadPart(Strict, boundary, CRLF + (CRLF + (PartText(boundary, part) + rest)));
            r.Some? ==> r.value.0 != Intended(part)
  {
    hide ParseFields, Find, PartText, At, Delimiter, Dashes, FakeText, ContentOf, DispositionText, PartFields;
    var f := PartText(boundary, part) + rest;
    var text := CRLF + f;
    var r := ReadPart(Strict, boundary, CRLF + text);
    if r.Some? && r.value.0 == Intended(part) {
      assert (CRLF + text)[2..] == text;
      var i := Find(text, Delimiter(boundary), 0).value;
      ReadPartAt(Strict, boundary, text, i);
      DashedText(boundary, part, rest);
      var dashes := "--" + Dashes(part.extraDashes);
      assert f[2] == dashes[2];
      FakeContent(boundary, f, i, PartFields(part), ContentOf(part));
      UnnamedText(boundary, part, dashes, rest);
      NoRepetition(boundary, dashes, ContentOf(part), FakeText(boundary, part) + CRLF + rest);
    }
  }

  lemma UnnamedText(boundary: string, part: Part, dashes: string, rest: string)
    requires PartFields(part) == [] && dashes == "--" + Dashes(part.extraDashes)
    ensures PartText(boundary, part) + rest ==
            dashes + boundary + CRLF + CRLF + ContentOf(part) + (FakeText(boundary, part) + CRLF + rest)
  {
    hide FakeText, ContentOf, Dashes;
    assert DispositionText(part) == "";
  }

  /**
   * After a fake boundary a strict reader takes the part that follows for one without fields, or
   * fails; that is never the part which was meant.
   */
  lemma StrictFakeBreaks(boundary: string, parts: seq<Part>)
    requires Shaped(boundary)
    ensures ReadParts(Strict, boundary, CRLF + (CRLF + Printed(boundary, parts))) != Some(IntendedParts(parts))
  {
    hide ReadPart, At, PartText;
    var f := Printed(boundary, parts);
    NoDashes(CRLF + f);
    if At(f, 0, "--" + boundary) {
      EmptyPart(boundary, f);
    } else {
      NotPrintedPlainly(boundary, parts);
      FakeMisreads(boundary, parts[0], Printed(boundary, parts[1..]));
      var r := ReadPart(Strict, boundary, CRLF + (CRLF + f));
      if r.Some? && ReadParts(Strict, boundary, r.value.1).Some? {
        ConsInjective(r.value.0, ReadParts(Strict, boundary, r.value.1).value, Intended(parts[0]), IntendedParts(parts[1..]));
      }
    }
  }

  const EMPTY_PART := BodyPart([], "")

  ghost predicate Undashed(parts: seq<Part>) {
    forall p :: p in parts ==> p.extraDashes == 0
  }

  lemma UndashedStarts(boundary: string, parts: seq<Part>)
    requires Undashed(parts)
    ensures At(Printed(boundary, parts), 0, "--" + boundary)
  {
    hide PartText, At;
    if parts == [] {
      StartsPlainly(boundary, "--\r\n");
    } else {
      var p, rest := parts[0], Printed(boundary, parts[1..]);
      PartTextParts(boundary, p, rest);
      StartsPlainly(boundary, CRLF + Following(boundary, p, rest));
    }
  }

  /** A full reader takes nothing between two delimiters for a part without fields and content. */
  lemma EmptyTextRead(boundary: string, f: string)
    requires At(f, 0, "--" + boundary)
    ensures ReadPart(Full, boundary, CRLF + (CRLF + f)) == Some((EMPTY_PART, f[2 + |boundary|..]))
  {
    hide ParseFields, Delimiter;
    var text := CRLF + f;
    assert "" + CRLF + f == text;
    DelimiterFollows(boundary, "", f);
    assert "" + Delimiter(boundary) + f[2 + |boundary|..] == Delimiter(boundary) + f[2 + |boundary|..];
    assert Find(text, Delimiter(boundary), 0) == Some(0);
    hide Find, At;
    ReadPartAt(Full, boundary, text, 0);
    NothingRead();
    EmptyLineRead("");
    assert "" + CRLF == CRLF + "";
  }

  lemma EmptyPartText(boundary: string, part: Part, rest: string)
    requires Intended(part) == EMPTY_PART && At(rest, 0, "--" + boundary)
    ensures Following(boundary, part, rest) ==
            CRLF + Delimiter(boundary) + (if part.injectFakeBoundary then CRLF + (CRLF + rest) else rest[2 + |boundary|..])
  {
    hide Following, FakeText, Delimiter;
    FollowingText(boundary, part, rest);
    NoLines("");
    assert PartContent(part) == CRLF;
    hide PartContent, PartFields, ContentOf;
    if part.injectFakeBoundary {
      FakeJoin(boundary, CRLF, rest);
    } else {
      DelimiterFollows(boundary, CRLF, rest);
    }
  }

  lemma EmptyLinePartRead(boundary: string, more: string)
    ensures ReadPart(Full, boundary, CRLF + (CRLF + Delimiter(boundary) + more)) == Some((EMPTY_PART, more))
  {
    var pat := Delimiter(boundary);
    FoundAfterLine(boundary, more);
    hide Delimiter, ParseFields, Find, At;
    EmptyLineRead("");
    assert CRLF + "" == CRLF;
    ReadPartAt(Full, boundary, CRLF + pat + more, 2);
    assert (CRLF + pat + more)[..2] == CRLF && (CRLF + pat + more)[2 + |pat|..] == more;
  }

  /** What is read of a part without fields and content. */
  lemma EmptyPartRead(boundary: string, part: Part, rest: string)
    requires Intended(part) == EMPTY_PART && At(rest, 0, "--" + boundary)
    ensures ReadPart(Full, boundary, CRLF + Following(boundary, part, rest)) ==
            Some((EMPTY_PART, if part.injectFakeBoundary then CRLF + (CRLF + rest) else rest[2 + |boundary|..]))
  {
    hide ReadPart, Following, Delimiter, Intended;
    EmptyPartText(boundary, part, rest);
    EmptyLinePartRead(boundary, if part.injectFakeBoundary then CRLF + (CRLF + rest) else rest[2 + |boundary|..]);
  }

  lemma FoundAfterLine(boundary: string, more: string)
    ensures Find(CRLF + Delimiter(boundary) + more, Delimiter(boundary), 0) == Some(2)
  {
    hide Find;
    var pat := Delimiter(boundary);
    var s := CRLF + pat + more;
    assert s[2..2 + |pat|] == pat;
    assert At(s, 2, pat);
    forall i: nat | i < 2
      ensures !At(s, i, pat)
    {
      assert s[1] == '\n' && s[2] == '\r';
      if At(s, i, pat) {
        DelimiterStarts(boundary, s, i);
      }
    }
  }

  lemma {:induction false} IntendedSize(parts: seq<Part>)
    ensures |IntendedParts(parts)| == |parts|
  {
    if parts != [] {
      IntendedSize(parts[1..]);
    }
  }

  lemma IntendedFrom(parts: seq<Part>, k: nat)
    requires k <= |parts|
    ensures IntendedParts(parts[k..]) ==
            if k == |parts| then [] else [Intended(parts[k])] + IntendedParts(parts[k + 1..])
  {
    hide Intended;
    if k < |parts| {
      assert parts[k..][1..] == parts[k + 1..];
    }
  }

  lemma RestIsBody(boundary: string, rest: string)
    requires At(rest, 0, "--" + boundary)
    ensures ReadBody(Full, boundary, rest) == ReadParts(Full, boundary, rest[2 + |boundary|..])
  {
  }

  /** What a full reader makes of a part without fields and content, and of what follows. */
  lemma EmptyPartsRead(boundary: string, part: Part, rest: string)
    requires Intended(part) == EMPTY_PART && part.extraDashes == 0 && At(rest, 0, "--" + boundary)
    ensures var body := ReadBody(Full, boundary, rest);
            ReadBody(Full, boundary, PartText(boundary, part) + rest) ==
            if body == None then None
            else if part.injectFakeBoundary then Some([EMPTY_PART] + ([EMPTY_PART] + body.value))
            else Some([EMPTY_PART] + body.value)
  {
    hide ReadBody, Intended, PartText, At, Following, ReadPart;
    PartTextParts(boundary, part, rest);
    ReadAfterDelimiter(Full, boundary, CRLF + Following(boundary, part, rest));
    NoDashes(Following(boundary, part, rest));
    EmptyPartRead(boundary, part, rest);
    RestIsBody(boundary, rest);
    if part.injectFakeBoundary {
      NoDashes(CRLF + rest);
      EmptyTextRead(boundary, rest);
    }
  }

  /** A full reader that is some empty parts ahead of what is meant stays ahead. */
  lemma {:induction false} NeverCaughtUp(boundary: string, parts: seq<Part>, ahead: nat)
    requires Undashed(parts) && 1 <= ahead <= |parts|
    requires forall k :: 0 <= k < ahead ==> Intended(parts[k]) == EMPTY_PART
    ensures ReadBody(Full, boundary, Printed(boundary, parts)) != Some(IntendedParts(parts[ahead..]))
    decreases |parts|
  {
    hide ReadBody, Intended, PartText, At, IntendedParts;
    var p, tail := parts[0], parts[1..];
    var rest := Printed(boundary, tail);
    UndashedStarts(boundary, tail);
    EmptyPartsRead(boundary, p, rest);
    IntendedFrom(parts, ahead);
    var body := ReadBody(Full, boundary, rest);
    if body.Some? && ahead < |parts| {
      IntendedFrom(parts, ahead + 1);
      var next := Intended(parts[ahead]);
      if !p.injectFakeBoundary {
        ConsInjective(EMPTY_PART, body.value, next, IntendedParts(parts[ahead + 1..]));
        if next == EMPTY_PART {
          NeverCaughtUp(boundary, tail, ahead);
          assert tail[ahead..] == parts[ahead + 1..];
        }
      } else {
        ConsInjective(EMPTY_PART, [EMPTY_PART] + body.value, next, IntendedParts(parts[ahead + 1..]));
        if next == EMPTY_PART && ahead + 1 < |parts| {
          ConsInjective(EMPTY_PART, body.value, Intended(parts[ahead + 1]), IntendedParts(parts[ahead + 2..]));
          if Intended(parts[ahead + 1]) == EMPTY_PART {
            NeverCaughtUp(boundary, tail, ahead + 1);
            assert tail[ahead + 1..] == parts[ahead + 2..];
          }
        }
      }
    }
  }

  /** So after a fake boundary a full reader, too, never reads the parts which were meant. */
  lemma FullFakeBreaks(boundary: string, parts: seq<Part>)
    requires Undashed(parts)
    ensures ReadParts(Full, boundary, CRLF + (CRLF + Printed(boundary, parts))) != Some(IntendedParts(parts))
  {
    hide ReadBody, At, ReadPart, Intended, IntendedParts, Printed;
    var rest := Printed(boundary, parts);
    UndashedStarts(boundary, parts);
    NoDashes(CRLF + rest);
    EmptyTextRead(boundary, rest);
    RestIsBody(boundary, rest);
    IntendedFrom(parts, 0);
    assert parts[0..] == parts;
    var body := ReadBody(Full, boundary, rest);
    if body.Some? && parts != [] {
      ConsInjective(EMPTY_PART, body.value, Intended(parts[0]), IntendedParts(parts[1..]));
      if Intended(parts[0]) == EMPTY_PART {
        NeverCaughtUp(boundary, parts, 1);
      }
    }
  }

  lemma NoDashes(s: string)
    ensures !At(CRLF + s, 0, "--")
  {
    assert |s| >= 0 && (CRLF + s)[..2] == CRLF;
  }

  // ---- Exactly which bodies read back ----

  /** What stands behind a part that is read as intended. */
  lemma RestRead(reader: Reader, boundary: string, part: Part, rest: string)
    requires part.extraDashes == 0
    ensures ReadsIntended(reader, boundary, part, rest) ==>
              var after := ReadPart(reader, boundary, CRLF + Following(boundary, part, rest)).value.1;
              if part.injectFakeBoundary then after == CRLF + (CRLF + rest)
              else WellFramed(boundary, part) && At(rest, 0, "--" + boundary) && after == rest[2 + |boundary|..]
  {
    IntendedRead(reader, boundary, part, rest);
    FollowingText(boundary, part, rest);
    hide ParseFields, Find, PartFields, OneLine, PartContent, Delimiter, At, ReadPart, Following, FakeText, WellFramed;
    if ReadsIntended(reader, boundary, part, rest) {
      var content := PartContent(part);
      ReadPartAt(reader, boundary, Following(boundary, part, rest), |content|);
      if part.injectFakeBoundary {
        FakeRest(boundary, content, rest);
      } else {
        PlainRest(boundary, content, rest);
        FramedWell(boundary, part);
      }
    }
  }

  lemma FollowingText(boundary: string, part: Part, rest: string)
    ensures Following(boundary, part, rest) ==
            if part.injectFakeBoundary then PartContent(part) + (CRLF + "--" + boundary + CRLF) + CRLF + rest
            else PartContent(part) + CRLF + rest
  {
    hide PartContent;
    assert PartContent(part) + "" == PartContent(part);
  }

  lemma FramedWell(boundary: string, part: Part)
    requires part.extraDashes == 0 && !part.injectFakeBoundary
    requires forall h :: h in PartFields(part) ==> OneLine(h.value)
    requires Find(PartContent(part) + Delimiter(boundary), Delimiter(boundary), 0) == Some(|PartContent(part)|)
    ensures WellFramed(boundary, part)
  {
    hide Find, PartFields, OneLine, PartContent, Delimiter;
  }

  lemma PlainRest(boundary: string, content: string, rest: string)
    requires Find(content + CRLF + rest, Delimiter(boundary), 0) == Some(|content|)
    ensures At(rest, 0, "--" + boundary)
    ensures Find(content + Delimiter(boundary), Delimiter(boundary), 0) == Some(|content|)
    ensures var text := content + CRLF + rest;
            var n := |content| + |Delimiter(boundary)|;
            n <= |text| && text[n..] == rest[2 + |boundary|..]
  {
    hide Find, At;
    var pat := Delimiter(boundary);
    DelimiterFollows(boundary, content, rest);
    var more := rest[2 + |boundary|..];
    FoundAtEnd(content, pat, more);
    hide Delimiter;
    assert (content + pat + more)[|content| + |pat|..] == more;
  }

  lemma FakeRest(boundary: string, content: string, rest: string)
    ensures var pat := Delimiter(boundary);
            var text := content + (CRLF + "--" + boundary + CRLF) + CRLF + rest;
            |text| >= |content| + |pat| && text[|content| + |pat|..] == CRLF + (CRLF + rest)
  {
    FakeJoin(boundary, content, rest);
  }

  lemma FakeJoin(boundary: string, content: string, rest: string)
    ensures content + (CRLF + "--" + boundary + CRLF) + CRLF + rest == content + Delimiter(boundary) + (CRLF + (CRLF + rest))
  {
  }

  /** What the converse needs: a strict reader, or no part with extra dashes. */
  ghost predicate Decides(reader: Reader, boundary: string, parts: seq<Part>) {
    Shaped(boundary) && (reader == Full ==> Undashed(parts))
  }

  lemma PartReadIff(reader: Reader, boundary: string, part: Part, parts: seq<Part>)
    requires Decides(reader, boundary, parts) && part.extraDashes == 0
    ensures var rest := Printed(boundary, parts);
            ReadBody(reader, boundary, PartText(boundary, part) + rest) == Some([Intended(part)] + IntendedParts(parts)) <==>
            WellFramed(boundary, part) && At(rest, 0, "--" + boundary) &&
            ReadParts(reader, boundary, rest[2 + |boundary|..]) == Some(IntendedParts(parts))
  {
    hide Printed, IntendedParts, Shaped, WellFramed, PartText, ReadPart, Following, Intended, At, Undashed, ReadBody;
    var rest := Printed(boundary, parts);
    var s := CRLF + Following(boundary, part, rest);
    PartTextParts(boundary, part, rest);
    ReadAfterDelimiter(reader, boundary, s);
    NoDashes(Following(boundary, part, rest));
    if WellFramed(boundary, part) && At(rest, 0, "--" + boundary) {
      WellFramedRead(reader, boundary, part, rest);
    }
    var r := ReadPart(reader, boundary, s);
    if r.Some? && r.value.0 == Intended(part) {
      RestRead(reader, boundary, part, rest);
      if reader == Full {
        FullFakeBreaks(boundary, parts);
      } else {
        StrictFakeBreaks(boundary, parts);
      }
    }
    if r.Some? && ReadParts(reader, boundary, r.value.1).Some? {
      ConsInjective(r.value.0, ReadParts(reader, boundary, r.value.1).value, Intended(part), IntendedParts(parts));
    }
  }

  lemma EndRead(reader: Reader, boundary: string)
    ensures ReadBody(reader, boundary, "--" + boundary + "--\r\n") == Some([])
  {
    ReadAfterDelimiter(reader, boundary, "--\r\n");
    assert "--\r\n"[..2] == "--";
  }

  /** Well-framed parts have no extra dashes, so what follows them starts with the boundary. */
  lemma WellFramedUndashed(boundary: string, parts: seq<Part>)
    requires forall p :: p in parts ==> WellFramed(boundary, p)
    ensures Undashed(parts)
  {
  }

  lemma StartedBody(reader: Reader, boundary: string, s: string)
    ensures At(s, 0, "--" + boundary) ==> ReadBody(reader, boundary, s) == ReadParts(reader, boundary, s[2 + |boundary|..])
    ensures reader == Strict && !At(s, 0, "--" + boundary) ==> ReadBody(reader, boundary, s) == None
  {
  }

  lemma {:induction false} PrintedReadIff(reader: Reader, boundary: string, parts: seq<Part>)
    requires Decides(reader, boundary, parts)
    ensures ReadBody(reader, boundary, Printed(boundary, parts)) == Some(IntendedParts(parts)) <==>
            forall p :: p in parts ==> WellFramed(boundary, p)
  {
    hide ReadBody, Shaped, PartText, Intended, At;
    if parts == [] {
      EndRead(reader, boundary);
    } else {
      var p, tail := parts[0], parts[1..];
      assert parts == [p] + tail && p in parts;
      PrintedReadIff(reader, boundary, tail);
      if p.extraDashes > 0 {
        DashesBreak(boundary, p, Printed(boundary, tail));
      } else {
        hide WellFramed;
        StartedBody(reader, boundary, Printed(boundary, tail));
        if reader == Full {
          UndashedStarts(boundary, tail);
        }
        PartReadIff(reader, boundary, p, tail);
      }
    }
  }

  lemma IntendedIff(reader: Reader, mp: MultipartRequest)
    requires reader == Full ==> Undashed(PartsSent(mp))
    ensures ReadBody(reader, Boundary(mp), Body(mp)) == Some(IntendedParts(PartsSent(mp))) <==>
            forall p :: p in PartsSent(mp) ==> WellFramed(Boundary(mp), p)
  {
    BoundaryShaped(mp);
    hide Boundary, Body, ReadBody, PartsSent, WellFramed, IntendedParts, Printed, Shaped, Undashed;
    BodyPrinted(mp);
    PrintedReadIff(reader, Boundary(mp), PartsSent(mp));
  }

  /** What a part read back must be, by the part's own fields. */
  predicate PartAsked(part: Part, read: BodyPart) {
    var disp := DISPOSITIONS[part.disposition % 6];
    && read.content == (match part.body case Some(b) => b case None => "")
    && (disp == "" ==> read.fields == [])
    && (disp != "" ==>
          && |read.fields| == 1 && read.fields[0].name == "Content-Disposition"
          && read.fields[0].value ==
               if part.fieldName == None || part.fieldName.value == "" then disp
               else disp + "; name=\"" + part.fieldName.value + "\"")
  }

  predicate EachAsked(parts: seq<Part>, read: seq<BodyPart>) {
    |read| == |parts| && forall i :: 0 <= i < |parts| ==> PartAsked(parts[i], read[i])
  }

  /** The parts read back are those of the message, one for one; of none at all, one empty part. */
  predicate PartsAsked(mp: MultipartRequest, read: seq<BodyPart>) {
    if mp.parts == [] then read == [BodyPart([], "")]
    else EachAsked(mp.parts, read)
  }

  lemma IntendedIsAsked(part: Part, read: BodyPart)
    ensures PartAsked(part, read) <==> read == Intended(part)
  {
    var disp := DISPOSITIONS[part.disposition % 6];
    if disp != "" && |read.fields| == 1 {
      var f := read.fields[0];
      assert read.fields == [f] && f == Header(f.name, f.value);
    } else if disp != "" {
      assert |PartFields(part)| == 1;
    }
  }

  lemma {:induction false} IntendedEach(parts: seq<Part>, read: seq<BodyPart>)
    ensures EachAsked(parts, read) <==> read == IntendedParts(parts)
  {
    hide PartAsked, Intended, EachAsked;
    if parts == [] || read == [] {
      EachOfNone(parts, read);
    } else {
      var x, xs := read[0], read[1..];
      assert read == [x] + xs;
      IntendedEach(parts[1..], xs);
      IntendedIsAsked(parts[0], x);
      ConsInjective(x, xs, Intended(parts[0]), IntendedParts(parts[1..]));
      EachAskedFront(parts, x, xs);
    }
  }

  lemma EachOfNone(parts: seq<Part>, read: seq<BodyPart>)
    requires parts == [] || read == []
    ensures EachAsked(parts, read) <==> read == IntendedParts(parts)
  {
  }

  lemma EachAskedFront(parts: seq<Part>, x: BodyPart, xs: seq<BodyPart>)
    requires parts != []
    ensures EachAsked(parts, [x] + xs) <==> PartAsked(parts[0], x) && EachAsked(parts[1..], xs)
  {
    hide PartAsked;
    var read := [x] + xs;
    if EachAsked(parts, read) {
      assert read[0] == x;
      forall i | 0 <= i < |parts[1..]|
        ensures PartAsked(parts[1..][i], xs[i])
      {
        assert parts[1..][i] == parts[i + 1] && xs[i] == read[i + 1];
      }
    }
    if PartAsked(parts[0], x) && EachAsked(parts[1..], xs) {
      forall i | 0 <= i < |parts|
        ensures PartAsked(parts[i], read[i])
      {
        if i > 0 {
          assert parts[i] == parts[1..][i - 1] && read[i] == xs[i - 1];
        }
      }
    }
  }

  lemma AskedIffIntended(mp: MultipartRequest, read: seq<BodyPart>)
    ensures PartsAsked(mp, read) <==> read == IntendedParts(PartsSent(mp))
  {
    hide PartAsked;
    IntendedEach(mp.parts, read);
    if mp.parts == [] {
      assert Intended(NO_PART) == BodyPart([], "");
      assert IntendedParts([NO_PART]) == [Intended(NO_PART)] + IntendedParts([]);
    }
  }

  /**
   * A strict reader of any message, and a full reader of one without extra dashes, recover every
   * part's fields and content, in order and nothing else, if and only if no part asks for extra
   * dashes or a fake boundary, every part's field stays on one line, and no part's text has the
   * delimiter before its end.
   */
  lemma BodyReadIff(reader: Reader, mp: MultipartRequest)
    requires reader == Full ==> Undashed(PartsSent(mp))
    ensures var read := ReadBody(reader, Boundary(mp), Body(mp));
            read.Some? && PartsAsked(mp, read.value) <==> forall p :: p in PartsSent(mp) ==> WellFramed(Boundary(mp), p)
  {
    hide Boundary, Body, ReadBody, PartsSent, WellFramed, IntendedParts, PartsAsked, Undashed;
    IntendedIff(reader, mp);
    if ReadBody(reader, Boundary(mp), Body(mp)).Some? {
      AskedIffIntended(mp, ReadBody(reader, Boundary(mp), Body(mp)).value);
    }
  }

  /** So parts that are all well framed read back, whichever the reader. */
  lemma WellFramedBodyRead(reader: Reader, mp: MultipartRequest)
    requires forall p :: p in PartsSent(mp) ==> WellFramed(Boundary(mp), p)
    ensures var read := ReadBody(reader, Boundary(mp), Body(mp)); read.Some? && PartsAsked(mp, read.value)
  {
    hide Boundary, Body, ReadBody, PartsSent, PartsAsked;
    WellFramedUndashed(Boundary(mp), PartsSent(mp));
    BodyReadIff(reader, mp);
  }

  /**
   * With extra dashes the converse fails for a full reader: it takes the part with dashes for a
   * preamble, and the nothing after a fake boundary for the empty part that was meant.
   */
  lemma FullReaderMisled()
    ensures var mp := MultipartRequest(0, [Part(3, None, None, true, 1)], false);
            && ReadBody(Full, Boundary(mp), Body(mp)).Some?
            && PartsAsked(mp, ReadBody(Full, Boundary(mp), Body(mp)).value)
            && !WellFramed(Boundary(mp), mp.parts[0])
  {
    var p := Part(3, None, None, true, 1);
    var mp := MultipartRequest(0, [p], false);
    MisleadingText(mp);
    MisleadingRead();
    assert Intended(p) == EMPTY_PART && IntendedParts([p]) == [EMPTY_PART];
  }

  lemma MisleadingText(mp: MultipartRequest)
    requires mp == MultipartRequest(0, [Part(3, None, None, true, 1)], false)
    ensures Boundary(mp) == "a"
    ensures Body(mp) == "---a\r\n\r\n" + Delimiter("a") + (CRLF + (CRLF + "--a--\r\n"))
  {
    var p := mp.parts[0];
    MisleadingPart(p);
    hide PartText;
    assert mp.parts[..0] == [];
    assert PartsText("a", [p]) == PartText("a", p);
  }

  lemma MisleadingPart(p: Part)
    requires p == Part(3, None, None, true, 1)
    ensures PartText("a", p) == "---a\r\n\r\n" + (CRLF + "--a") + CRLF + CRLF
  {
    assert Dashes(1) == "-";
    assert DispositionText(p) == "";
  }

  lemma MisleadingRead()
    ensures ReadBody(Full, "a", "---a\r\n\r\n" + Delimiter("a") + (CRLF + (CRLF + "--a--\r\n"))) == Some([EMPTY_PART])
  {
    var preamble, end := "---a\r\n\r\n", "--a--\r\n";
    hide ReadParts;
    PreambleFound("a", preamble, CRLF + (CRLF + end));
    assert end == "--" + "a" + "--\r\n" && "--\r\n"[..2] == "--";
    EmptyPartThenEnd("a", "--\r\n");
  }

  lemma EmptyPartThenEnd(boundary: string, end: string)
    requires At(end, 0, "--")
    ensures ReadParts(Full, boundary, CRLF + (CRLF + ("--" + boundary + end))) == Some([EMPTY_PART])
  {
    hide ReadPart, ReadParts, At;
    var f := "--" + boundary + end;
    StartsPlainly(boundary, end);
    NoDashes(CRLF + f);
    EmptyTextRead(boundary, f);
    assert f[2 + |boundary|..] == end;
    ReadPartsUnfold(Full, boundary, CRLF + (CRLF + f));
    ReadPartsUnfold(Full, boundary, end);
    assert [EMPTY_PART] + [] == [EMPTY_PART];
  }

  lemma ReadPartsUnfold(reader: Reader, boundary: string, s: string)
    ensures At(s, 0, "--") ==> ReadParts(reader, boundary, s) == Some([])
    ensures var r := ReadPart(reader, boundary, s);
            !At(s, 0, "--") && r.Some? && ReadParts(reader, boundary, r.value.1).Some? ==>
              ReadParts(reader, boundary, s) == Some([r.value.0] + ReadParts(reader, boundary, r.value.1).value)
  {
  }

  /** A text with the delimiter nowhere near its front is taken for a preamble. */
  lemma PreambleFound(boundary: string, preamble: string, rest: string)
    requires boundary == "a" && preamble == "---a\r\n\r\n"
    ensures var s := preamble + Delimiter(boundary) + rest;
            ReadBody(Full, boundary, s) == ReadParts(Full, boundary, rest)
  {
    hide ReadParts, Find;
    var pat := Delimiter(boundary);
    var s := preamble + pat + rest;
    assert s[2] == '-' && ("--" + boundary)[2] == 'a';
    assert s[|preamble|..|preamble| + |pat|] == pat;
    assert At(s, |preamble|, pat);
    forall i: nat | i < |preamble|
      ensures !At(s, i, pat)
    {
      assert s[6] == '\r' && s[8] == '\r';
      if At(s, i, pat) {
        DelimiterStarts(boundary, s, i);
      }
    }
    assert Find(s, pat, 0) == Some(|preamble|);
    assert s[|preamble| + |pat|..] == rest;
  }
}
