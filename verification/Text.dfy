/** Octet strings (an octet is a character): searching, decimal numbers, case folding. */
module Text {
  import opened Common

  const CRLF := "\r\n"
  const BLANK_LINE := "\r\n\r\n"

  /** `pat` occurs in `s` at `i`. */
  predicate At(s: string, i: nat, pat: string) {
    i + |pat| <= |s| && s[i..i + |pat|] == pat
  }

  /** The first place at or after `from` where `pat` occurs, if any. */
  function Find(s: string, pat: string, from: nat): (r: Option<nat>)
    requires from <= |s|
    ensures r.Some? ==> from <= r.value <= |s| && At(s, r.value, pat) && forall i :: from <= i < r.value ==> !At(s, i, pat)
    ensures r == None ==> forall i :: from <= i <= |s| ==> !At(s, i, pat)
    decreases |s| - from
  {
    if At(s, from, pat) then Some(from) else if from == |s| then None else Find(s, pat, from + 1)
  }

  lemma AtCrlf(s: string, i: nat)
    ensures At(s, i, CRLF) <==> i + 2 <= |s| && s[i] == '\r' && s[i + 1] == '\n'
  {
    if i + 2 <= |s| {
      var w := s[i..i + 2];
      assert w == CRLF <==> w[0] == '\r' && w[1] == '\n';
    }
  }

  /** Nowhere in `s` does a line end. */
  predicate OneLine(s: string) {
    Find(s, CRLF, 0) == None
  }

  lemma OneLineIff(s: string)
    ensures OneLine(s) <==> forall i: nat :: i + 2 <= |s| ==> !(s[i] == '\r' && s[i + 1] == '\n')
  {
    hide Find, At;
    if f :| Find(s, CRLF, 0) == Some(f) {
      AtCrlf(s, f);
    } else {
      forall i: nat | i + 2 <= |s|
        ensures !(s[i] == '\r' && s[i + 1] == '\n')
      {
        AtCrlf(s, i);
      }
    }
  }

  /** A line ends at the first CRLF after it. */
  lemma FindLineEnd(line: string, rest: string)
    requires OneLine(line)
    ensures Find(line + CRLF + rest, CRLF, 0) == Some(|line|)
  {
    OneLineIff(line);
    hide Find, At, OneLine;
    var s := line + CRLF + rest;
    AtCrlf(s, |line|);
    forall i: nat | i < |line|
      ensures !At(s, i, CRLF)
    {
      AtCrlf(s, i);
    }
  }

  /** A line and what follows its CRLF. */
  function ReadLine(s: string): (r: Option<(string, string)>)
    ensures r.Some? ==> |r.value.1| < |s|
  {
    match Find(s, CRLF, 0)
    case None => None
    case Some(i) => Some((s[..i], s[i + 2..]))
  }

  lemma ReadOneLine(line: string, rest: string)
    requires OneLine(line)
    ensures ReadLine(line + CRLF + rest) == Some((line, rest))
  {
    FindLineEnd(line, rest);
    hide Find, OneLine;
    var s := line + CRLF + rest;
    assert s[..|line|] == line && s[|line| + 2..] == rest;
  }

  lemma ReadLineOf(line: string, rest: string)
    requires '\r' !in line
    ensures ReadLine(line + CRLF + rest) == Some((line, rest))
  {
    OneLineIff(line);
    ReadOneLine(line, rest);
  }

  /** What is read is a line, its end and the rest. */
  lemma ReadLineSplits(s: string)
    requires ReadLine(s).Some?
    ensures var (line, rest) := ReadLine(s).value; s == line + CRLF + rest && OneLine(line)
  {
    hide Find, At;
    var i := Find(s, CRLF, 0).value;
    AtCrlf(s, i);
    assert s == s[..i] + CRLF + s[i + 2..];
    forall j: nat | j + 2 <= i
      ensures !(s[j] == '\r' && s[j + 1] == '\n')
    {
      AtCrlf(s, j);
    }
    OneLineIff(s[..i]);
  }

  // ---- Decimal numbers ----

  function Digit(d: nat): char
    requires d < 10
  {
    ['0', '1', '2', '3', '4', '5', '6', '7', '8', '9'][d]
  }

  function Decimal(n: nat): (s: string)
    ensures s != ""
  {
    if n < 10 then [Digit(n)] else Decimal(n / 10) + [Digit(n % 10)]
  }

  function ParseDecimal(s: string): Option<nat> {
    if s == "" || !('0' <= s[|s| - 1] <= '9') then None else
    var d := s[|s| - 1] as int - '0' as int;
    if |s| == 1 then Some(d) else
    match ParseDecimal(s[..|s| - 1])
    case None => None
    case Some(n) => Some(10 * n + d)
  }

  lemma {:induction false} DecimalRoundTrip(n: nat)
    ensures ParseDecimal(Decimal(n)) == Some(n)
    ensures forall c :: c in Decimal(n) ==> '0' <= c <= '9'
  {
    if n >= 10 {
      DecimalRoundTrip(n / 10);
      var s := Decimal(n);
      assert s[..|s| - 1] == Decimal(n / 10) && s[|s| - 1] == Digit(n % 10);
    }
  }

  // ---- Case folding and C strings ----

  function FoldChar(c: char): char {
    if 'A' <= c <= 'Z' then (c as int + 32) as char else c
  }

  /** Two characters fold alike exactly if they are the same or the two cases of one ASCII letter. */
  lemma FoldCharIff(c: char, d: char)
    ensures FoldChar(c) == FoldChar(d) <==>
            c == d || ('A' <= c <= 'Z' && d as int == c as int + 32) || ('A' <= d <= 'Z' && c as int == d as int + 32)
  {
  }

  function Fold(s: string): (r: string)
    ensures |r| == |s| && forall i :: 0 <= i < |s| ==> r[i] == FoldChar(s[i])
  {
    if s == "" then "" else Fold(s[..|s| - 1]) + [FoldChar(s[|s| - 1])]
  }

  /** What `c_str()` shows to C functions: everything before the first NUL. */
  function CString(s: string): string {
    if s == "" || s[0] == '\0' then "" else [s[0]] + CString(s[1..])
  }

  lemma {:induction false} CStringWhole(s: string)
    requires '\0' !in s
    ensures CString(s) == s
  {
    if s != "" {
      CStringWhole(s[1..]);
    }
  }

  /** The first NUL hides what follows it. */
  lemma {:induction false} CStringStops(visible: string, hidden: string)
    requires '\0' !in visible
    ensures CString(visible + "\0" + hidden) == visible
  {
    var s := visible + "\0" + hidden;
    if visible != "" {
      assert s[1..] == visible[1..] + "\0" + hidden;
      CStringStops(visible[1..], hidden);
    }
  }

  lemma FoldKeepsNul(s: string)
    ensures '\0' in Fold(s) <==> '\0' in s
  {
  }
}
