/** Cutting one fuzz input into the requests of several connections, at the blank lines. */
module MultiInput {
  import opened Common
  import opened Text

  const MAX_REQUESTS_PER_INPUT: nat := 16

  /** The length of the segment at the front: up to and including the first blank line, or all. */
  function SegmentLength(s: string): (n: nat)
    ensures n <= |s| && (s != "" ==> n > 0)
  {
    match Find(s, BLANK_LINE, 0) case Some(i) => i + 4 case None => |s|
  }

  function Segments(s: string, budget: nat): seq<string> {
    if s == "" || budget == 0 then [] else
    var n := SegmentLength(s);
    [s[..n]] + Segments(s[n..], budget - 1)
  }

  /** What a run out of segments leaves of the input. */
  function Remainder(s: string, budget: nat): string {
    if s == "" || budget == 0 then s else Remainder(s[SegmentLength(s)..], budget - 1)
  }

  function Concat(ss: seq<string>): string {
    if ss == [] then "" else ss[0] + Concat(ss[1..])
  }

  /** Every segment handed to a connection of its own, in order. */
  method FuzzMultiInput(data: string) returns (inputs: seq<string>)
    ensures inputs == Segments(data, 16)
  {
    hide SegmentLength;
    inputs := [];
    var p, count := 0, 0;
    assert data[0..] == data;
    while p < |data| && count < MAX_REQUESTS_PER_INPUT
      invariant p <= |data| && count <= MAX_REQUESTS_PER_INPUT
      invariant inputs + Segments(data[p..], MAX_REQUESTS_PER_INPUT - count) == Segments(data, MAX_REQUESTS_PER_INPUT)
      decreases |data| - p
    {
      var rest := data[p..];
      var segLen := SegmentLength(rest);
      ghost var later := Segments(rest[segLen..], MAX_REQUESTS_PER_INPUT - count - 1);
      assert Segments(rest, MAX_REQUESTS_PER_INPUT - count) == [rest[..segLen]] + later;
      ConcatAssociative(inputs, [rest[..segLen]], later);
      if segLen > 0 {
        inputs := inputs + [rest[..segLen]];
        count := count + 1;
      }
      assert rest[segLen..] == data[p + segLen..];
      p := p + segLen;
    }
  }

  /** A blank line occurs in `s` at its end or not at all. */
  ghost predicate OneRequest(s: string) {
    s != "" && forall i: nat :: i + 4 < |s| ==> !At(s, i, BLANK_LINE)
  }

  ghost predicate EndsBlank(s: string) {
    |s| >= 4 && At(s, |s| - 4, BLANK_LINE)
  }

  /** Non-empty pieces with a blank line at most at their ends, and only the last one without. */
  ghost predicate Cut(ss: seq<string>) {
    ss == [] || (OneRequest(ss[0]) && (|ss| > 1 ==> EndsBlank(ss[0])) && Cut(ss[1..]))
  }

  lemma SegmentIsOne(s: string)
    requires s != ""
    ensures var n := SegmentLength(s); OneRequest(s[..n]) && (n < |s| ==> EndsBlank(s[..n]))
  {
    var n := SegmentLength(s);
    var f := Find(s, BLANK_LINE, 0);
    forall i: nat | i + 4 < n
      ensures !At(s[..n], i, BLANK_LINE)
    {
      assert s[..n][i..i + 4] == s[i..i + 4];
      assert !At(s, i, BLANK_LINE);
    }
    if f.Some? {
      assert s[..n][n - 4..n] == s[n - 4..n];
    }
  }

  lemma OneIsSegment(s: string, rest: string)
    requires OneRequest(s) && (rest != "" ==> EndsBlank(s))
    ensures SegmentLength(s + rest) == |s|
  {
    var t := s + rest;
    forall i: nat | i + 4 < |s|
      ensures !At(t, i, BLANK_LINE)
    {
      assert t[i..i + 4] == s[i..i + 4];
      assert !At(s, i, BLANK_LINE);
    }
    if EndsBlank(s) {
      assert t[|s| - 4..|s|] == s[|s| - 4..|s|];
      assert At(t, |s| - 4, BLANK_LINE);
    } else {
      assert t == s;
      if |s| >= 4 {
        assert !At(s, |s| - 4, BLANK_LINE);
      }
      assert forall i :: 0 <= i <= |s| ==> !At(s, i, BLANK_LINE);
    }
  }

  lemma Prepend(seg: string, ss: seq<string>)
    ensures Concat([seg] + ss) == seg + Concat(ss)
    ensures Cut([seg] + ss) <==> OneRequest(seg) && (ss != [] ==> EndsBlank(seg)) && Cut(ss)
  {
    hide OneRequest, EndsBlank;
    assert ([seg] + ss)[1..] == ss;
  }

  lemma FirstSegment(s: string, budget: nat)
    requires s != "" && budget > 0
    ensures var n := SegmentLength(s);
            && Segments(s, budget) == [s[..n]] + Segments(s[n..], budget - 1)
            && Remainder(s, budget) == Remainder(s[n..], budget - 1)
  {
  }

  lemma NoSegments(s: string, budget: nat)
    requires s == "" || budget == 0
    ensures Segments(s, budget) == [] && Remainder(s, budget) == s && Concat([]) == "" && Cut([])
  {
  }

  lemma RemainderIsRest(s: string, budget: nat)
    ensures Segments(s, budget) == [] ==> Remainder(s, budget) == s
  {
  }

  /**
   * What splitting produces: a cut of the input up to a remainder, which is empty unless the
   * budget is used up.
   */
  lemma {:induction false} SegmentsAreCut(s: string, budget: nat)
    ensures var ss := Segments(s, budget);
            && Cut(ss) && |ss| <= budget
            && Concat(ss) + Remainder(s, budget) == s
            && (|ss| < budget ==> Remainder(s, budget) == "")
            && (Remainder(s, budget) != "" && ss != [] ==> EndsBlank(ss[|ss| - 1]))
    ensures Segments(s, budget) == [] <==> s == "" || budget == 0
  {
    hide SegmentLength, OneRequest, EndsBlank, Concat, Cut, Segments, Remainder;
    if s == "" || budget == 0 {
      NoSegments(s, budget);
    } else {
      var n := SegmentLength(s);
      var seg, rest := s[..n], s[n..];
      FirstSegment(s, budget);
      SegmentIsOne(s);
      SegmentsAreCut(rest, budget - 1);
      Prepend(seg, Segments(rest, budget - 1));
      ConcatAssociative(seg, Concat(Segments(rest, budget - 1)), Remainder(rest, budget - 1));
      RemainderIsRest(rest, budget - 1);
      assert seg + rest == s;
    }
  }

  /** Splitting undoes concatenation exactly on cuts that stay within the budget. */
  lemma SplitIff(ss: seq<string>, budget: nat)
    ensures Segments(Concat(ss), budget) == ss <==> Cut(ss) && |ss| <= budget
  {
    hide Segments, Concat, Cut;
    SegmentsAreCut(Concat(ss), budget);
    if Cut(ss) && |ss| <= budget {
      CutSplits(ss, budget);
    }
  }

  lemma {:induction false} CutSplits(ss: seq<string>, budget: nat)
    requires Cut(ss) && |ss| <= budget
    ensures Segments(Concat(ss), budget) == ss
  {
    hide SegmentLength, EndsBlank, OneRequest, Cut, Concat, Segments;
    if ss == [] {
      NoSegments("", budget);
    } else {
      var seg, tail := ss[0], ss[1..];
      assert ss == [seg] + tail;
      Prepend(seg, tail);
      ConcatEmpty(tail);
      CutSplits(tail, budget - 1);
      SplitFront(seg, Concat(tail), budget);
    }
  }

  lemma SplitFront(seg: string, rest: string, budget: nat)
    requires budget > 0 && OneRequest(seg) && (rest != "" ==> EndsBlank(seg))
    ensures Segments(seg + rest, budget) == [seg] + Segments(rest, budget - 1)
  {
    hide SegmentLength, EndsBlank, OneRequest, Segments;
    NotEmpty(seg);
    OneIsSegment(seg, rest);
    FirstSegment(seg + rest, budget);
    assert (seg + rest)[..|seg|] == seg && (seg + rest)[|seg|..] == rest;
  }

  lemma NotEmpty(s: string)
    requires OneRequest(s)
    ensures s != ""
  {
  }

  lemma ConcatEmpty(ss: seq<string>)
    requires Cut(ss)
    ensures Concat(ss) == "" <==> ss == []
  {
  }
}
