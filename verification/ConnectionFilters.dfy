/**
 * The in-memory input filters of the client and the backend connection: one step of each as a
 * function of the state, the filters as objects that take those steps, and what holds over every
 * sequence of calls on one connection.
 */
module ConnectionFilters {
  import opened Common
  import opened Brigade

  datatype Mode = Init | GetLine | ReadBytes | Speculative | Exhaustive | EatCrlf

  datatype Status = Success | EndOfFile | Incomplete | NotImplemented

  datatype Call = Call(mode: Mode, readbytes: int)

  datatype Reply = Reply(status: Status, out: seq<Bucket>)

  /** The global input (empty when none is armed), the filter's own brigade, and its end mark. */
  datatype State = State(input: string, bb: seq<Bucket>, eosSent: bool)

  const HUGE_STRING_LEN: nat := 8192

  function Armed(data: string): State {
    State(data, [], false)
  }

  function Load(s: State): State {
    if s.input != "" && s.bb == [] then State("", [Data(s.input), Eos], s.eosSent) else s
  }

  function UpToEos(bb: seq<Bucket>): seq<Bucket> {
    if bb == [] then [] else if bb[0].Eos? then [Eos] else [bb[0]] + UpToEos(bb[1..])
  }

  function ClientMode(t: State, c: Call): (State, Reply) {
    match c.mode
    case GetLine =>
      var cut := SplitLine(t.bb, HUGE_STRING_LEN, 0);
      (t.(bb := cut.rest), Reply(Success, cut.moved))
    case ReadBytes =>
      if c.readbytes <= 0 then (t.(bb := []), Reply(Success, t.bb)) else
      var p := Partition(t.bb, c.readbytes);
      if p.complete then (t.(bb := p.bb[p.at..]), Reply(Success, p.bb[..p.at])) else (t, Reply(Incomplete, []))
    case Speculative => (t, Reply(Success, UpToEos(t.bb)))
    case Exhaustive => (t.(bb := []), Reply(Success, t.bb))
    case _ => (t, Reply(NotImplemented, []))
  }

  function BackendMode(t: State, c: Call): (State, Reply) {
    match c.mode
    case GetLine =>
      var cut := SplitLine(t.bb, HUGE_STRING_LEN, 0);
      (t.(bb := cut.rest), Reply(Success, cut.moved))
    case ReadBytes =>
      if c.readbytes <= 0 then (t, Reply(Success, [])) else
      var p := Partition(t.bb, c.readbytes);
      (t.(bb := p.bb[p.at..]), Reply(Success, p.bb[..p.at]))
    case _ => (t, Reply(Success, []))
  }

  datatype Side = Client | Backend

  /** One call of a filter. */
  function Step(side: Side, s: State, c: Call): (State, Reply) {
    if c.mode == Init then (s, Reply(Success, [])) else
    if s.eosSent then (s, Reply(EndOfFile, [])) else
    var t := Load(s);
    if t.bb == [] then (t.(eosSent := true), Reply(EndOfFile, [])) else
    match side case Client => ClientMode(t, c) case Backend => BackendMode(t, c)
  }

  function Run(side: Side, s: State, calls: seq<Call>): (r: (State, seq<Reply>))
    ensures |r.1| == |calls|
  {
    if calls == [] then (s, []) else
    var (s1, replies) := Run(side, s, calls[..|calls| - 1]);
    var (s2, reply) := Step(side, s1, calls[|calls| - 1]);
    (s2, replies + [reply])
  }

  // ---- What a connection has consumed and what it still holds ----

  predicate Consumes(side: Side, c: Call) {
    side == Client ==> c.mode != Speculative
  }

  /** The buckets handed out for good, in order. */
  function Consumed(side: Side, calls: seq<Call>, replies: seq<Reply>): seq<Bucket>
    requires |replies| == |calls|
  {
    if calls == [] then [] else
    var n := |calls| - 1;
    var before := Consumed(side, calls[..n], replies[..n]);
    if Consumes(side, calls[n]) then before + replies[n].out else before
  }

  /** The octets not yet handed out. */
  function Held(s: State): string {
    if s.input == "" then Bytes(s.bb) else s.input + Bytes(s.bb)
  }

  ghost predicate DataOnly(bb: seq<Bucket>) {
    forall i :: 0 <= i < |bb| ==> bb[i].Data?
  }

  /** A loaded brigade is exhausted, at its end, or one data bucket before the end. */
  ghost predicate Shape(bb: seq<Bucket>) {
    bb == [] || bb == [Eos] || (|bb| == 2 && bb[0].Data? && bb[1] == Eos)
  }

  /** Nothing lost, nothing doubled, and the end-of-stream bucket once and last. */
  ghost predicate Inv(data: string, consumed: seq<Bucket>, s: State) {
    if s.input != "" then consumed == [] && s == Armed(data)
    else
      && Shape(s.bb)
      && (s.eosSent ==> s.bb == [])
      && Bytes(consumed) + Bytes(s.bb) == data
      && if s.bb != [] then DataOnly(consumed)
         else consumed != [] && consumed[|consumed| - 1] == Eos && DataOnly(consumed[..|consumed| - 1])
  }

  // ---- What each mode delivers ----

  /** What a call in a filter that is not at its end delivers and leaves, in octets. */
  ghost predicate Delivers(side: Side, s: State, c: Call, t: State, r: Reply) {
    var h, n := Held(s), c.readbytes;
    match c.mode
    case Init => t == s && r == Reply(Success, [])
    case GetLine =>
      var p := FindLf(h);
      && r.status == Success && Data("") !in r.out
      && if p < |h| then r.out == [Data(h[..p + 1])] && Held(t) == h[p + 1..] && t.bb != []
         else Bytes(r.out) == h && Held(t) == "" && (t.bb == [] <==> |h| < 8192)
    case ReadBytes =>
      if n <= 0 then
        if side == Client then r.status == Success && Bytes(r.out) == h && Held(t) == "" && t.bb == []
        else r == Reply(Success, []) && Held(t) == h && t.bb != []
      else if n <= |h| then r == Reply(Success, [Data(h[..n])]) && Held(t) == h[n..] && t.bb != []
      else if side == Client then r == Reply(Incomplete, []) && Held(t) == h && t.bb != []
      else r.status == Success && Bytes(r.out) == h && Held(t) == "" && t.bb == []
    case Speculative =>
      && r.status == Success && Held(t) == h && t.bb != []
      && if side == Client then Bytes(r.out) == h && |r.out| > 0 && r.out[|r.out| - 1] == Eos else r.out == []
    case Exhaustive =>
      && r.status == Success
      && if side == Client then Bytes(r.out) == h && Held(t) == "" && t.bb == []
         else r.out == [] && Held(t) == h && t.bb != []
    case EatCrlf =>
      && r == Reply(if side == Client then NotImplemented else Success, []) && Held(t) == h && t.bb != []
  }

  lemma SplitLineAtEnd(soFar: nat)
    ensures SplitLine([Eos], HUGE_STRING_LEN, soFar) == Cut([Eos], [])
  {
  }

  lemma SplitLineFound(d: string)
    requires FindLf(d) < |d|
    ensures var p := FindLf(d);
            SplitLine([Data(d), Eos], HUGE_STRING_LEN, 0) == Cut([Data(d[..p + 1])], [Data(d[p + 1..]), Eos])
  {
    hide FindLf, SplitLine;
    SplitLineFirst(d, [Eos], HUGE_STRING_LEN, 0);
    assert [Data(d)] + [Eos] == [Data(d), Eos];
    assert [Data(d[FindLf(d) + 1..])] + [Eos] == [Data(d[FindLf(d) + 1..]), Eos];
  }

  lemma SplitLineNotFound(d: string)
    requires FindLf(d) == |d|
    ensures SplitLine([Data(d), Eos], HUGE_STRING_LEN, 0) ==
            if |d| >= HUGE_STRING_LEN then Cut(Kept(d), [Eos]) else Cut(Kept(d) + [Eos], [])
  {
    hide FindLf, Kept, SplitLine;
    SplitLineFirst(d, [Eos], HUGE_STRING_LEN, 0);
    var r := SplitLine([Data(d)] + [Eos], HUGE_STRING_LEN, 0);
    if |d| >= HUGE_STRING_LEN {
      assert r == Cut(Kept(d), [Eos]);
    } else {
      SplitLineAtEnd(|d|);
      var below := SplitLine([Eos], HUGE_STRING_LEN, |d|);
      assert r == Cut(Kept(d) + below.moved, below.rest);
    }
    assert [Data(d)] + [Eos] == [Data(d), Eos];
  }

  lemma SplitLineFirst(d: string, bb: seq<Bucket>, limit: nat, soFar: nat)
    ensures var p := FindLf(d);
            SplitLine([Data(d)] + bb, limit, soFar) ==
            if p < |d| then Cut([Data(d[..p + 1])], [Data(d[p + 1..])] + bb)
            else if soFar + |d| >= limit then Cut(Kept(d), bb)
            else var c := SplitLine(bb, limit, soFar + |d|); Cut(Kept(d) + c.moved, c.rest)
  {
    hide FindLf, Kept;
    assert ([Data(d)] + bb)[1..] == bb;
  }

  lemma KeptBytes(d: string)
    ensures DataOnly(Kept(d)) && Bytes(Kept(d)) == d && Bytes(Kept(d) + [Eos]) == d
    ensures Data("") !in Kept(d)
  {
    BytesSmall(d);
    BytesConcat(Kept(d), [Eos]);
  }

  lemma PartitionSmall(d: string, n: nat)
    requires n > 0
    ensures !Partition([Eos], n).complete
    ensures Partition([Data(d), Eos], n) ==
            if n < |d| then Partitioned(true, [Data(d[..n]), Data(d[n..]), Eos], 1)
            else if n == |d| then Partitioned(true, [Data(d), Eos], 1)
            else Partitioned(false, [Data(d), Eos], 2)
  {
    var bb := [Data(d), Eos];
    assert bb[1..] == [Eos] && [Eos][1..] == [];
  }

  /** The brigade falls into what is handed out and what stays, the end going with the last octet. */
  ghost predicate Moves(bb: seq<Bucket>, out: seq<Bucket>, rest: seq<Bucket>) {
    && Shape(rest)
    && Bytes(out) + Bytes(rest) == Bytes(bb)
    && if rest != [] then DataOnly(out)
       else out != [] && out[|out| - 1] == Eos && DataOnly(out[..|out| - 1])
  }

  /** A call in a filter that is loaded and not at its end. */
  ghost predicate GoodStep(side: Side, l: State, c: Call, t: State, r: Reply) {
    && Delivers(side, l, c, t, r)
    && t.input == "" && !t.eosSent
    && if Consumes(side, c) then Moves(l.bb, r.out, t.bb) else t == l
  }

  lemma StepAtEnd(side: Side, l: State, c: Call)
    requires l == State("", [Eos], false) && c.mode != Init
    ensures var (t, r) := Step(side, l, c); GoodStep(side, l, c, t, r)
  {
    hide SplitLine, Partition, Bytes, UpToEos;
    SplitLineAtEnd(0);
    BytesSmall("");
    UpToEosSmall("");
    if c.mode == ReadBytes && c.readbytes > 0 {
      PartitionSmall("", c.readbytes);
      assert [Eos][..1] == [Eos] && [Eos][1..] == [];
    }
  }

  lemma StepInData(side: Side, d: string, c: Call)
    requires c.mode != Init
    ensures var l := State("", [Data(d), Eos], false);
            var (t, r) := Step(side, l, c); GoodStep(side, l, c, t, r)
  {
    hide SplitLine, Partition, Bytes, UpToEos;
    BytesSmall(d);
    if c.mode == GetLine {
      LineInData(side, d, c);
    } else if c.mode == ReadBytes && c.readbytes > 0 {
      BytesInData(side, d, c);
    } else {
      UpToEosSmall(d);
    }
  }

  lemma UpToEosSmall(d: string)
    ensures UpToEos([Eos]) == [Eos] && UpToEos([Data(d), Eos]) == [Data(d), Eos]
  {
    assert [Data(d), Eos][1..] == [Eos];
  }

  lemma LineInData(side: Side, d: string, c: Call)
    requires c.mode == GetLine
    ensures var l := State("", [Data(d), Eos], false);
            var (t, r) := Step(side, l, c); GoodStep(side, l, c, t, r)
  {
    hide SplitLine, Partition, FindLf, Bytes, UpToEos, Kept;
    var p := FindLf(d);
    BytesSmall(d);
    if p < |d| {
      SplitLineFound(d);
      BytesSmall(d[..p + 1]);
      BytesSmall(d[p + 1..]);
      assert d[..p + 1] + d[p + 1..] == d;
    } else {
      SplitLineNotFound(d);
      KeptBytes(d);
      assert (Kept(d) + [Eos])[..|Kept(d)|] == Kept(d);
    }
  }

  lemma BytesInData(side: Side, d: string, c: Call)
    requires c.mode == ReadBytes && c.readbytes > 0
    ensures var l := State("", [Data(d), Eos], false);
            var (t, r) := Step(side, l, c); GoodStep(side, l, c, t, r)
  {
    hide SplitLine, Partition, FindLf, Bytes, UpToEos;
    var n := c.readbytes;
    PartitionSmall(d, n);
    BytesSmall(d);
    if n < |d| {
      var split := [Data(d[..n]), Data(d[n..]), Eos];
      assert split[..1] == [Data(d[..n])] && split[1..] == [Data(d[n..]), Eos];
      BytesSmall(d[..n]);
      BytesSmall(d[n..]);
      assert d[..n] + d[n..] == d;
    } else if n == |d| {
      assert d[..n] == d && d[n..] == "";
      assert [Data(d), Eos][..1] == [Data(d)] && [Data(d), Eos][1..] == [Eos];
    } else {
      assert [Data(d), Eos][..2] == [Data(d), Eos] && [Data(d), Eos][2..] == [];
    }
  }

  lemma InvMoves(data: string, consumed: seq<Bucket>, l: State, out: seq<Bucket>, t: State)
    requires Inv(data, consumed, l) && l.input == "" && l.bb != [] && Moves(l.bb, out, t.bb)
    requires t.input == "" && !t.eosSent
    ensures Inv(data, consumed + out, t)
  {
    hide Bytes, Shape;
    BytesConcat(consumed, out);
    ConcatAssociative(Bytes(consumed), Bytes(out), Bytes(t.bb));
    if t.bb == [] {
      assert (consumed + out)[..|consumed + out| - 1] == consumed + out[..|out| - 1];
    }
  }

  lemma LoadedInvariant(data: string, consumed: seq<Bucket>, s: State)
    requires data != "" && Inv(data, consumed, s) && (s.input != "" || s.bb != [])
    ensures var l := Load(s);
            && Inv(data, consumed, l) && l.input == "" && l.bb != [] && !l.eosSent && Held(l) == Held(s)
  {
  }

  /** True when the filter still has something to hand out, if only the end-of-stream bucket. */
  predicate Live(s: State) {
    s.input != "" || s.bb != []
  }

  /** A step keeps the invariant; a live filter delivers what its mode says, a dry one only the end. */
  lemma StepInvariant(side: Side, data: string, consumed: seq<Bucket>, s: State, c: Call)
    requires data != "" && Inv(data, consumed, s)
    ensures var (t, r) := Step(side, s, c);
            && Inv(data, if Consumes(side, c) then consumed + r.out else consumed, t)
            && (Live(s) ==> Delivers(side, s, c, t, r))
            && (!Live(s) ==> !Live(t) && (c.mode != Init ==> r == Reply(EndOfFile, []) && t.eosSent))
  {
    hide ClientMode, BackendMode, Delivers, Held, Moves;
    var (t, r) := Step(side, s, c);
    assert consumed + [] == consumed;
    if c.mode == Init {
      InitDelivers(side, s, c);
    } else if Live(s) {
      var l := Load(s);
      LoadedInvariant(data, consumed, s);
      LoadDelivers(side, s, c, t, r);
      if l.bb == [Eos] {
        StepAtEnd(side, l, c);
      } else {
        assert l.bb == [Data(l.bb[0].bytes), Eos];
        StepInData(side, l.bb[0].bytes, c);
      }
      StepAfterLoad(side, s, c);
      if Consumes(side, c) {
        InvMoves(data, consumed, l, r.out, t);
      }
    }
  }

  lemma InitDelivers(side: Side, s: State, c: Call)
    requires c.mode == Init
    ensures Delivers(side, s, c, s, Reply(Success, []))
  {
  }

  lemma LoadDelivers(side: Side, s: State, c: Call, t: State, r: Reply)
    requires c.mode != Init && Held(Load(s)) == Held(s)
    ensures Delivers(side, Load(s), c, t, r) ==> Delivers(side, s, c, t, r)
  {
  }

  lemma StepAfterLoad(side: Side, s: State, c: Call)
    requires c.mode != Init && !s.eosSent
    ensures Step(side, s, c) == Step(side, Load(s), c)
  {
  }

  // ---- Whole connections ----

  lemma {:induction false} RunInvariant(side: Side, data: string, calls: seq<Call>)
    requires data != ""
    ensures var (s, replies) := Run(side, Armed(data), calls);
            Inv(data, Consumed(side, calls, replies), s)
  {
    if calls != [] {
      var front := calls[..|calls| - 1];
      var (s, replies) := Run(side, Armed(data), front);
      RunInvariant(side, data, front);
      StepInvariant(side, data, Consumed(side, front, replies), s, calls[|calls| - 1]);
      ConsumedSnoc(side, front, replies, calls[|calls| - 1], Step(side, s, calls[|calls| - 1]).1);
      SplitLast(calls);
    }
  }

  lemma ConsumedSnoc(side: Side, calls: seq<Call>, replies: seq<Reply>, c: Call, r: Reply)
    requires |replies| == |calls|
    ensures Consumed(side, calls + [c], replies + [r]) ==
            var before := Consumed(side, calls, replies);
            if Consumes(side, c) then before + r.out else before
  {
    assert (calls + [c])[..|calls|] == calls && (replies + [r])[..|calls|] == replies;
  }

  /** Over every run, the octets handed out and the octets held make up the input. */
  lemma Conservation(side: Side, data: string, calls: seq<Call>)
    requires data != ""
    ensures var (s, replies) := Run(side, Armed(data), calls);
            Bytes(Consumed(side, calls, replies)) + Held(s) == data
  {
    hide Run, Consumed;
    RunInvariant(side, data, calls);
    var (s, replies) := Run(side, Armed(data), calls);
    NothingLost(data, Consumed(side, calls, replies), s);
  }

  lemma NothingLost(data: string, consumed: seq<Bucket>, s: State)
    requires Inv(data, consumed, s)
    ensures Bytes(consumed) + Held(s) == data
  {
    assert Bytes([]) == "";
  }

  /** The end-of-stream bucket is handed out at most once, after all data, with nothing left behind. */
  lemma EndOnceAndLast(side: Side, data: string, calls: seq<Call>, i: nat)
    requires data != ""
    requires var bb := Consumed(side, calls, Run(side, Armed(data), calls).1); i < |bb| && bb[i] == Eos
    ensures var (s, replies) := Run(side, Armed(data), calls);
            i == |Consumed(side, calls, replies)| - 1 && Held(s) == ""
  {
    hide Run, Consumed;
    RunInvariant(side, data, calls);
    var (s, replies) := Run(side, Armed(data), calls);
    EndLast(data, Consumed(side, calls, replies), s, i);
  }

  lemma EndLast(data: string, consumed: seq<Bucket>, s: State, i: nat)
    requires Inv(data, consumed, s) && i < |consumed| && consumed[i] == Eos
    ensures i == |consumed| - 1 && Held(s) == ""
  {
    assert Bytes([]) == "";
    assert forall j :: 0 <= j < |consumed| - 1 ==> consumed[..|consumed| - 1][j] == consumed[j];
  }

  /** A run's replies to a prefix of the calls do not depend on the calls that follow. */
  lemma {:induction false} RunPrefix(side: Side, s: State, calls: seq<Call>, k: nat)
    requires k < |calls|
    ensures var before := Run(side, s, calls[..k]);
            Run(side, s, calls).1[k] == Step(side, before.0, calls[k]).1 &&
            Run(side, s, calls).1[..k] == before.1
  {
    if k < |calls| - 1 {
      assert calls[..|calls| - 1][..k] == calls[..k];
      RunPrefix(side, s, calls[..|calls| - 1], k);
    }
  }

  lemma {:induction false} EndOfFileMarks(side: Side, s: State, calls: seq<Call>, i: nat)
    requires i < |calls| && Run(side, s, calls).1[i].status == EndOfFile
    ensures Run(side, s, calls).0.eosSent
  {
    hide ClientMode, BackendMode;
    if i < |calls| - 1 {
      EndOfFileMarks(side, s, calls[..|calls| - 1], i);
    } else {
      OnlyDryStepsEnd(side, Run(side, s, calls[..i]).0, calls[i]);
    }
  }

  lemma OnlyDryStepsEnd(side: Side, s: State, c: Call)
    requires Step(side, s, c).1.status == EndOfFile
    ensures Step(side, s, c).0.eosSent
  {
  }

  /** Once a call has returned end-of-file, every later call but initialisation does. */
  lemma EndOfFilePermanent(side: Side, s: State, calls: seq<Call>, i: nat, j: nat)
    requires i < j < |calls| && Run(side, s, calls).1[i].status == EndOfFile && calls[j].mode != Init
    ensures Run(side, s, calls).1[j] == Reply(EndOfFile, [])
  {
    RunPrefix(side, s, calls, i);
    RunPrefix(side, s, calls, j);
    assert calls[..j][..i] == calls[..i];
    RunPrefix(side, s, calls[..j], i);
    EndOfFileMarks(side, s, calls[..j], i);
  }

  /** The call that moves the armed input into the brigade. */
  predicate Loads(s: State, c: Call) {
    c.mode != Init && !s.eosSent && s.input != "" && s.bb == []
  }

  lemma {:induction false} InputStaysGone(side: Side, s: State, calls: seq<Call>)
    requires s.input == ""
    ensures Run(side, s, calls).0.input == ""
  {
    if calls != [] {
      InputStaysGone(side, s, calls[..|calls| - 1]);
    }
  }

  lemma LoadedAtMostOnce(side: Side, s: State, calls: seq<Call>, i: nat, j: nat)
    requires i < j < |calls| && Loads(Run(side, s, calls[..i]).0, calls[i])
    ensures !Loads(Run(side, s, calls[..j]).0, calls[j])
  {
    var k := i + 1;
    assert calls[..k][..i] == calls[..i];
    assert Run(side, s, calls[..k]).0.input == "";
    RunInTwo(side, s, calls[..k], calls[k..j]);
    assert calls[..k] + calls[k..j] == calls[..j];
    InputStaysGone(side, Run(side, s, calls[..k]).0, calls[k..j]);
  }

  lemma {:induction false} RunInTwo(side: Side, s: State, a: seq<Call>, b: seq<Call>)
    ensures Run(side, s, a + b).0 == Run(side, Run(side, s, a).0, b).0
  {
    if b == [] {
      assert a + b == a;
    } else {
      assert (a + b)[..|a + b| - 1] == a + b[..|b| - 1];
      RunInTwo(side, s, a, b[..|b| - 1]);
    }
  }

  /**
   * The two short-read rules differ: a client that only asks for positive numbers of octets never
   * sees end-of-file, while a backend read for more than is held takes everything and ends.
   */
  lemma {:induction false} ClientReadsNeverEnd(data: string, calls: seq<Call>)
    requires data != "" && forall c :: c in calls ==> c.mode == ReadBytes && c.readbytes > 0
    ensures var (s, replies) := Run(Client, Armed(data), calls);
            Live(s) && forall r :: r in replies ==> r.status != EndOfFile
  {
    if calls != [] {
      hide Step, Inv;
      var front, c := calls[..|calls| - 1], calls[|calls| - 1];
      var (s, replies) := Run(Client, Armed(data), front);
      ClientReadsNeverEnd(data, front);
      RunInvariant(Client, data, front);
      StepInvariant(Client, data, Consumed(Client, front, replies), s, c);
      assert c in calls;
    }
  }

  lemma BackendShortReadEnds(data: string, calls: seq<Call>, n: int, next: Call)
    requires data != "" && next.mode != Init
    requires var s := Run(Backend, Armed(data), calls).0; Live(s) && n > |Held(s)|
    ensures var s := Run(Backend, Armed(data), calls).0;
            var (t, r) := Step(Backend, s, Call(ReadBytes, n));
            Bytes(r.out) == Held(s) && Step(Backend, t, next).1 == Reply(EndOfFile, [])
  {
    hide Step, Inv, Consumed;
    var (s, replies) := Run(Backend, Armed(data), calls);
    var c := Call(ReadBytes, n);
    RunInvariant(Backend, data, calls);
    StepInvariant(Backend, data, Consumed(Backend, calls, replies), s, c);
    var (t, r) := Step(Backend, s, c);
    var consumed := Consumed(Backend, calls, replies) + r.out;
    InvMeansNoInput(data, consumed, t);
    StepInvariant(Backend, data, consumed, t, next);
  }

  lemma InvMeansNoInput(data: string, consumed: seq<Bucket>, t: State)
    requires Inv(data, consumed, t) && t.bb == [] && Held(t) == ""
    ensures !Live(t)
  {
  }

  // ---- The filters as objects ----

  /** The harness's global input buffer. */
  class Globals {
    var input: string

    constructor ()
      ensures input == ""
    {
      input := "";
    }
  }

  /** The context of an input filter on one connection. */
  class FilterContext {
    var bb: seq<Bucket>
    var eosSent: bool

    constructor ()
      ensures bb == [] && !eosSent
    {
      bb, eosSent := [], false;
    }

    ghost function StateWith(g: Globals): State
      reads this, g
    {
      State(g.input, bb, eosSent)
    }

    /** Puts the armed input into an empty brigade. */
    method Populate(g: Globals)
      modifies this`bb, g
      ensures StateWith(g) == Load(old(StateWith(g)))
      ensures old(g.input) != "" && old(bb) == [] ==> bb == [Data(old(g.input)), Eos] && g.input == ""
      ensures old(g.input) == "" || old(bb) != [] ==> bb == old(bb) && g.input == old(g.input)
    {
      if g.input != "" && bb == [] {
        bb := bb + [Data(g.input)];
        bb := bb + [Eos];
        g.input := "";
      }
    }

    /** Moves the first `at` buckets out. */
    method MoveBuckets(at: nat) returns (out: seq<Bucket>)
      requires at <= |bb|
      modifies this`bb
      ensures out == old(bb)[..at] && bb == old(bb)[at..]
    {
      out := [];
      ghost var was := bb;
      var moved := 0;
      while bb != []
        invariant moved <= at && out == was[..moved] && bb == was[moved..]
        decreases |bb|
      {
        if moved == at {
          break;
        }
        out := out + [bb[0]];
        bb := bb[1..];
        moved := moved + 1;
      }
    }

    method FuzzInputFilter(g: Globals, mode: Mode, readbytes: int) returns (status: Status, out: seq<Bucket>)
      modifies this, g
      ensures (StateWith(g), Reply(status, out)) == Step(Client, old(StateWith(g)), Call(mode, readbytes))
    {
      hide SplitLine, Partition;
      out := [];
      if mode == Init {
        return Success, out;
      }
      if eosSent {
        return EndOfFile, out;
      }
      Populate(g);
      if bb == [] {
        eosSent := true;
        return EndOfFile, out;
      }
      if mode == GetLine {
        var cut := SplitLine(bb, HUGE_STRING_LEN, 0);
        bb := cut.rest;
        return Success, cut.moved;
      } else if mode == ReadBytes {
        if readbytes > 0 {
          var p := Partition(bb, readbytes);
          bb := p.bb;
          if !p.complete {
            return Incomplete, out;
          }
          out := MoveBuckets(p.at);
        } else {
          out := bb;
          bb := [];
        }
        return Success, out;
      } else if mode == Speculative {
        out := CopyToEos(bb);
        return Success, out;
      } else if mode == Exhaustive {
        out := bb;
        bb := [];
        return Success, out;
      }
      return NotImplemented, out;
    }

    method BackendInputFilter(g: Globals, mode: Mode, readbytes: int) returns (status: Status, out: seq<Bucket>)
      modifies this, g
      ensures (StateWith(g), Reply(status, out)) == Step(Backend, old(StateWith(g)), Call(mode, readbytes))
    {
      hide SplitLine, Partition;
      out := [];
      if mode == Init {
        return Success, out;
      }
      if eosSent {
        return EndOfFile, out;
      }
      Populate(g);
      if bb == [] {
        eosSent := true;
        return EndOfFile, out;
      }
      if mode == GetLine {
        var cut := SplitLine(bb, HUGE_STRING_LEN, 0);
        bb := cut.rest;
        out := cut.moved;
      } else if mode == ReadBytes {
        if readbytes > 0 {
          var p := Partition(bb, readbytes);
          bb := p.bb;
          out := MoveBuckets(p.at);
        }
      }
      return Success, out;
    }
  }

  method CopyToEos(bb: seq<Bucket>) returns (out: seq<Bucket>)
    ensures out == UpToEos(bb)
  {
    out := [];
    var i := 0;
    while i < |bb|
      invariant i <= |bb| && UpToEos(bb) == out + UpToEos(bb[i..])
    {
      assert bb[i..][1..] == bb[i + 1..];
      out := out + [bb[i]];
      if bb[i].Eos? {
        return;
      }
      i := i + 1;
    }
  }

  /**
   * One fuzz iteration: an empty input is skipped; otherwise the input is armed, one connection
   * reads it through a fresh filter, and what it left unread is cleared.
   */
  method FuzzOneInput(g: Globals, data: string, calls: seq<Call>) returns (replies: seq<Reply>)
    modifies g
    ensures data == "" ==> replies == [] && g.input == old(g.input)
    ensures data != "" ==> replies == Run(Client, Armed(data), calls).1 && g.input == ""
  {
    hide Step;
    replies := [];
    if data == "" {
      return;
    }
    g.input := data;
    var net := new FilterContext();
    for i := 0 to |calls|
      invariant fresh(net)
      invariant (net.StateWith(g), replies) == Run(Client, Armed(data), calls[..i])
    {
      assert calls[..i + 1][..i] == calls[..i];
      var status, out := net.FuzzInputFilter(g, calls[i].mode, calls[i].readbytes);
      assert calls[i] == Call(calls[i].mode, calls[i].readbytes);
      replies := replies + [Reply(status, out)];
    }
    assert calls[..|calls|] == calls;
    g.input := "";
  }
}
