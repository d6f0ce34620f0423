/**
 * The call graph the walker reads: a finite map from function names to call records, and what it
 * means for one function to reach another through records that have a callee.
 */
module CallGraph {
  import opened Common

  type Name = string

  /** A debug location attached to a call instruction. */
  datatype Site = Site(file: string, line: nat, col: nat, indirect: bool)

  /** One entry of a call-graph node; the callee is absent for calls into unknown code. */
  datatype Record = Record(callee: Option<Name>, site: Option<Site>)

  datatype FunctionMeta = FunctionMeta(name: string, sourceFile: string, sourceDir: string,
                                       lineStart: nat, bbCount: nat, instructionsCount: nat)

  datatype Function = Function(meta: FunctionMeta, records: seq<Record>)

  type Graph = map<Name, Function>

  /** A record whose callee is known. */
  datatype Call = Call(callee: Name, site: Option<Site>)

  /** The records that have a callee, in record order. */
  function Calls(rs: seq<Record>): (cs: seq<Call>)
    ensures |cs| <= |rs|
  {
    if rs == [] then [] else
    var front, r := Calls(rs[..|rs| - 1]), rs[|rs| - 1];
    if r.callee.Some? then front + [Call(r.callee.value, r.site)] else front
  }

  predicate Known(r: Record) {
    r.callee.Some?
  }

  predicate IsCall(r: Record, c: Call) {
    r.callee == Some(c.callee) && r.site == c.site
  }

  /** The calls are the records with a known callee, one for one and in order. */
  lemma {:induction false} CallsInOrder(rs: seq<Record>)
    ensures ShowsKept(rs, Known, IsCall, Calls(rs))
  {
    if rs == [] {
      ShowsNone(Known, IsCall);
    } else {
      var front, r := rs[..|rs| - 1], rs[|rs| - 1];
      CallsInOrder(front);
      SplitLast(rs);
      if Known(r) {
        ShowsOneMore(front, r, Known, IsCall, Calls(front), Call(r.callee.value, r.site));
      } else {
        ShowsNoMore(front, r, Known, IsCall, Calls(front));
      }
    }
  }

  lemma {:induction false} CallIsRecord(rs: seq<Record>, c: Call)
    ensures c in Calls(rs) <==> exists r :: r in rs && IsCall(r, c)
  {
    if rs != [] {
      CallIsRecord(rs[..|rs| - 1], c);
      SplitLast(rs);
      assert c in Calls(rs) <==> c in Calls(rs[..|rs| - 1]) || IsCall(rs[|rs| - 1], c);
    }
  }

  function CallsOf(g: Graph, f: Name): seq<Call>
    requires f in g
  {
    Calls(g[f].records)
  }

  ghost predicate KnownCalls(g: Graph, cs: seq<Call>) {
    forall i :: 0 <= i < |cs| ==> cs[i].callee in g
  }

  /** Every callee is a node of the graph. */
  ghost predicate Closed(g: Graph) {
    forall f {:trigger CallsOf(g, f)} | f in g :: KnownCalls(g, CallsOf(g, f))
  }

  ghost predicate HasCall(g: Graph, a: Name, b: Name) {
    a in g && exists r :: r in g[a].records && r.callee == Some(b)
  }

  lemma CallIsKnown(g: Graph, f: Name, b: Name)
    requires f in g
    ensures HasCall(g, f, b) <==> exists i :: 0 <= i < |CallsOf(g, f)| && CallsOf(g, f)[i].callee == b
  {
    hide Calls;
    if r :| r in g[f].records && r.callee == Some(b) {
      CallIsRecord(g[f].records, Call(b, r.site));
      assert Call(b, r.site) in CallsOf(g, f);
    }
    if i :| 0 <= i < |CallsOf(g, f)| && CallsOf(g, f)[i].callee == b {
      CallIsRecord(g[f].records, CallsOf(g, f)[i]);
    }
  }

  ghost predicate IsPath(g: Graph, p: seq<Name>) {
    && |p| > 0
    && (forall i :: 0 <= i < |p| ==> p[i] in g)
    && (forall i :: 0 <= i < |p| - 1 ==> HasCall(g, p[i], p[i + 1]))
  }

  ghost predicate Reaches(g: Graph, a: Name, b: Name) {
    exists p :: IsPath(g, p) && p[0] == a && p[|p| - 1] == b
  }

  ghost function Reachable(g: Graph, a: Name): set<Name> {
    set b | b in g && Reaches(g, a, b)
  }

  lemma ReachesSelf(g: Graph, a: Name)
    requires a in g
    ensures Reaches(g, a, a)
  {
    assert IsPath(g, [a]) && [a][0] == a;
  }

  lemma ReachesThenCall(g: Graph, a: Name, b: Name, c: Name)
    requires Reaches(g, a, b) && HasCall(g, b, c) && c in g
    ensures Reaches(g, a, c)
  {
    var p :| IsPath(g, p) && p[0] == a && p[|p| - 1] == b;
    var q := p + [c];
    forall i | 0 <= i < |q| - 1
      ensures HasCall(g, q[i], q[i + 1])
    {
      if i < |p| - 1 {
        assert HasCall(g, p[i], p[i + 1]);
      }
    }
    assert IsPath(g, q) && q[0] == a && q[|q| - 1] == c;
  }

  /** A set of functions that no call leaves. */
  ghost predicate ClosedSet(g: Graph, s: set<Name>) {
    s <= g.Keys && forall f <- s, i :: 0 <= i < |CallsOf(g, f)| ==> CallsOf(g, f)[i].callee in s
  }

  /** What `a` reaches is the smallest set that holds `a` and that no call leaves. */
  lemma ReachableIsClosed(g: Graph, a: Name)
    requires Closed(g) && a in g
    ensures a in Reachable(g, a) && ClosedSet(g, Reachable(g, a))
  {
    ReachesSelf(g, a);
    forall f <- Reachable(g, a), i | 0 <= i < |CallsOf(g, f)|
      ensures CallsOf(g, f)[i].callee in Reachable(g, a)
    {
      CallIsKnown(g, f, CallsOf(g, f)[i].callee);
      ReachesThenCall(g, a, f, CallsOf(g, f)[i].callee);
    }
  }

  lemma ReachableIsLeast(g: Graph, s: set<Name>, a: Name)
    requires a in s && ClosedSet(g, s)
    ensures Reachable(g, a) <= s
  {
    forall b | b in Reachable(g, a)
      ensures b in s
    {
      var p :| IsPath(g, p) && p[0] == a && p[|p| - 1] == b;
      PathStaysInside(g, s, p);
    }
  }

  lemma {:induction false} PathStaysInside(g: Graph, s: set<Name>, p: seq<Name>)
    requires IsPath(g, p) && p[0] in s && ClosedSet(g, s)
    ensures p[|p| - 1] in s
  {
    if |p| > 1 {
      var q := p[..|p| - 1];
      forall i | 0 <= i < |q| - 1
        ensures HasCall(g, q[i], q[i + 1])
      {
        assert HasCall(g, p[i], p[i + 1]);
      }
      PathStaysInside(g, s, q);
      assert HasCall(g, p[|p| - 2], p[|p| - 2 + 1]);
      CallIsKnown(g, p[|p| - 2], p[|p| - 1]);
    }
  }

  /** How many calls the functions of a set make together. */
  ghost function CallTotal(g: Graph, s: set<Name>): nat
    requires s <= g.Keys
  {
    if s == {} then 0 else
    var x :| x in s;
    |CallsOf(g, x)| + CallTotal(g, s - {x})
  }

  lemma {:induction false} CallTotalSplit(g: Graph, s: set<Name>, x: Name)
    requires s <= g.Keys && x in s
    ensures CallTotal(g, s) == |CallsOf(g, x)| + CallTotal(g, s - {x})
  {
    var y :| y in s && CallTotal(g, s) == |CallsOf(g, y)| + CallTotal(g, s - {y});
    if x != y {
      CallTotalSplit(g, s - {y}, x);
      CallTotalSplit(g, s - {x}, y);
      assert s - {y} - {x} == s - {x} - {y};
    }
  }
}
