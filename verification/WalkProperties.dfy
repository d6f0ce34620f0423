/**
 * What holds of every depth-first plan and of the tree and edges drawn from it: who is visited,
 * how often, which edges come out, and how large the tree can get.
 */
module WalkProperties {
  import opened Common
  import opened CallGraph
  import opened WalkSpec

  // ---- The plan follows the graph ----

  lemma {:induction false} DfsConforms(g: Graph, f: Name, site: Option<Site>, seen: set<Name>)
    requires Closed(g) && f in g
    ensures Conforms(g, Dfs(g, f, site, seen))
    decreases g.Keys - seen, 1
  {
    DfsAllConforms(g, CallsOf(g, f), seen);
    var p := Dfs(g, f, site, seen);
    assert p.kids == DfsAll(g, CallsOf(g, f), seen);
  }

  lemma {:induction false} DfsAllConforms(g: Graph, cs: seq<Call>, seen: set<Name>)
    requires Closed(g) && KnownCalls(g, cs)
    ensures AllConform(g, DfsAll(g, cs, seen))
    decreases g.Keys - seen, 0, |cs|
  {
    if cs != [] {
      var ps, front, c := DfsAll(g, cs, seen), DfsAll(g, cs[..|cs| - 1], seen), cs[|cs| - 1];
      var now := seen + ToSet(OrderAll(front));
      DfsAllConforms(g, cs[..|cs| - 1], seen);
      if c.callee !in now {
        assert c.callee in (g.Keys - seen) && c.callee !in g.Keys - (now + {c.callee});
        DfsConforms(g, c.callee, c.site, now + {c.callee});
      }
      assert ps[..|cs| - 1] == front;
    }
  }

  // ---- Each function is expanded at most once ----

  /** Visited names are new, known and pairwise different. */
  ghost predicate NewNames(g: Graph, order: seq<Name>, seen: set<Name>) {
    NoDuplicates(order) && forall i :: 0 <= i < |order| ==> order[i] in g && order[i] !in seen
  }

  lemma {:induction false} DfsVisitsOnce(g: Graph, f: Name, site: Option<Site>, seen: set<Name>)
    requires Closed(g) && f in g && f in seen
    ensures NewNames(g, Order(Dfs(g, f, site, seen)), seen - {f})
    decreases g.Keys - seen, 1
  {
    hide CallsOf, Calls;
    DfsAllVisitsOnce(g, CallsOf(g, f), seen);
  }

  lemma {:induction false} DfsAllVisitsOnce(g: Graph, cs: seq<Call>, seen: set<Name>)
    requires Closed(g) && KnownCalls(g, cs)
    ensures NewNames(g, OrderAll(DfsAll(g, cs, seen)), seen)
    decreases g.Keys - seen, 0, |cs|
  {
    if cs != [] {
      hide NewNames, Dfs, Order;
      var front, c := DfsAll(g, cs[..|cs| - 1], seen), cs[|cs| - 1];
      var o := OrderAll(front);
      var now := seen + ToSet(o);
      DfsAllVisitsOnce(g, cs[..|cs| - 1], seen);
      if c.callee in now {
        OrderAllSnoc(front, Cut(c.callee, c.site));
        CutVisitsNone(c, o);
      } else {
        assert c.callee in (g.Keys - seen) && c.callee !in g.Keys - (now + {c.callee});
        var last := Dfs(g, c.callee, c.site, now + {c.callee});
        DfsVisitsOnce(g, c.callee, c.site, now + {c.callee});
        OrderAllSnoc(front, last);
        assert now + {c.callee} - {c.callee} == now;
        NewNamesJoin(g, o, seen, Order(last));
      }
    }
  }

  lemma CutVisitsNone(c: Call, o: seq<Name>)
    ensures o + Order(Cut(c.callee, c.site)) == o
  {
  }

  lemma NewNamesJoin(g: Graph, a: seq<Name>, seen: set<Name>, b: seq<Name>)
    requires NewNames(g, a, seen) && NewNames(g, b, seen + ToSet(a))
    ensures NewNames(g, a + b, seen)
  {
  }

  lemma OrderAllSnoc(ps: seq<Plan>, p: Plan)
    ensures OrderAll(ps + [p]) == OrderAll(ps) + Order(p)
  {
    assert (ps + [p])[..|ps|] == ps;
  }

  // ---- The visited set is closed under calls ----

  ghost predicate CallsInside(g: Graph, names: seq<Name>, s: set<Name>) {
    forall f <- names :: CalleesIn(g, f, s)
  }

  ghost predicate CalleesIn(g: Graph, f: Name, s: set<Name>) {
    f in g ==> forall i :: 0 <= i < |CallsOf(g, f)| ==> CallsOf(g, f)[i].callee in s
  }

  lemma {:induction false} DfsClosed(g: Graph, f: Name, site: Option<Site>, seen: set<Name>)
    requires Closed(g) && f in g && f in seen
    ensures var o := Order(Dfs(g, f, site, seen)); CallsInside(g, o, seen + ToSet(o))
    decreases g.Keys - seen, 1
  {
    hide CallsOf, Calls;
    DfsAllClosed(g, CallsOf(g, f), seen);
    var below := OrderAll(DfsAll(g, CallsOf(g, f), seen));
    assert seen + ToSet([f] + below) == seen + ToSet(below);
    CallsInsideJoin(g, [f], seen + ToSet(below), below, seen + ToSet(below));
  }

  lemma {:induction false} DfsAllClosed(g: Graph, cs: seq<Call>, seen: set<Name>)
    requires Closed(g) && KnownCalls(g, cs)
    ensures var o := OrderAll(DfsAll(g, cs, seen));
            CallsInside(g, o, seen + ToSet(o)) && CalleesAmong(cs, seen + ToSet(o))
    decreases g.Keys - seen, 0, |cs|
  {
    if cs != [] {
      var front, c := DfsAll(g, cs[..|cs| - 1], seen), cs[|cs| - 1];
      var o, now := OrderAll(front), seen + ToSet(OrderAll(front));
      DfsAllClosed(g, cs[..|cs| - 1], seen);
      if c.callee in now {
        OrderAllSnoc(front, Cut(c.callee, c.site));
        assert o + [] == o;
      } else {
        assert c.callee in (g.Keys - seen) && c.callee !in g.Keys - (now + {c.callee});
        var last := Dfs(g, c.callee, c.site, now + {c.callee});
        DfsClosed(g, c.callee, c.site, now + {c.callee});
        OrderAllSnoc(front, last);
        assert Order(last)[0] == c.callee;
        VisitClosed(g, o, seen, c.callee, Order(last));
      }
    }
  }

  ghost predicate CalleesAmong(cs: seq<Call>, s: set<Name>) {
    forall c <- cs :: c.callee in s
  }

  lemma VisitClosed(g: Graph, o: seq<Name>, seen: set<Name>, f: Name, below: seq<Name>)
    requires CallsInside(g, o, seen + ToSet(o)) && f in below
    requires CallsInside(g, below, seen + ToSet(o) + {f} + ToSet(below))
    ensures CallsInside(g, o + below, seen + ToSet(o + below))
  {
    assert seen + ToSet(o) + {f} + ToSet(below) == seen + ToSet(o + below);
    CallsInsideJoin(g, o, seen + ToSet(o), below, seen + ToSet(o + below));
  }

  lemma CallsInsideJoin(g: Graph, a: seq<Name>, s: set<Name>, b: seq<Name>, t: set<Name>)
    requires CallsInside(g, a, s) && CallsInside(g, b, t) && s <= t
    ensures CallsInside(g, a + b, t)
  {
    forall f | f in a
      ensures CalleesIn(g, f, t)
    {
      assert CalleesIn(g, f, s);
    }
  }

  // ---- Names in the tree ----

  function Names(t: CallTreeNode): set<Name>
    decreases t, 0
  {
    {t.name} + NamesAll(t.children)
  }

  function NamesAll(ts: seq<CallTreeNode>): set<Name>
    decreases ts, 1
  {
    if ts == [] then {} else NamesAll(ts[..|ts| - 1]) + Names(ts[|ts| - 1])
  }

  lemma {:induction false} UnfoldNames(g: Graph, s: set<Name>, f: Name, height: nat)
    requires Closed(g) && ClosedSet(g, s) && f in s
    ensures Names(Unfold(g, f, height)) <= s
    decreases height, 0
  {
    if height > 0 {
      UnfoldAllNames(g, s, CallsOf(g, f), height - 1);
    }
  }

  lemma {:induction false} UnfoldAllNames(g: Graph, s: set<Name>, cs: seq<Call>, height: nat)
    requires Closed(g) && ClosedSet(g, s) && forall i :: 0 <= i < |cs| ==> cs[i].callee in s
    ensures NamesAll(UnfoldAll(g, cs, height)) <= s
    decreases height, |cs| + 1
  {
    if cs != [] {
      var front := cs[..|cs| - 1];
      UnfoldAllNames(g, s, front, height);
      UnfoldNames(g, s, cs[|cs| - 1].callee, height);
      assert UnfoldAll(g, cs, height)[..|cs| - 1] == UnfoldAll(g, front, height);
    }
  }

  lemma {:induction false} RenderNames(g: Graph, s: set<Name>, p: Plan)
    requires Closed(g) && Conforms(g, p) && ClosedSet(g, s) && p.fn in s
    ensures ToSet(Order(p)) <= Names(Render(g, p)) <= s
    decreases p, 0
  {
    match p
    case Cut(f, _) => UnfoldNames(g, s, f, CUT_HEIGHT);
    case Walked(f, _, kids) => RenderAllNames(g, s, kids);
  }

  lemma {:induction false} RenderAllNames(g: Graph, s: set<Name>, ps: seq<Plan>)
    requires Closed(g) && AllConform(g, ps) && ClosedSet(g, s)
    requires forall i :: 0 <= i < |ps| ==> ps[i].fn in s
    ensures ToSet(OrderAll(ps)) <= NamesAll(RenderAll(g, ps)) <= s
    decreases ps, 1
  {
    if ps != [] {
      RenderAllNames(g, s, ps[..|ps| - 1]);
      RenderNames(g, s, ps[|ps| - 1]);
      assert RenderAll(g, ps)[..|ps| - 1] == RenderAll(g, ps[..|ps| - 1]);
    }
  }

  // ---- Who is visited ----

  /** The walk from `f` expands in full exactly the reachable functions, each at one node. */
  lemma VisitsReachable(g: Graph, f: Name)
    requires Closed(g) && f in g
    ensures var p := Dfs(g, f, None, {f});
            && Conforms(g, p)
            && NoDuplicates(Order(p))
            && ToSet(Order(p)) == Names(Render(g, p)) == Reachable(g, f)
  {
    var p := Dfs(g, f, None, {f});
    DfsConforms(g, f, None, {f});
    DfsVisitsOnce(g, f, None, {f});
    ReachableIsClosed(g, f);
    RenderNames(g, Reachable(g, f), p);
    DfsClosed(g, f, None, {f});
    assert Order(p)[0] == f;
    assert {f} + ToSet(Order(p)) == ToSet(Order(p));
    forall x <- ToSet(Order(p)), i | 0 <= i < |CallsOf(g, x)|
      ensures CallsOf(g, x)[i].callee in ToSet(Order(p))
    {
      assert CalleesIn(g, x, ToSet(Order(p)));
    }
    ReachableIsLeast(g, ToSet(Order(p)), f);
  }

  // ---- Every step of the tree is a call record ----

  /** Each node shows a known function and either none of its calls or all of them, in order. */
  ghost predicate Faithful(g: Graph, t: CallTreeNode)
    decreases t, 0
  {
    t.name in g && (t.children == [] || AllFaithful(g, CallsOf(g, t.name), t.children))
  }

  ghost predicate AllFaithful(g: Graph, cs: seq<Call>, ts: seq<CallTreeNode>)
    decreases ts, 1
  {
    |ts| == |cs| &&
    (ts == [] ||
     var n := |ts| - 1;
     AllFaithful(g, cs[..n], ts[..n]) && ShowsCall(cs[n], ts[n]) && Faithful(g, ts[n]))
  }

  ghost predicate ShowsCall(c: Call, t: CallTreeNode) {
    && t.name == c.callee
    && (t.siteFile, t.siteLine, t.siteCol) ==
         match c.site case None => ("", 0, 0) case Some(s) => (s.file, s.line, s.col)
  }

  lemma FaithfulSnoc(g: Graph, cs: seq<Call>, ts: seq<CallTreeNode>, c: Call, t: CallTreeNode)
    requires AllFaithful(g, cs, ts) && ShowsCall(c, t) && Faithful(g, t)
    ensures AllFaithful(g, cs + [c], ts + [t])
  {
    assert (ts + [t])[..|ts|] == ts && (cs + [c])[..|cs|] == cs;
  }

  lemma SiteKeepsFaithful(g: Graph, t: CallTreeNode, site: Option<Site>)
    requires Faithful(g, t) && ShowsCall(Call(t.name, None), t)
    ensures Faithful(g, WithSite(t, site)) && ShowsCall(Call(t.name, site), WithSite(t, site))
  {
  }

  lemma {:induction false} UnfoldFaithful(g: Graph, f: Name, height: nat)
    requires Closed(g) && f in g
    ensures var t := Unfold(g, f, height); Faithful(g, t) && ShowsCall(Call(f, None), t)
    decreases height, 0
  {
    hide CallsOf, Calls;
    if height > 0 {
      UnfoldAllFaithful(g, CallsOf(g, f), height - 1);
    }
  }

  lemma {:induction false} UnfoldAllFaithful(g: Graph, cs: seq<Call>, height: nat)
    requires Closed(g) && KnownCalls(g, cs)
    ensures AllFaithful(g, cs, UnfoldAll(g, cs, height))
    decreases height, |cs| + 1
  {
    if cs != [] {
      hide CallsOf, Calls, Faithful, AllFaithful, ShowsCall, Unfold, Closed, WithSite;
      var front, c := cs[..|cs| - 1], cs[|cs| - 1];
      var t := Unfold(g, c.callee, height);
      UnfoldAllFaithful(g, front, height);
      UnfoldFaithful(g, c.callee, height);
      UnfoldName(g, c.callee, height);
      SiteKeepsFaithful(g, t, c.site);
      FaithfulSnoc(g, front, UnfoldAll(g, front, height), c, WithSite(t, c.site));
      SplitLast(cs);
    }
  }

  lemma UnfoldName(g: Graph, f: Name, height: nat)
    requires Closed(g) && f in g
    ensures Unfold(g, f, height).name == f
  {
  }

  lemma {:induction false} RenderFaithful(g: Graph, p: Plan)
    requires Closed(g) && Conforms(g, p)
    ensures Faithful(g, Render(g, p)) && ShowsCall(Call(p.fn, p.site), Render(g, p))
    decreases p, 0
  {
    match p
    case Cut(f, site) =>
      UnfoldFaithful(g, f, CUT_HEIGHT);
      SiteKeepsFaithful(g, Unfold(g, f, CUT_HEIGHT), site);
    case Walked(f, site, kids) =>
      RenderAllFaithful(g, CallsOf(g, f), kids);
      SiteKeepsFaithful(g, CallTreeNode(f, "", 0, 0, RenderAll(g, kids)), site);
  }

  lemma {:induction false} RenderAllFaithful(g: Graph, cs: seq<Call>, ps: seq<Plan>)
    requires Closed(g) && AllConform(g, ps) && Matches(cs, ps)
    ensures AllFaithful(g, cs, RenderAll(g, ps))
    decreases ps, 1
  {
    if ps != [] {
      hide CallsOf, Calls, Faithful, AllFaithful, ShowsCall, Render, Conforms, Closed;
      var front, p, c := ps[..|ps| - 1], ps[|ps| - 1], cs[|cs| - 1];
      RenderAllFaithful(g, cs[..|cs| - 1], front);
      RenderFaithful(g, p);
      assert c == Call(p.fn, p.site);
      FaithfulSnoc(g, cs[..|cs| - 1], RenderAll(g, front), c, Render(g, p));
      SplitLast(cs);
    }
  }

  // ---- Edges: one for each located call of a visited function ----

  /** The edges a function's own calls give, in record order. */
  function OwnEdges(caller: Name, cs: seq<Call>): seq<CallEdge> {
    if cs == [] then [] else
    var front, c := OwnEdges(caller, cs[..|cs| - 1]), cs[|cs| - 1];
    if c.site.Some? then front + [EdgeAt(caller, c.callee, c.site.value)] else front
  }

  function EdgesFrom(es: seq<CallEdge>, caller: Name): seq<CallEdge> {
    if es == [] then [] else
    EdgesFrom(es[..|es| - 1], caller) + if es[|es| - 1].caller == caller then [es[|es| - 1]] else []
  }

  lemma {:induction false} EdgesFromConcat(a: seq<CallEdge>, b: seq<CallEdge>, caller: Name)
    ensures EdgesFrom(a + b, caller) == EdgesFrom(a, caller) + EdgesFrom(b, caller)
  {
    if b == [] {
      assert a + b == a;
    } else {
      assert (a + b)[..|a + b| - 1] == a + b[..|b| - 1];
      EdgesFromConcat(a, b[..|b| - 1], caller);
    }
  }

  function VisitedEdges(g: Graph, order: seq<Name>, caller: Name): seq<CallEdge> {
    if caller in order && caller in g then OwnEdges(caller, CallsOf(g, caller)) else []
  }

  lemma {:induction false} PlanEdgesOnce(g: Graph, p: Plan, caller: Name)
    requires Conforms(g, p) && NoDuplicates(Order(p))
    ensures EdgesFrom(PlanEdges(p), caller) == VisitedEdges(g, Order(p), caller)
    decreases p, 0
  {
    if p.Walked? {
      NoDuplicatesSplit([p.fn], OrderAll(p.kids));
      assert p.fn in [p.fn];
      KidEdgesOnce(g, p.fn, CallsOf(g, p.fn), p.kids, caller);
    }
  }

  lemma {:induction false} KidEdgesOnce(g: Graph, f: Name, cs: seq<Call>, ps: seq<Plan>, caller: Name)
    requires Matches(cs, ps) && AllConform(g, ps)
    requires NoDuplicates(OrderAll(ps)) && f !in OrderAll(ps)
    ensures EdgesFrom(KidEdges(f, ps), caller) ==
            if caller == f then OwnEdges(f, cs) else VisitedEdges(g, OrderAll(ps), caller)
    decreases ps, 1
  {
    if ps != [] {
      hide KidEdges, PlanEdges, EdgesFrom, OwnEdges, VisitedEdges, Conforms, Order;
      var front, p := ps[..|ps| - 1], ps[|ps| - 1];
      assert OrderAll(ps) == OrderAll(front) + Order(p);
      NoDuplicatesSplit(OrderAll(front), Order(p));
      KidEdgesOnce(g, f, cs[..|cs| - 1], front, caller);
      PlanEdgesOnce(g, p, caller);
      KidEdgesStep(f, ps, caller);
      VisitedEdgesJoin(g, OrderAll(front), Order(p), caller);
      OwnEdgesStep(f, cs, p);
      assert OwnEdges(f, cs[..|cs| - 1]) + [] == OwnEdges(f, cs[..|cs| - 1]);
    }
  }

  lemma VisitedEdgesJoin(g: Graph, a: seq<Name>, b: seq<Name>, caller: Name)
    requires forall x :: x in a ==> x !in b
    ensures VisitedEdges(g, a + b, caller) == VisitedEdges(g, a, caller) + VisitedEdges(g, b, caller)
    ensures caller !in a + b ==> VisitedEdges(g, a, caller) == VisitedEdges(g, b, caller) == []
  {
  }

  lemma OwnEdgesStep(f: Name, cs: seq<Call>, p: Plan)
    requires cs != [] && p.fn == cs[|cs| - 1].callee && p.site == cs[|cs| - 1].site
    ensures OwnEdges(f, cs) ==
            if p.site.Some? then OwnEdges(f, cs[..|cs| - 1]) + [EdgeAt(f, p.fn, p.site.value)]
            else OwnEdges(f, cs[..|cs| - 1])
  {
  }

  lemma KidEdgesStep(f: Name, ps: seq<Plan>, caller: Name)
    requires ps != []
    ensures var p := ps[|ps| - 1];
            var before := EdgesFrom(KidEdges(f, ps[..|ps| - 1]), caller) + EdgesFrom(PlanEdges(p), caller);
            EdgesFrom(KidEdges(f, ps), caller) ==
            if p.site.Some? && caller == f then before + [EdgeAt(f, p.fn, p.site.value)] else before
  {
    var p := ps[|ps| - 1];
    var own := if p.site.Some? then [EdgeAt(f, p.fn, p.site.value)] else [];
    var below := KidEdges(f, ps[..|ps| - 1]);
    EdgesFromConcat(below + PlanEdges(p), own, caller);
    EdgesFromConcat(below, PlanEdges(p), caller);
    OwnFiltered(f, own, caller);
  }

  lemma OwnFiltered(f: Name, own: seq<CallEdge>, caller: Name)
    requires |own| <= 1 && forall e :: e in own ==> e.caller == f
    ensures EdgesFrom(own, caller) == if caller == f then own else []
  {
    if |own| == 1 {
      assert own[..0] == [];
    }
  }

  // ---- How large the tree can get ----

  function Size(t: CallTreeNode): nat
    decreases t, 0
  {
    1 + SizeAll(t.children)
  }

  function SizeAll(ts: seq<CallTreeNode>): nat
    decreases ts, 1
  {
    if ts == [] then 0 else SizeAll(ts[..|ts| - 1]) + Size(ts[|ts| - 1])
  }

  /** The number of steps from the root to the deepest node. */
  function Depth(t: CallTreeNode): nat
    decreases t, 0
  {
    DepthAll(t.children)
  }

  function DepthAll(ts: seq<CallTreeNode>): nat
    decreases ts, 1
  {
    if ts == [] then 0 else
    var a, b := DepthAll(ts[..|ts| - 1]), 1 + Depth(ts[|ts| - 1]);
    if a > b then a else b
  }

  /** Nodes of a tree of the given height in which every node has `d` children. */
  function FullTree(d: nat, height: nat): nat {
    if height == 0 then 1 else 1 + d * FullTree(d, height - 1)
  }

  /** No function of the set makes more than `d` calls. */
  ghost predicate OutDegree(g: Graph, s: set<Name>, d: nat) {
    s <= g.Keys && forall f <- s :: |CallsOf(g, f)| <= d
  }

  lemma {:induction false} UnfoldSize(g: Graph, s: set<Name>, f: Name, height: nat, d: nat)
    requires Closed(g) && ClosedSet(g, s) && OutDegree(g, s, d) && f in s
    ensures Size(Unfold(g, f, height)) <= FullTree(d, height)
    decreases height, 0
  {
    if height > 0 {
      UnfoldAllSize(g, s, CallsOf(g, f), height - 1, d, FullTree(d, height - 1));
      MulMono(|CallsOf(g, f)|, d, FullTree(d, height - 1));
    }
  }

  lemma {:induction false} UnfoldAllSize(g: Graph, s: set<Name>, cs: seq<Call>, height: nat, d: nat, k: nat)
    requires Closed(g) && ClosedSet(g, s) && OutDegree(g, s, d) && k == FullTree(d, height)
    requires forall i :: 0 <= i < |cs| ==> cs[i].callee in s
    ensures SizeAll(UnfoldAll(g, cs, height)) <= |cs| * k
    decreases height, |cs| + 1
  {
    if cs != [] {
      var front, c, ts := cs[..|cs| - 1], cs[|cs| - 1], UnfoldAll(g, cs, height);
      UnfoldAllSize(g, s, front, height, d, k);
      UnfoldSize(g, s, c.callee, height, d);
      assert ts[..|cs| - 1] == UnfoldAll(g, front, height);
      assert Size(ts[|cs| - 1]) == Size(Unfold(g, c.callee, height));
      MulStep(|cs|, k);
    }
  }

  lemma SizeAllSnoc(ts: seq<CallTreeNode>, t: CallTreeNode)
    ensures SizeAll(ts + [t]) == SizeAll(ts) + Size(t)
  {
    assert (ts + [t])[..|ts|] == ts;
  }

  lemma MulMono(a: nat, b: nat, k: nat)
    requires a <= b
    ensures a * k <= b * k
  {
  }

  lemma MulStep(n: nat, k: nat)
    requires n > 0
    ensures n * k == (n - 1) * k + k
  {
  }

  lemma MulSum(a: nat, b: nat, k: nat)
    ensures (a + b) * k == a * k + b * k
  {
  }

  /** No cut node of a function of the set is larger than `k`. */
  ghost predicate CutSize(g: Graph, s: set<Name>, k: nat)
    requires Closed(g)
  {
    s <= g.Keys && forall f <- s :: Size(Unfold(g, f, CUT_HEIGHT)) <= k
  }

  lemma {:induction false} RenderSize(g: Graph, s: set<Name>, p: Plan, k: nat)
    requires Closed(g) && Conforms(g, p) && ClosedSet(g, s) && CutSize(g, s, k) && p.fn in s
    ensures Size(Render(g, p)) <= |Order(p)| + Weight(p, k)
    decreases p, 0
  {
    match p
    case Cut(f, site) => assert Size(Render(g, p)) == Size(Unfold(g, f, CUT_HEIGHT));
    case Walked(f, site, kids) => RenderAllSize(g, s, kids, k);
  }

  lemma {:induction false} RenderAllSize(g: Graph, s: set<Name>, ps: seq<Plan>, k: nat)
    requires Closed(g) && AllConform(g, ps) && ClosedSet(g, s) && CutSize(g, s, k)
    requires forall i :: 0 <= i < |ps| ==> ps[i].fn in s
    ensures SizeAll(RenderAll(g, ps)) <= |OrderAll(ps)| + WeightAll(ps, k)
    decreases ps, 1
  {
    if ps != [] {
      var front, p := ps[..|ps| - 1], ps[|ps| - 1];
      RenderAllSize(g, s, front, k);
      RenderSize(g, s, p, k);
      SizeAllSnoc(RenderAll(g, front), Render(g, p));
    }
  }

  /** The cut nodes of a plan, each counted `k` times. */
  function Weight(p: Plan, k: nat): nat
    decreases p, 0
  {
    match p
    case Cut(_, _) => k
    case Walked(_, _, kids) => WeightAll(kids, k)
  }

  function WeightAll(ps: seq<Plan>, k: nat): nat
    decreases ps, 1
  {
    if ps == [] then 0 else WeightAll(ps[..|ps| - 1], k) + Weight(ps[|ps| - 1], k)
  }

  lemma {:induction false} WeightCountsCuts(p: Plan, k: nat)
    ensures Weight(p, k) == Cuts(p) * k
    decreases p, 0
  {
    if p.Walked? {
      WeightAllCountsCuts(p.kids, k);
    }
  }

  lemma {:induction false} WeightAllCountsCuts(ps: seq<Plan>, k: nat)
    ensures WeightAll(ps, k) == CutsAll(ps) * k
    decreases ps, 1
  {
    if ps != [] {
      WeightAllCountsCuts(ps[..|ps| - 1], k);
      WeightCountsCuts(ps[|ps| - 1], k);
      MulSum(CutsAll(ps[..|ps| - 1]), Cuts(ps[|ps| - 1]), k);
    }
  }

  lemma {:induction false} UnfoldDepth(g: Graph, f: Name, height: nat)
    requires Closed(g) && f in g
    ensures Depth(Unfold(g, f, height)) <= height
    decreases height, 0
  {
    if height > 0 {
      UnfoldAllDepth(g, CallsOf(g, f), height - 1);
    }
  }

  lemma {:induction false} UnfoldAllDepth(g: Graph, cs: seq<Call>, height: nat)
    requires Closed(g) && KnownCalls(g, cs)
    ensures DepthAll(UnfoldAll(g, cs, height)) <= height + 1
    decreases height, |cs| + 1
  {
    if cs != [] {
      UnfoldAllDepth(g, cs[..|cs| - 1], height);
      UnfoldDepth(g, cs[|cs| - 1].callee, height);
      assert UnfoldAll(g, cs, height)[..|cs| - 1] == UnfoldAll(g, cs[..|cs| - 1], height);
    }
  }

  lemma {:induction false} RenderDepth(g: Graph, p: Plan)
    requires Closed(g) && Conforms(g, p)
    ensures Depth(Render(g, p)) <= |Order(p)| + CUT_HEIGHT
    decreases p, 0
  {
    match p
    case Cut(f, site) => UnfoldDepth(g, f, CUT_HEIGHT);
    case Walked(f, site, kids) => RenderAllDepth(g, kids);
  }

  lemma {:induction false} RenderAllDepth(g: Graph, ps: seq<Plan>)
    requires Closed(g) && AllConform(g, ps)
    ensures DepthAll(RenderAll(g, ps)) <= |OrderAll(ps)| + 1 + CUT_HEIGHT
    decreases ps, 1
  {
    if ps != [] {
      RenderAllDepth(g, ps[..|ps| - 1]);
      RenderDepth(g, ps[|ps| - 1]);
      assert RenderAll(g, ps)[..|ps| - 1] == RenderAll(g, ps[..|ps| - 1]);
    }
  }

  /** Every call of an expanded function is a node of the plan, and so is the root. */
  ghost function CallsAlong(g: Graph, order: seq<Name>): nat {
    if order == [] then 0 else
    var f := order[|order| - 1];
    CallsAlong(g, order[..|order| - 1]) + if f in g then |CallsOf(g, f)| else 0
  }

  lemma {:induction false} CallsAlongConcat(g: Graph, a: seq<Name>, b: seq<Name>)
    ensures CallsAlong(g, a + b) == CallsAlong(g, a) + CallsAlong(g, b)
  {
    if b == [] {
      assert a + b == a;
    } else {
      assert (a + b)[..|a + b| - 1] == a + b[..|b| - 1];
      CallsAlongConcat(g, a, b[..|b| - 1]);
    }
  }

  lemma {:induction false} CallsAlongIsTotal(g: Graph, order: seq<Name>)
    requires NoDuplicates(order) && ToSet(order) <= g.Keys
    ensures CallsAlong(g, order) == CallTotal(g, ToSet(order))
  {
    if order == [] {
      assert ToSet(order) == {};
    } else {
      var front, f := order[..|order| - 1], order[|order| - 1];
      assert f in ToSet(order) && ToSet(front) == ToSet(order) - {f};
      CallsAlongIsTotal(g, front);
      CallTotalSplit(g, ToSet(order), f);
    }
  }

  lemma {:induction false} PlanNodeCount(g: Graph, p: Plan)
    requires Conforms(g, p)
    ensures Cuts(p) + |Order(p)| == 1 + CallsAlong(g, Order(p))
    decreases p, 0
  {
    if p.Walked? {
      PlansNodeCount(g, p.kids);
      CallsAlongConcat(g, [p.fn], OrderAll(p.kids));
      assert [p.fn][..0] == [];
      assert CallsAlong(g, [p.fn]) == |p.kids|;
    }
  }

  lemma {:induction false} PlansNodeCount(g: Graph, ps: seq<Plan>)
    requires AllConform(g, ps)
    ensures CutsAll(ps) + |OrderAll(ps)| == |ps| + CallsAlong(g, OrderAll(ps))
    decreases ps, 1
  {
    if ps != [] {
      PlansNodeCount(g, ps[..|ps| - 1]);
      PlanNodeCount(g, ps[|ps| - 1]);
      CallsAlongConcat(g, OrderAll(ps[..|ps| - 1]), Order(ps[|ps| - 1]));
    }
  }
}
