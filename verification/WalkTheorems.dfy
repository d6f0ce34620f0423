/**
 * What a whole walk from an entry function gives, in terms of the call records: which node expands a
 * function, how far a cut node is unfolded, which edges come out and how large the tree is.
 */
module WalkTheorems {
  import opened Common
  import opened CallGraph
  import opened WalkSpec
  import opened WalkProperties

  // ---- A function is expanded at its first node ----

  /** A node of a plan: its function, and whether it is expanded in full. */
  datatype Visit = Visit(fn: Name, full: bool)

  /** The nodes in preorder. */
  function Visits(p: Plan): seq<Visit>
    decreases p, 0
  {
    match p
    case Cut(f, _) => [Visit(f, false)]
    case Walked(f, _, kids) => [Visit(f, true)] + VisitsAll(kids)
  }

  function VisitsAll(ps: seq<Plan>): seq<Visit>
    decreases ps, 1
  {
    if ps == [] then [] else VisitsAll(ps[..|ps| - 1]) + Visits(ps[|ps| - 1])
  }

  /** A node is expanded in full exactly if no node before it is of the same function. */
  ghost predicate FullAtFirst(vs: seq<Visit>, seen: set<Name>) {
    forall i {:trigger vs[i].full} :: 0 <= i < |vs| ==>
      (vs[i].full <==> vs[i].fn !in seen && forall j :: 0 <= j < i ==> vs[j].fn != vs[i].fn)
  }

  lemma {:induction false} OrderIsFull(p: Plan, f: Name)
    ensures f in Order(p) <==> Visit(f, true) in Visits(p)
    decreases p, 0
  {
    if p.Walked? {
      OrderAllIsFull(p.kids, f);
    }
  }

  lemma {:induction false} OrderAllIsFull(ps: seq<Plan>, f: Name)
    ensures f in OrderAll(ps) <==> Visit(f, true) in VisitsAll(ps)
    decreases ps, 1
  {
    if ps != [] {
      OrderAllIsFull(ps[..|ps| - 1], f);
      OrderIsFull(ps[|ps| - 1], f);
    }
  }

  /** Among nodes of a function not seen before, one is full. */
  lemma {:induction false} SomeFull(vs: seq<Visit>, seen: set<Name>, i: nat)
    requires FullAtFirst(vs, seen) && i < |vs| && vs[i].fn !in seen
    ensures Visit(vs[i].fn, true) in vs
  {
    if j :| 0 <= j < i && vs[j].fn == vs[i].fn {
      SomeFull(vs, seen, j);
    } else {
      assert vs[i].full && vs[i] == Visit(vs[i].fn, true);
    }
  }

  lemma FullJoin(a: seq<Visit>, seen: set<Name>, b: seq<Visit>, now: set<Name>)
    requires FullAtFirst(a, seen) && FullAtFirst(b, now)
    requires forall f :: f in now <==> f in seen || Visit(f, true) in a
    ensures FullAtFirst(a + b, seen)
  {
    var vs := a + b;
    forall i | 0 <= i < |vs|
      ensures vs[i].full <==> vs[i].fn !in seen && forall j :: 0 <= j < i ==> vs[j].fn != vs[i].fn
    {
      if i < |a| {
        assert forall j :: 0 <= j < i ==> vs[j] == a[j];
      } else {
        LaterFull(a, seen, b, now, i - |a|);
      }
    }
  }

  lemma LaterFull(a: seq<Visit>, seen: set<Name>, b: seq<Visit>, now: set<Name>, i: nat)
    requires FullAtFirst(a, seen) && FullAtFirst(b, now) && i < |b|
    requires forall f :: f in now <==> f in seen || Visit(f, true) in a
    ensures b[i].full <==> b[i].fn !in seen && forall j :: 0 <= j < |a| + i ==> (a + b)[j].fn != b[i].fn
  {
    var f := b[i].fn;
    if j :| 0 <= j < |a| && a[j].fn == f && f !in seen {
      SomeFull(a, seen, j);
      assert (a + b)[j].fn == f;
    } else if j :| 0 <= j < i && b[j].fn == f {
      assert (a + b)[|a| + j].fn == f;
    }
  }

  lemma {:induction false} DfsFullAtFirst(g: Graph, f: Name, site: Option<Site>, seen: set<Name>)
    requires Closed(g) && f in g && f in seen
    ensures FullAtFirst(Visits(Dfs(g, f, site, seen)), seen - {f})
    decreases g.Keys - seen, 1
  {
    hide CallsOf, Calls;
    var kids := DfsAll(g, CallsOf(g, f), seen);
    DfsAllFullAtFirst(g, CallsOf(g, f), seen);
    var root := [Visit(f, true)];
    assert FullAtFirst(root, seen - {f});
    FullJoin(root, seen - {f}, VisitsAll(kids), seen);
  }

  lemma {:induction false} DfsAllFullAtFirst(g: Graph, cs: seq<Call>, seen: set<Name>)
    requires Closed(g) && KnownCalls(g, cs)
    ensures FullAtFirst(VisitsAll(DfsAll(g, cs, seen)), seen)
    decreases g.Keys - seen, 0, |cs|
  {
    if cs != [] {
      hide FullAtFirst, Dfs;
      var front, c := DfsAll(g, cs[..|cs| - 1], seen), cs[|cs| - 1];
      var now := seen + ToSet(OrderAll(front));
      DfsAllFullAtFirst(g, cs[..|cs| - 1], seen);
      forall x
        ensures x in now <==> x in seen || Visit(x, true) in VisitsAll(front)
      {
        OrderAllIsFull(front, x);
      }
      if c.callee in now {
        CutIsLater(c, now);
        FullJoin(VisitsAll(front), seen, Visits(Cut(c.callee, c.site)), now);
        VisitsSnoc(front, Cut(c.callee, c.site));
      } else {
        assert c.callee in (g.Keys - seen) && c.callee !in g.Keys - (now + {c.callee});
        var last := Dfs(g, c.callee, c.site, now + {c.callee});
        DfsFullAtFirst(g, c.callee, c.site, now + {c.callee});
        assert now + {c.callee} - {c.callee} == now;
        FullJoin(VisitsAll(front), seen, Visits(last), now);
        VisitsSnoc(front, last);
      }
    }
  }

  lemma CutIsLater(c: Call, seen: set<Name>)
    requires c.callee in seen
    ensures FullAtFirst(Visits(Cut(c.callee, c.site)), seen)
  {
  }

  lemma VisitsSnoc(ps: seq<Plan>, p: Plan)
    ensures VisitsAll(ps + [p]) == VisitsAll(ps) + Visits(p)
  {
    assert (ps + [p])[..|ps|] == ps;
  }

  // ---- A cut node is unfolded to three levels ----

  /** Of the nodes less than the given number of levels below the root, only functions without calls show none. */
  ghost predicate Opened(g: Graph, t: CallTreeNode, levels: nat)
    decreases t
  {
    levels > 0 ==>
      && t.name in g
      && (t.children == [] ==> forall r :: r in g[t.name].records ==> r.callee == None)
      && forall i :: 0 <= i < |t.children| ==> Opened(g, t.children[i], levels - 1)
  }

  lemma OpenedAsShallow(g: Graph, t: CallTreeNode, site: Option<Site>, levels: nat)
    ensures Opened(g, WithSite(t, site), levels) == Opened(g, t, levels)
    ensures Depth(WithSite(t, site)) == Depth(t)
  {
  }

  lemma {:induction false} UnfoldOpened(g: Graph, f: Name, height: nat)
    requires Closed(g) && f in g
    ensures Opened(g, Unfold(g, f, height), height)
    decreases height, 0
  {
    if height > 0 {
      UnfoldAllOpened(g, CallsOf(g, f), height - 1);
      NoCalls(g[f].records);
    }
  }

  lemma NoCalls(rs: seq<Record>)
    ensures Calls(rs) == [] ==> forall r :: r in rs ==> r.callee == None
  {
    hide Calls;
    forall r | r in rs && r.callee.Some?
      ensures Calls(rs) != []
    {
      CallIsRecord(rs, Call(r.callee.value, r.site));
      assert IsCall(r, Call(r.callee.value, r.site));
    }
  }

  lemma {:induction false} UnfoldAllOpened(g: Graph, cs: seq<Call>, height: nat)
    requires Closed(g) && KnownCalls(g, cs)
    ensures forall i :: 0 <= i < |cs| ==> Opened(g, UnfoldAll(g, cs, height)[i], height)
    decreases height, |cs| + 1
  {
    if cs != [] {
      hide Opened;
      var front, c := cs[..|cs| - 1], cs[|cs| - 1];
      UnfoldAllOpened(g, front, height);
      UnfoldOpened(g, c.callee, height);
      OpenedAsShallow(g, Unfold(g, c.callee, height), c.site, height);
      assert UnfoldAll(g, cs, height) == UnfoldAll(g, front, height) + [WithSite(Unfold(g, c.callee, height), c.site)];
    }
  }

  /** The tree shows the plan: one child for each kid of a full node, and three levels at a cut one. */
  ghost predicate Draws(g: Graph, p: Plan, t: CallTreeNode)
    decreases p
  {
    && t.name == p.fn
    && match p
       case Cut(_, _) => Opened(g, t, 3) && Depth(t) <= 3
       case Walked(_, _, kids) =>
         |t.children| == |kids| && forall i :: 0 <= i < |kids| ==> Draws(g, kids[i], t.children[i])
  }

  lemma {:induction false} RenderDraws(g: Graph, p: Plan)
    requires Closed(g) && Conforms(g, p)
    ensures Draws(g, p, Render(g, p))
    decreases p, 0
  {
    match p
    case Cut(f, site) =>
      UnfoldOpened(g, f, CUT_HEIGHT);
      UnfoldDepth(g, f, CUT_HEIGHT);
      OpenedAsShallow(g, Unfold(g, f, CUT_HEIGHT), site, CUT_HEIGHT);
      UnfoldName(g, f, CUT_HEIGHT);
    case Walked(f, site, kids) => RenderAllDraws(g, kids);
  }

  lemma {:induction false} RenderAllAt(g: Graph, ps: seq<Plan>, i: nat)
    requires Closed(g) && AllConform(g, ps) && i < |ps|
    ensures Conforms(g, ps[i]) && RenderAll(g, ps)[i] == Render(g, ps[i])
  {
    hide Conforms, Render;
    if i < |ps| - 1 {
      RenderAllAt(g, ps[..|ps| - 1], i);
    }
  }

  lemma {:induction false} RenderAllDraws(g: Graph, ps: seq<Plan>)
    requires Closed(g) && AllConform(g, ps)
    ensures forall i :: 0 <= i < |ps| ==> Draws(g, ps[i], RenderAll(g, ps)[i])
    decreases ps, 1
  {
    hide Draws, Conforms, Render, AllConform, RenderAll;
    forall i | 0 <= i < |ps|
      ensures Draws(g, ps[i], RenderAll(g, ps)[i])
    {
      RenderAllAt(g, ps, i);
      RenderDraws(g, ps[i]);
    }
  }

  // ---- The edges of one function ----

  predicate LocatedCall(r: Record) {
    r.callee.Some? && r.site.Some?
  }

  predicate ShownBy(r: Record, e: CallEdge) {
    && r.callee == Some(e.callee)
    && r.site == Some(Site(e.siteFile, e.siteLine, e.siteCol, e.isIndirect))
  }

  /** They are its located calls, one for one and in record order. */
  lemma {:induction false} OwnEdgesInOrder(caller: Name, rs: seq<Record>)
    ensures ShowsKept(rs, LocatedCall, ShownBy, OwnEdges(caller, Calls(rs)))
    ensures forall e :: e in OwnEdges(caller, Calls(rs)) ==> e.caller == caller
  {
    if rs == [] {
      ShowsNone(LocatedCall, ShownBy);
    } else {
      hide Calls, ShowsKept;
      var front, r := rs[..|rs| - 1], rs[|rs| - 1];
      OwnEdgesInOrder(caller, front);
      SplitLast(rs);
      OwnEdgesRecord(caller, front, r);
      var es := OwnEdges(caller, Calls(front));
      if LocatedCall(r) {
        ShowsOneMore(front, r, LocatedCall, ShownBy, es, EdgeAt(caller, r.callee.value, r.site.value));
      } else {
        ShowsNoMore(front, r, LocatedCall, ShownBy, es);
      }
    }
  }

  lemma OwnEdgesRecord(caller: Name, rs: seq<Record>, r: Record)
    ensures OwnEdges(caller, Calls(rs + [r])) ==
            if LocatedCall(r) then OwnEdges(caller, Calls(rs)) + [EdgeAt(caller, r.callee.value, r.site.value)]
            else OwnEdges(caller, Calls(rs))
  {
    assert (rs + [r])[..|rs|] == rs;
    if r.callee.Some? {
      var cs, c := Calls(rs), Call(r.callee.value, r.site);
      assert (cs + [c])[..|cs|] == cs;
    }
  }

  // ---- What a whole walk from an entry function gives ----

  /**
   * The tree: every step is a call record, the functions in it are the reachable ones, a function is
   * expanded in full at its first node in preorder and there only, and cut to three levels elsewhere.
   */
  lemma TreeTheorem(g: Graph, entry: Name)
    requires Closed(g) && entry in g
    ensures var p := Dfs(g, entry, None, {entry});
            && Conforms(g, p)
            && Faithful(g, Render(g, p)) && Draws(g, p, Render(g, p)) && FullAtFirst(Visits(p), {})
            && Render(g, p).name == entry
            && Names(Render(g, p)) == Reachable(g, entry)
            && ToSet(Order(p)) == Reachable(g, entry) && NoDuplicates(Order(p))
  {
    VisitsReachable(g, entry);
    var p := Dfs(g, entry, None, {entry});
    RenderFaithful(g, p);
    RenderDraws(g, p);
    DfsFullAtFirst(g, entry, None, {entry});
    assert {entry} - {entry} == {};
  }

  /** The edges: for each function, its located calls in record order if it is reachable, else none. */
  lemma EdgesTheorem(g: Graph, entry: Name, caller: Name)
    requires Closed(g) && entry in g
    ensures var es := EdgesFrom(PlanEdges(Dfs(g, entry, None, {entry})), caller);
            if caller in Reachable(g, entry) then ShowsKept(g[caller].records, LocatedCall, ShownBy, es) else es == []
  {
    hide PlanEdges, Dfs, Reaches, OwnEdges, ShowsKept;
    OwnEdgesTheorem(g, entry, caller);
    if caller in Reachable(g, entry) {
      OwnEdgesInOrder(caller, g[caller].records);
    }
  }

  lemma OwnEdgesTheorem(g: Graph, entry: Name, caller: Name)
    requires Closed(g) && entry in g
    ensures EdgesFrom(PlanEdges(Dfs(g, entry, None, {entry})), caller) ==
            if caller in Reachable(g, entry) then OwnEdges(caller, CallsOf(g, caller)) else []
  {
    VisitsReachable(g, entry);
    PlanEdgesOnce(g, Dfs(g, entry, None, {entry}), caller);
  }

  /** The plan: R reachable functions making E calls give R full nodes and E - R + 1 cut ones. */
  lemma CountTheorem(g: Graph, entry: Name)
    requires Closed(g) && entry in g
    ensures var p, r := Dfs(g, entry, None, {entry}), Reachable(g, entry);
            |Order(p)| == |r| && Cuts(p) == CallTotal(g, r) - |r| + 1
  {
    var p := Dfs(g, entry, None, {entry});
    VisitsReachable(g, entry);
    ToSetSize(Order(p));
    PlanNodeCount(g, p);
    CallsAlongIsTotal(g, Order(p));
  }

  /** The size: if no reachable function makes more than `d` calls, a cut node is a bounded tree. */
  lemma SizeTheorem(g: Graph, entry: Name, d: nat)
    requires Closed(g) && entry in g && OutDegree(g, Reachable(g, entry), d)
    ensures var p, r := Dfs(g, entry, None, {entry}), Reachable(g, entry);
            && Conforms(g, p)
            && Depth(Render(g, p)) <= |r| + 3
            && Cuts(p) == CallTotal(g, r) - |r| + 1
            && Size(Render(g, p)) <= |r| + Cuts(p) * FullTree(d, 3)
  {
    var p, s, k := Dfs(g, entry, None, {entry}), Reachable(g, entry), FullTree(d, CUT_HEIGHT);
    hide FullTree, Unfold, Render, Dfs, Order, Size, Depth, Cuts, Weight, CallTotal, Conforms;
    VisitsReachable(g, entry);
    CountTheorem(g, entry);
    RenderDepth(g, p);
    ReachableIsClosed(g, entry);
    forall f | f in s
      ensures Size(Unfold(g, f, CUT_HEIGHT)) <= k
    {
      UnfoldSize(g, s, f, CUT_HEIGHT, d);
    }
    RenderSize(g, s, p, k);
    WeightCountsCuts(p, k);
  }

  lemma FullTreeOfThree(d: nat)
    ensures FullTree(d, 3) == 1 + d + d * d + d * d * d
  {
    assert FullTree(d, 1) == 1 + d * FullTree(d, 0) == 1 + d;
    assert FullTree(d, 2) == 1 + d * (1 + d);
    assert FullTree(d, 3) == 1 + d * FullTree(d, 2);
  }
}
