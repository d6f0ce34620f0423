/**
 * The walker itself: two recursive methods over shared mutable state, proved to draw the tree,
 * the edges and the function map of the depth-first plan.
 */
module CallGraphWalker {
  import opened Common
  import opened CallGraph
  import opened WalkSpec
  import opened WalkProperties

  /** The arguments the walk passes by reference. */
  class WalkState {
    var visited: set<Name>
    var funcMap: map<Name, FunctionMeta>
    var edges: seq<CallEdge>

    constructor (entry: Name)
      ensures visited == {entry} && funcMap == map[] && edges == []
    {
      visited, funcMap, edges := {entry}, map[], [];
    }
  }

  datatype WalkResult = WalkResult(root: CallTreeNode, functions: map<Name, FunctionMeta>, edges: seq<CallEdge>)

  const EMPTY_NODE := CallTreeNode("", "", 0, 0, [])

  /** The metadata of the named functions. */
  function Metas(g: Graph, names: set<Name>): map<Name, FunctionMeta> {
    map f | f in names && f in g :: g[f].meta
  }

  lemma {:induction false} CallsPrefix(rs: seq<Record>, i: nat)
    requires i <= |rs|
    ensures Calls(rs[..i]) <= Calls(rs)
    ensures i > 0 ==>
              var r := rs[i - 1];
              Calls(rs[..i]) ==
              if r.callee.Some? then Calls(rs[..i - 1]) + [Call(r.callee.value, r.site)] else Calls(rs[..i - 1])
  {
    if i > 0 {
      assert rs[..i][..i - 1] == rs[..i - 1];
    }
    if i < |rs| {
      assert rs[..|rs| - 1][..i] == rs[..i];
      CallsPrefix(rs[..|rs| - 1], i);
    } else {
      assert rs[..i] == rs;
    }
  }

  /** The function map after the metadata of the named functions was stored in it. */
  ghost function Stored(base: map<Name, FunctionMeta>, g: Graph, names: set<Name>): map<Name, FunctionMeta> {
    base + Metas(g, names)
  }

  lemma StoredTwice(base: map<Name, FunctionMeta>, g: Graph, a: set<Name>, b: set<Name>)
    ensures Stored(Stored(base, g, a), g, b) == Stored(base, g, a + b)
  {
    assert Metas(g, a) + Metas(g, b) == Metas(g, a + b);
  }

  lemma StoredSnoc(base: map<Name, FunctionMeta>, g: Graph, f: Name, ts: seq<CallTreeNode>, t: CallTreeNode)
    ensures Stored(Stored(base, g, {f} + NamesAll(ts)), g, Names(t)) == Stored(base, g, {f} + NamesAll(ts + [t]))
  {
    hide Stored;
    StoredTwice(base, g, {f} + NamesAll(ts), Names(t));
    assert (ts + [t])[..|ts|] == ts;
    assert {f} + NamesAll(ts) + Names(t) == {f} + NamesAll(ts + [t]);
  }

  /** Nothing has been walked yet. */
  lemma NoCallsYet(g: Graph, rs: seq<Record>)
    requires Closed(g)
    ensures Calls(rs[..0]) == [] && KnownCalls(g, []) && forall h :: UnfoldAll(g, [], h) == []
  {
  }

  lemma CalleeKnown(g: Graph, f: Name, i: nat)
    requires Closed(g) && f in g && i < |CallsOf(g, f)|
    ensures CallsOf(g, f)[i].callee in g
  {
  }

  lemma UnfoldAllSnoc(g: Graph, cs: seq<Call>, c: Call, height: nat)
    requires Closed(g) && KnownCalls(g, cs) && c.callee in g
    ensures KnownCalls(g, cs + [c])
    ensures UnfoldAll(g, cs + [c], height) ==
            UnfoldAll(g, cs, height) + [WithSite(Unfold(g, c.callee, height), c.site)]
  {
    assert (cs + [c])[..|cs|] == cs;
  }

  /** The kid a further call adds to the walk through the calls before it. */
  ghost function NextKid(g: Graph, c: Call, now: set<Name>): (p: Plan)
    requires Closed(g) && c.callee in g
    ensures p.fn == c.callee && p.site == c.site
  {
    if c.callee in now then Cut(c.callee, c.site) else Dfs(g, c.callee, c.site, now + {c.callee})
  }

  /** A first visit: the site the walk was entered through changes nothing below its root. */
  lemma FirstVisit(g: Graph, c: Call, now: set<Name>)
    requires Closed(g) && c.callee in g && c.callee !in now
    ensures var p, kid := Dfs(g, c.callee, None, now + {c.callee}), NextKid(g, c, now);
            && Conforms(g, p) && Conforms(g, kid)
            && Render(g, kid) == WithSite(Render(g, p), c.site)
            && Names(Render(g, kid)) == Names(Render(g, p))
            && now + {c.callee} + ToSet(Order(p)) == now + ToSet(Order(kid))
            && PlanEdges(kid) == PlanEdges(p)
  {
    var p, kid := Dfs(g, c.callee, None, now + {c.callee}), NextKid(g, c, now);
    DfsConforms(g, c.callee, None, now + {c.callee});
    DfsConforms(g, c.callee, c.site, now + {c.callee});
    assert Order(kid) == Order(p) && Order(p)[0] == c.callee;
  }

  lemma LaterVisit(g: Graph, c: Call, now: set<Name>)
    requires Closed(g) && c.callee in g && c.callee in now
    ensures var t, kid := Unfold(g, c.callee, CUT_HEIGHT), NextKid(g, c, now);
            && Conforms(g, kid)
            && Render(g, kid) == WithSite(t, c.site)
            && Names(Render(g, kid)) == Names(t)
            && now + {c.callee} == now + ToSet(Order(kid))
            && PlanEdges(kid) == []
  {
  }

  /** How far the walk of `f` is after the calls `cs`, started when `seen` had been visited. */
  ghost predicate Progress(g: Graph, f: Name, cs: seq<Call>, seen: set<Name>, ps: seq<Plan>,
                           children: seq<CallTreeNode>, visited: set<Name>)
    requires Closed(g)
  {
    && KnownCalls(g, cs)
    && ps == DfsAll(g, cs, seen)
    && AllConform(g, ps)
    && children == RenderAll(g, ps)
    && visited == seen + ToSet(OrderAll(ps))
  }

  lemma ProgressStart(g: Graph, f: Name, rs: seq<Record>, seen: set<Name>)
    requires Closed(g) && f in g
    ensures Progress(g, f, Calls(rs[..0]), seen, [], [], seen) && KidEdges(f, []) == []
  {
    hide CallsOf, Unfold, UnfoldAll, Reaches, IsPath;
    assert Calls([]) == [] && DfsAll(g, [], seen) == [];
  }

  lemma StoredFirst(g: Graph, f: Name, base: map<Name, FunctionMeta>)
    requires f in g
    ensures base[f := g[f].meta] == Stored(base, g, {f} + NamesAll([]))
  {
    assert Metas(g, {f}) == map[f := g[f].meta];
  }

  lemma ProgressStep(g: Graph, f: Name, cs: seq<Call>, seen: set<Name>, ps: seq<Plan>,
                     children: seq<CallTreeNode>, visited: set<Name>, c: Call)
    requires Closed(g) && c.callee in g && Progress(g, f, cs, seen, ps, children, visited)
    ensures var kid := NextKid(g, c, visited);
            && Conforms(g, kid)
            && Progress(g, f, cs + [c], seen, ps + [kid], children + [Render(g, kid)],
                        visited + ToSet(Order(kid)))
  {
    assert (cs + [c])[..|cs|] == cs;
    var kid := NextKid(g, c, visited);
    assert (ps + [kid])[..|ps|] == ps;
    DfsAllConforms(g, cs + [c], seen);
    OrderAllSnoc(ps, kid);
  }

  lemma WalkDone(g: Graph, f: Name, seen: set<Name>, ps: seq<Plan>, t: CallTreeNode, visited: set<Name>)
    requires Closed(g) && f in g && f in seen
    requires t == EMPTY_NODE.(name := f, children := t.children)
    requires Progress(g, f, CallsOf(g, f), seen, ps, t.children, visited)
    ensures var p := Dfs(g, f, None, seen);
            && Conforms(g, p)
            && t == Render(g, p)
            && visited == seen + ToSet(Order(p))
            && PlanEdges(p) == KidEdges(f, ps)
            && Names(t) == {f} + NamesAll(t.children)
  {
    var p := Dfs(g, f, None, seen);
    assert seen + ToSet([f] + OrderAll(ps)) == seen + ToSet(OrderAll(ps));
  }

  lemma KidEdgesSnoc(base: seq<CallEdge>, f: Name, ps: seq<Plan>, p: Plan)
    ensures base + KidEdges(f, ps + [p]) ==
            if p.site.Some? then base + KidEdges(f, ps) + PlanEdges(p) + [EdgeAt(f, p.fn, p.site.value)]
            else base + KidEdges(f, ps) + PlanEdges(p)
  {
    assert (ps + [p])[..|ps|] == ps;
  }

  class CallGraphWalker {
    const g: Graph

    constructor (g: Graph)
      ensures this.g == g
    {
      this.g := g;
    }

    method ShallowNode(f: Name, maxDepth: nat, st: WalkState) returns (t: CallTreeNode)
      requires Closed(g) && f in g
      modifies st`funcMap
      ensures t == Unfold(g, f, maxDepth)
      ensures st.funcMap == Stored(old(st.funcMap), g, Names(t))
      decreases maxDepth
    {
      hide Stored, NamesAll, UnfoldAll, Calls, KnownCalls, Closed;
      t := EMPTY_NODE.(name := f);
      NoCallsYet(g, g[f].records);
      StoredFirst(g, f, st.funcMap);
      st.funcMap := st.funcMap[f := g[f].meta];
      if maxDepth > 0 {
        var rs := g[f].records;
        for i := 0 to |rs|
          invariant t.name == f && (t.siteFile, t.siteLine, t.siteCol) == ("", 0, 0)
          invariant Calls(rs[..i]) <= Calls(rs)
          invariant KnownCalls(g, Calls(rs[..i]))
          invariant t.children == UnfoldAll(g, Calls(rs[..i]), maxDepth - 1)
          invariant st.funcMap == Stored(old(st.funcMap), g, {f} + NamesAll(t.children))
        {
          ghost var cs := Calls(rs[..i]);
          CallsPrefix(rs, i + 1);
          if rs[i].callee.Some? {
            var c := Call(rs[i].callee.value, rs[i].site);
            assert Calls(rs[..i + 1]) == cs + [c] && c == CallsOf(g, f)[|cs|];
            CalleeKnown(g, f, |cs|);
            UnfoldAllSnoc(g, cs, c, maxDepth - 1);
            var child := ShallowNode(c.callee, maxDepth - 1, st);
            child := WithSite(child, rs[i].site);
            StoredSnoc(old(st.funcMap), g, f, t.children, child);
            t := t.(children := t.children + [child]);
          }
        }
        assert rs[..|rs|] == rs;
      }
    }

    method WalkNode(f: Name, depth: nat, st: WalkState) returns (t: CallTreeNode)
      requires Closed(g) && f in g && f in st.visited
      modifies st
      ensures var p := Dfs(g, f, None, old(st.visited));
              && Conforms(g, p)
              && t == Render(g, p)
              && st.visited == old(st.visited) + ToSet(Order(p))
              && st.funcMap == Stored(old(st.funcMap), g, Names(t))
              && st.edges == old(st.edges) + PlanEdges(p)
      decreases g.Keys - st.visited, 1
    {
      hide Stored, Names, Unfold, Calls, Closed, KnownCalls, KidEdges, NextKid, Progress, Dfs, Render, Conforms,
           Order, PlanEdges;
      t := EMPTY_NODE.(name := f);
      ProgressStart(g, f, g[f].records, st.visited);
      StoredFirst(g, f, st.funcMap);
      st.funcMap := st.funcMap[f := g[f].meta];
      var rs := g[f].records;
      ghost var ps := [];
      for i := 0 to |rs|
        invariant t.name == f && (t.siteFile, t.siteLine, t.siteCol) == ("", 0, 0)
        invariant Calls(rs[..i]) <= Calls(rs)
        invariant Progress(g, f, Calls(rs[..i]), old(st.visited), ps, t.children, st.visited)
        invariant old(st.visited) <= st.visited
        invariant st.funcMap == Stored(old(st.funcMap), g, {f} + NamesAll(t.children))
        invariant st.edges == old(st.edges) + KidEdges(f, ps)
      {
        ghost var cs := Calls(rs[..i]);
        CallsPrefix(rs, i + 1);
        if rs[i].callee.Some? {
          var c := Call(rs[i].callee.value, rs[i].site);
          assert Calls(rs[..i + 1]) == cs + [c] && c == CallsOf(g, f)[|cs|];
          CalleeKnown(g, f, |cs|);
          ghost var kid := NextKid(g, c, st.visited);
          ProgressStep(g, f, cs, old(st.visited), ps, t.children, st.visited, c);
          KidEdgesSnoc(old(st.edges), f, ps, kid);

          var child := VisitCallee(c.callee, depth, st, rs[i].site);
          if rs[i].site.Some? {
            var loc := rs[i].site.value;
            child := child.(siteFile := loc.file, siteLine := loc.line, siteCol := loc.col);
            st.edges := st.edges + [CallEdge(f, c.callee, loc.file, loc.line, loc.col, loc.indirect)];
          }
          assert child == Render(g, kid);
          StoredSnoc(old(st.funcMap), g, f, t.children, child);
          t := t.(children := t.children + [child]);
          ps := ps + [kid];
        }
      }
      assert rs[..|rs|] == rs;
      WalkDone(g, f, old(st.visited), ps, t, st.visited);
    }

    /** Walks a callee on its first visit and cuts it on later ones. */
    method VisitCallee(callee: Name, depth: nat, st: WalkState, ghost site: Option<Site>)
      returns (child: CallTreeNode)
      requires Closed(g) && callee in g
      modifies st
      ensures var kid := NextKid(g, Call(callee, site), old(st.visited));
              && Conforms(g, kid)
              && WithSite(child, site) == Render(g, kid)
              && st.visited == old(st.visited) + ToSet(Order(kid))
              && st.funcMap == Stored(old(st.funcMap), g, Names(Render(g, kid)))
              && st.edges == old(st.edges) + PlanEdges(kid)
      decreases g.Keys - st.visited, 0
    {
      hide Stored, Names, Unfold, KnownCalls, NextKid, Dfs, Order, PlanEdges;
      ghost var c := Call(callee, site);
      var firstVisit := callee !in st.visited;
      if firstVisit {
        FirstVisit(g, c, st.visited);
        st.visited := st.visited + {callee};
        child := WalkNode(callee, depth + 1, st);
      } else {
        LaterVisit(g, c, st.visited);
        st.visited := st.visited + {callee};
        child := ShallowNode(callee, 3, st);
      }
    }

    method Walk(entry: Name) returns (r: WalkResult)
      requires Closed(g)
      ensures entry !in g ==> r == WalkResult(EMPTY_NODE, map[], [])
      ensures entry in g ==>
                var p := Dfs(g, entry, None, {entry});
                && Conforms(g, p)
                && r == WalkResult(Render(g, p), Metas(g, Reachable(g, entry)), PlanEdges(p))
    {
      if entry !in g {
        return WalkResult(EMPTY_NODE, map[], []);
      }
      var st := new WalkState(entry);
      var root := WalkNode(entry, 0, st);
      VisitsReachable(g, entry);
      r := WalkResult(root, st.funcMap, st.edges);
    }
  }
}
