/**
 * What a walk produces, as values: the depth-first plan that says which nodes of the tree are
 * expanded in full and which are cut, the tree drawn from it, and the edges it emits.
 */
module WalkSpec {
  import opened Common
  import opened CallGraph

  datatype CallTreeNode = CallTreeNode(name: Name, siteFile: string, siteLine: nat, siteCol: nat,
                                       children: seq<CallTreeNode>)

  datatype CallEdge = CallEdge(caller: Name, callee: Name, siteFile: string, siteLine: nat,
                               siteCol: nat, isIndirect: bool)

  function WithSite(t: CallTreeNode, site: Option<Site>): CallTreeNode {
    match site
    case None => t
    case Some(s) => t.(siteFile := s.file, siteLine := s.line, siteCol := s.col)
  }

  function EdgeAt(caller: Name, callee: Name, s: Site): CallEdge {
    CallEdge(caller, callee, s.file, s.line, s.col, s.indirect)
  }

  // ---- The unfolding of the graph below a function, truncated at a height ----

  function Unfold(g: Graph, f: Name, height: nat): CallTreeNode
    requires Closed(g) && f in g
    decreases height, 0
  {
    CallTreeNode(f, "", 0, 0, if height == 0 then [] else UnfoldAll(g, CallsOf(g, f), height - 1))
  }

  function UnfoldAll(g: Graph, cs: seq<Call>, height: nat): (ts: seq<CallTreeNode>)
    requires Closed(g) && KnownCalls(g, cs)
    ensures |ts| == |cs|
    decreases height, |cs| + 1
  {
    if cs == [] then [] else
    var c := cs[|cs| - 1];
    UnfoldAll(g, cs[..|cs| - 1], height) + [WithSite(Unfold(g, c.callee, height), c.site)]
  }

  // ---- Plans ----

  /** A node of the walk: expanded in full, or cut because its function was visited before. */
  datatype Plan =
    | Walked(fn: Name, site: Option<Site>, kids: seq<Plan>)
    | Cut(fn: Name, site: Option<Site>)

  /** The functions expanded in full, in visiting order. */
  function Order(p: Plan): seq<Name>
    decreases p, 0
  {
    match p
    case Cut(_, _) => []
    case Walked(f, _, kids) => [f] + OrderAll(kids)
  }

  function OrderAll(ps: seq<Plan>): seq<Name>
    decreases ps, 1
  {
    if ps == [] then [] else OrderAll(ps[..|ps| - 1]) + Order(ps[|ps| - 1])
  }

  /** How many nodes of the plan are cut. */
  function Cuts(p: Plan): nat
    decreases p, 0
  {
    match p
    case Cut(_, _) => 1
    case Walked(_, _, kids) => CutsAll(kids)
  }

  function CutsAll(ps: seq<Plan>): nat
    decreases ps, 1
  {
    if ps == [] then 0 else CutsAll(ps[..|ps| - 1]) + Cuts(ps[|ps| - 1])
  }

  /** The plan follows the graph: a full node's kids are its function's calls, in record order. */
  ghost predicate Conforms(g: Graph, p: Plan)
    decreases p, 0
  {
    p.fn in g && (p.Walked? ==> Matches(CallsOf(g, p.fn), p.kids) && AllConform(g, p.kids))
  }

  ghost predicate AllConform(g: Graph, ps: seq<Plan>)
    decreases ps, 1
  {
    ps == [] || (AllConform(g, ps[..|ps| - 1]) && Conforms(g, ps[|ps| - 1]))
  }

  ghost predicate Matches(cs: seq<Call>, ps: seq<Plan>) {
    |ps| == |cs| && forall i :: 0 <= i < |cs| ==> ps[i].fn == cs[i].callee && ps[i].site == cs[i].site
  }

  const CUT_HEIGHT: nat := 3

  /** The tree a plan stands for: a cut node is an unfolding of the graph of height three. */
  ghost function Render(g: Graph, p: Plan): CallTreeNode
    requires Closed(g) && Conforms(g, p)
    decreases p, 0
  {
    match p
    case Cut(f, site) => WithSite(Unfold(g, f, CUT_HEIGHT), site)
    case Walked(f, site, kids) => WithSite(CallTreeNode(f, "", 0, 0, RenderAll(g, kids)), site)
  }

  ghost function RenderAll(g: Graph, ps: seq<Plan>): (ts: seq<CallTreeNode>)
    requires Closed(g) && AllConform(g, ps)
    ensures |ts| == |ps|
    decreases ps, 1
  {
    if ps == [] then [] else RenderAll(g, ps[..|ps| - 1]) + [Render(g, ps[|ps| - 1])]
  }

  /** The edges a plan emits: each located call after everything its callee's walk emitted. */
  function PlanEdges(p: Plan): seq<CallEdge>
    decreases p, 0
  {
    match p
    case Cut(_, _) => []
    case Walked(f, _, kids) => KidEdges(f, kids)
  }

  function KidEdges(caller: Name, ps: seq<Plan>): seq<CallEdge>
    decreases ps, 1
  {
    if ps == [] then [] else
    var p := ps[|ps| - 1];
    KidEdges(caller, ps[..|ps| - 1]) + PlanEdges(p) +
    if p.site.Some? then [EdgeAt(caller, p.fn, p.site.value)] else []
  }

  // ---- The depth-first plan ----

  /** The walk from `f`, where `seen` are the functions visited so far, `f` among them. */
  function Dfs(g: Graph, f: Name, site: Option<Site>, seen: set<Name>): (p: Plan)
    requires Closed(g) && f in g
    ensures p.fn == f && p.site == site && p.Walked?
    decreases g.Keys - seen, 1
  {
    Walked(f, site, DfsAll(g, CallsOf(g, f), seen))
  }

  /** The walk through calls in order, each one knowing what the ones before it visited. */
  function DfsAll(g: Graph, cs: seq<Call>, seen: set<Name>): (ps: seq<Plan>)
    requires Closed(g) && KnownCalls(g, cs)
    ensures Matches(cs, ps)
    decreases g.Keys - seen, 0, |cs|
  {
    if cs == [] then [] else
    var front, c := DfsAll(g, cs[..|cs| - 1], seen), cs[|cs| - 1];
    var now := seen + ToSet(OrderAll(front));
    if c.callee in now then
      front + [Cut(c.callee, c.site)]
    else
      assert c.callee in (g.Keys - seen) && c.callee !in g.Keys - (now + {c.callee});
      front + [Dfs(g, c.callee, c.site, now + {c.callee})]
  }
}
