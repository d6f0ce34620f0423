/**
 * The introspection report: merging the walks of several entry points, turning coverage segments
 * into a line table, and writing that table's counts onto the nodes of the call trees.
 */
module Introspect {
  import opened Common
  import opened CallGraph
  import opened WalkSpec
  import opened WalkProperties
  import opened CallGraphWalker
  import opened WalkTheorems

  // ---- Moving source directories from the original tree to the coverage tree ----

  function RewriteDir(orig: string, cov: string, dir: string): string {
    if orig + "/" <= dir || dir == orig then cov + dir[|orig|..] else dir
  }

  predicate Inside(dir: string, tree: string) {
    tree + "/" <= dir
  }

  /** The original tree and everything below it moves; any other directory stays, whatever its name begins with. */
  lemma RewriteMoves(orig: string, cov: string, dir: string)
    ensures RewriteDir(orig, cov, orig) == cov
    ensures RewriteDir(orig, cov, orig + "/" + dir) == cov + "/" + dir
    ensures dir != orig && !Inside(dir, orig) ==> RewriteDir(orig, cov, dir) == dir
  {
    var below := orig + "/" + dir;
    assert below[..|orig| + 1] == orig + "/";
    assert below[|orig|..] == "/" + dir;
    assert orig[|orig|..] == "";
  }

  /**
   * Rewriting twice changes nothing more, whatever the directory, exactly if neither tree lies inside
   * the other.
   */
  lemma RewriteIdempotentIff(orig: string, cov: string)
    ensures (forall dir :: var r := RewriteDir(orig, cov, dir); RewriteDir(orig, cov, r) == r) <==>
            !Inside(cov, orig) && !Inside(orig, cov)
  {
    if Inside(cov, orig) {
      CoverageInside(orig, cov);
    } else if Inside(orig, cov) {
      OriginalInside(orig, cov);
    } else {
      forall dir
        ensures var r := RewriteDir(orig, cov, dir); RewriteDir(orig, cov, r) == r
      {
        RewriteLeaves(orig, cov, dir);
      }
    }
  }

  lemma CoverageInside(orig: string, cov: string)
    requires Inside(cov, orig)
    ensures var r := RewriteDir(orig, cov, orig); RewriteDir(orig, cov, r) != r
  {
    var r := RewriteDir(orig, cov, orig);
    assert r == cov;
    assert |RewriteDir(orig, cov, r)| == |cov| + (|cov| - |orig|);
  }

  lemma OriginalInside(orig: string, cov: string)
    requires Inside(orig, cov)
    ensures var r := RewriteDir(orig, cov, orig + orig[|cov|..]); RewriteDir(orig, cov, r) != r
  {
    var dir := orig + orig[|cov|..];
    assert orig[|cov|] == '/';
    assert dir[..|orig| + 1] == orig + "/";
    assert RewriteDir(orig, cov, dir) == cov + orig[|cov|..] == orig;
    assert RewriteDir(orig, cov, orig) == cov + orig[|orig|..] == cov;
  }

  lemma RewriteLeaves(orig: string, cov: string, dir: string)
    requires !Inside(cov, orig) && !Inside(orig, cov)
    ensures var r := RewriteDir(orig, cov, dir); RewriteDir(orig, cov, r) == r
  {
    var r := RewriteDir(orig, cov, dir);
    if Inside(dir, orig) || dir == orig {
      var tail := dir[|orig|..];
      assert tail == "" || tail[0] == '/' by {
        if Inside(dir, orig) {
          assert dir[|orig|] == (orig + "/")[|orig|];
        }
      }
      if Inside(r, orig) || r == orig {
        InBothTrees(orig, cov, tail);
      }
    }
  }

  /** A directory of both trees, moved there or not, puts one tree inside the other or makes them one. */
  lemma InBothTrees(orig: string, cov: string, tail: string)
    requires tail == "" || tail[0] == '/'
    requires Inside(cov + tail, orig) || cov + tail == orig
    ensures Inside(orig, cov) || Inside(cov, orig) || cov == orig
  {
    var r := cov + tail;
    if |cov| < |orig| {
      assert orig[..|cov|] == r[..|orig|][..|cov|] == cov;
      assert orig[|cov|] == r[|cov|] == '/';
      assert orig[..|cov| + 1] == cov + "/";
    } else if |orig| < |cov| {
      assert cov[..|orig| + 1] == r[..|orig| + 1] == orig + "/";
    } else {
      assert r[..|orig|] == cov;
    }
  }

  function RewriteMeta(orig: string, cov: string, m: FunctionMeta): FunctionMeta {
    m.(sourceDir := RewriteDir(orig, cov, m.sourceDir))
  }

  // ---- Merging the walks ----

  datatype EdgeKey = EdgeKey(caller: Name, callee: Name, siteFile: string, siteLine: nat)

  function KeyOf(e: CallEdge): EdgeKey {
    EdgeKey(e.caller, e.callee, e.siteFile, e.siteLine)
  }

  /** The edges of the walks, one after the other. */
  function AllEdges(rs: seq<WalkResult>): seq<CallEdge> {
    if rs == [] then [] else AllEdges(rs[..|rs| - 1]) + rs[|rs| - 1].edges
  }

  function EdgeTotal(rs: seq<WalkResult>): nat {
    if rs == [] then 0 else EdgeTotal(rs[..|rs| - 1]) + |rs[|rs| - 1].edges|
  }

  /** The k-th walk's edges come after those of the walks before it. */
  lemma {:induction false} AllEdgesInOrder(rs: seq<WalkResult>, k: nat)
    requires k < |rs|
    ensures var n := EdgeTotal(rs[..k]);
            |AllEdges(rs)| == EdgeTotal(rs) >= n + |rs[k].edges| && AllEdges(rs)[n..n + |rs[k].edges|] == rs[k].edges
  {
    var front, last := rs[..|rs| - 1], rs[|rs| - 1].edges;
    EdgeTotalIsSize(front);
    if k < |front| {
      AllEdgesInOrder(front, k);
      assert front[..k] == rs[..k];
      var n, m := EdgeTotal(rs[..k]), |rs[k].edges|;
      assert (AllEdges(front) + last)[n..n + m] == AllEdges(front)[n..n + m];
    }
  }

  lemma {:induction false} EdgeTotalIsSize(rs: seq<WalkResult>)
    ensures |AllEdges(rs)| == EdgeTotal(rs)
  {
    if rs != [] {
      EdgeTotalIsSize(rs[..|rs| - 1]);
    }
  }

  function Keys(es: seq<CallEdge>): set<EdgeKey> {
    set e | e in es :: KeyOf(e)
  }

  /** The edges whose key did not occur before them. */
  function Dedup(all: seq<CallEdge>): seq<CallEdge> {
    if all == [] then [] else
    var front, e := all[..|all| - 1], all[|all| - 1];
    if KeyOf(e) in Keys(front) then Dedup(front) else Dedup(front) + [e]
  }

  lemma DedupSnoc(all: seq<CallEdge>, e: CallEdge)
    ensures Dedup(all + [e]) == if KeyOf(e) in Keys(all) then Dedup(all) else Dedup(all) + [e]
    ensures Keys(all + [e]) == Keys(all) + {KeyOf(e)}
  {
    assert (all + [e])[..|all|] == all;
    assert forall x :: x in all + [e] <==> x in all || x == e;
  }

  /** The report takes two edges for one. */
  predicate SameCall(a: CallEdge, b: CallEdge) {
    a.caller == b.caller && a.callee == b.callee && a.siteFile == b.siteFile && a.siteLine == b.siteLine
  }

  /** Of each call the first edge is kept, and nothing else, in order. */
  lemma {:induction false} DedupSelects(all: seq<CallEdge>)
    ensures Firsts(all, SameCall, Dedup(all))
  {
    if all == [] {
      FirstsOfNone(SameCall);
    } else {
      hide Firsts;
      var front, e := all[..|all| - 1], all[|all| - 1];
      DedupSelects(front);
      SplitLast(all);
      FirstsSnoc(front, SameCall, Dedup(front), e);
      LastIsFirst(front, SameCall, e);
      SameCallIsKey(front, e);
    }
  }

  lemma SameCallIsKey(all: seq<CallEdge>, e: CallEdge)
    ensures KeyOf(e) in Keys(all) <==> exists d :: d in all && SameCall(d, e)
  {
  }

  /** Such edges are of pairwise different calls, and of each call there is one. */
  lemma KeptAreFirst(all: seq<CallEdge>, kept: seq<CallEdge>)
    requires Firsts(all, SameCall, kept)
    ensures NoneTwice(kept)
    ensures forall e :: e in all ==> Covered(kept, e)
    ensures forall m :: m in kept ==> m in all
  {
    var at: seq<nat> :| FirstsAt(all, SameCall, kept, at);
    forall k, l | 0 <= k < l < |kept|
      ensures !SameCall(kept[k], kept[l])
    {
      assert at[l] in at && IsFirst(all, SameCall, at[l]);
    }
    forall e | e in all
      ensures Covered(kept, e)
    {
      var i: nat :| i < |all| && all[i] == e;
      var f := FirstOf(all, i);
      var k: nat :| k < |at| && at[k] == f;
      assert kept[k] in kept && SameCall(kept[k], e);
    }
  }

  /** The first edge of the same call. */
  ghost function FirstOf(all: seq<CallEdge>, i: nat): (f: nat)
    requires i < |all|
    ensures IsFirst(all, SameCall, f) && SameCall(all[f], all[i])
  {
    if j: nat :| j < i && SameCall(all[j], all[i]) then FirstOf(all, j) else i
  }

  ghost predicate InSomeWalk(rs: seq<WalkResult>, e: CallEdge) {
    exists i :: 0 <= i < |rs| && e in rs[i].edges
  }

  ghost predicate Covered(edges: seq<CallEdge>, e: CallEdge) {
    exists m :: m in edges && SameCall(m, e)
  }

  ghost predicate NoneTwice(edges: seq<CallEdge>) {
    forall k, l :: 0 <= k < l < |edges| ==> !SameCall(edges[k], edges[l])
  }

  /** The walks' edges as the report has them: one of each call, and nothing that is in no walk. */
  ghost predicate MergedEdges(rs: seq<WalkResult>, edges: seq<CallEdge>) {
    && NoneTwice(edges)
    && (forall e :: InSomeWalk(rs, e) ==> Covered(edges, e))
    && (forall m :: m in edges ==> InSomeWalk(rs, m))
  }

  lemma DedupMerges(rs: seq<WalkResult>)
    ensures MergedEdges(rs, Dedup(AllEdges(rs)))
  {
    hide Dedup, AllEdges, SameCall, Firsts, InSomeWalk, Covered, NoneTwice;
    var all := AllEdges(rs);
    DedupSelects(all);
    KeptAreFirst(all, Dedup(all));
    forall e
      ensures e in all <==> InSomeWalk(rs, e)
    {
      AllEdgesMember(rs, e);
    }
  }

  method MergeWalks(rs: seq<WalkResult>, orig: string, cov: string)
    returns (functions: map<Name, FunctionMeta>, edges: seq<CallEdge>)
    ensures MergedFrom(rs, orig, cov, functions)
    ensures edges == Dedup(AllEdges(rs)) && MergedEdges(rs, edges) && Firsts(AllEdges(rs), SameCall, edges)
  {
    hide MergedEdges, Firsts;
    functions, edges := map[], [];
    var seen: set<EdgeKey> := {};
    for k := 0 to |rs|
      invariant MergedFrom(rs[..k], orig, cov, functions)
      invariant edges == Dedup(AllEdges(rs[..k])) && seen == Keys(AllEdges(rs[..k]))
    {
      ghost var was := functions;
      functions := MergeFunctions(functions, rs[k].functions, orig, cov);
      SplitLast(rs[..k + 1]);
      assert rs[..k + 1][..k] == rs[..k];
      MergedFromSnoc(rs[..k], rs[k], orig, cov, was, functions);
      edges, seen := MergeEdges(AllEdges(rs[..k]), edges, seen, rs[k].edges);
    }
    assert rs[..|rs|] == rs;
    DedupMerges(rs);
    DedupSelects(AllEdges(rs));
  }

  method MergeEdges(ghost before: seq<CallEdge>, merged: seq<CallEdge>, seenBefore: set<EdgeKey>, es: seq<CallEdge>)
    returns (edges: seq<CallEdge>, seen: set<EdgeKey>)
    requires merged == Dedup(before) && seenBefore == Keys(before)
    ensures edges == Dedup(before + es) && seen == Keys(before + es)
  {
    hide Dedup, Keys;
    edges, seen := merged, seenBefore;
    assert before + es[..0] == before;
    for i := 0 to |es|
      invariant edges == Dedup(before + es[..i]) && seen == Keys(before + es[..i])
    {
      assert before + es[..i + 1] == (before + es[..i]) + [es[i]];
      DedupSnoc(before + es[..i], es[i]);
      var key := KeyOf(es[i]);
      if key !in seen {
        seen := seen + {key};
        edges := edges + [es[i]];
      }
    }
    assert es[..|es|] == es;
  }

  /** The first walk that has the function, or their number if none has. */
  function FirstWalk(rs: seq<WalkResult>, f: Name): (k: nat)
    ensures k <= |rs|
    ensures k < |rs| ==> f in rs[k].functions
    ensures forall j :: 0 <= j < k ==> f !in rs[j].functions
  {
    if rs == [] then 0 else
    var last, k := |rs| - 1, FirstWalk(rs[..|rs| - 1], f);
    if k < last then k else if f in rs[last].functions then last else |rs|
  }

  /** `r` holds every function of the walks, with the record of the first walk that has it. */
  ghost predicate MergedFrom(rs: seq<WalkResult>, orig: string, cov: string, r: map<Name, FunctionMeta>) {
    && (forall f :: f in r <==> FirstWalk(rs, f) < |rs|)
    && (forall f :: f in r ==> r[f] == RewriteMeta(orig, cov, rs[FirstWalk(rs, f)].functions[f]))
  }

  /** `r` is `merged` with the functions of `next` that it lacks. */
  ghost predicate MergedOne(merged: map<Name, FunctionMeta>, next: map<Name, FunctionMeta>, orig: string,
                            cov: string, r: map<Name, FunctionMeta>) {
    && (forall f :: f in r <==> f in merged || f in next)
    && (forall f :: f in merged ==> r[f] == merged[f])
    && (forall f :: f in next && f !in merged ==> r[f] == RewriteMeta(orig, cov, next[f]))
  }

  lemma MergedFromSnoc(rs: seq<WalkResult>, next: WalkResult, orig: string, cov: string,
                       was: map<Name, FunctionMeta>, r: map<Name, FunctionMeta>)
    requires MergedFrom(rs, orig, cov, was) && MergedOne(was, next.functions, orig, cov, r)
    ensures MergedFrom(rs + [next], orig, cov, r)
  {
    hide RewriteMeta;
    assert (rs + [next])[..|rs|] == rs;
  }

  method MergeFunctions(merged: map<Name, FunctionMeta>, next: map<Name, FunctionMeta>, orig: string, cov: string)
    returns (r: map<Name, FunctionMeta>)
    ensures MergedOne(merged, next, orig, cov, r)
  {
    hide RewriteMeta;
    r := merged;
    var todo := next.Keys;
    while todo != {}
      invariant todo <= next.Keys
      invariant forall f :: f in r <==> f in merged || (f in next && f !in todo)
      invariant forall f :: f in merged ==> r[f] == merged[f]
      invariant forall f :: f in next && f !in todo && f !in merged ==> r[f] == RewriteMeta(orig, cov, next[f])
      decreases todo
    {
      var f :| f in todo;
      if f !in r {
        r := r[f := RewriteMeta(orig, cov, next[f])];
      }
      todo := todo - {f};
    }
  }

  /** Walks of one graph from several entries: exactly the functions some entry reaches are merged,
      each with its own record, its source directory moved to the coverage tree. */
  lemma MergedWalksTheorem(g: Graph, entries: seq<Name>, rs: seq<WalkResult>, orig: string, cov: string,
                           r: map<Name, FunctionMeta>)
    requires Closed(g) && |rs| == |entries| && MergedFrom(rs, orig, cov, r)
    requires forall i :: 0 <= i < |rs| ==>
               rs[i].functions == if entries[i] in g then Metas(g, Reachable(g, entries[i])) else map[]
    ensures forall f :: f in r <==>
              exists i :: 0 <= i < |entries| && entries[i] in g && f in Reachable(g, entries[i])
    ensures forall f :: f in r ==> f in g && r[f] == g[f].meta.(sourceDir := RewriteDir(orig, cov, g[f].meta.sourceDir))
  {
    hide RewriteDir, Reaches;
    forall f
      ensures f in r <==> exists i :: 0 <= i < |entries| && entries[i] in g && f in Reachable(g, entries[i])
    {
      var k := FirstWalk(rs, f);
      if k < |rs| {
        assert f in rs[k].functions;
        assert entries[k] in g && f in Reachable(g, entries[k]);
      }
      if i :| 0 <= i < |entries| && entries[i] in g && f in Reachable(g, entries[i]) {
        assert f in rs[i].functions;
      }
    }
    forall f | f in r
      ensures f in g && r[f] == g[f].meta.(sourceDir := RewriteDir(orig, cov, g[f].meta.sourceDir))
    {
      var k := FirstWalk(rs, f);
      assert f in rs[k].functions;
      assert rs[k].functions == Metas(g, Reachable(g, entries[k]));
    }
  }

  lemma {:induction false} EdgesFromMember(es: seq<CallEdge>, e: CallEdge)
    ensures e in EdgesFrom(es, e.caller) <==> e in es
  {
    if es != [] {
      EdgesFromMember(es[..|es| - 1], e);
      SplitLast(es);
    }
  }

  lemma {:induction false} AllEdgesMember(rs: seq<WalkResult>, e: CallEdge)
    ensures e in AllEdges(rs) <==> InSomeWalk(rs, e)
  {
    if rs != [] {
      AllEdgesMember(rs[..|rs| - 1], e);
    }
  }

  /** The edge shows a located call of a function the entry reaches, field by field. */
  ghost predicate EntryReaches(g: Graph, entry: Name, e: CallEdge) {
    && entry in g && e.caller in Reachable(g, entry)
    && exists r :: r in g[e.caller].records && ShownBy(r, e)
  }

  ghost predicate ReachedEdge(g: Graph, entries: seq<Name>, e: CallEdge) {
    exists i :: 0 <= i < |entries| && EntryReaches(g, entries[i], e)
  }

  lemma {:induction false} OwnEdgesMember(caller: Name, rs: seq<Record>, e: CallEdge)
    requires e.caller == caller
    ensures e in OwnEdges(caller, Calls(rs)) <==> exists r :: r in rs && ShownBy(r, e)
  {
    if rs != [] {
      hide Calls, ShownBy;
      var front, r := rs[..|rs| - 1], rs[|rs| - 1];
      OwnEdgesMember(caller, front, e);
      SplitLast(rs);
      OwnEdgesRecord(caller, front, r);
      EdgeShows(caller, r, e);
      assert e in OwnEdges(caller, Calls(rs)) <==> e in OwnEdges(caller, Calls(front)) || ShownBy(r, e);
    }
  }

  lemma EdgeShows(caller: Name, r: Record, e: CallEdge)
    requires e.caller == caller
    ensures ShownBy(r, e) <==> LocatedCall(r) && e == EdgeAt(caller, r.callee.value, r.site.value)
  {
  }

  lemma EntryEdges(g: Graph, entry: Name, e: CallEdge)
    requires Closed(g) && entry in g
    ensures e in PlanEdges(Dfs(g, entry, None, {entry})) <==> EntryReaches(g, entry, e)
  {
    hide PlanEdges, Dfs, Reaches, OwnEdges, ShownBy, Calls;
    OwnEdgesTheorem(g, entry, e.caller);
    EdgesFromMember(PlanEdges(Dfs(g, entry, None, {entry})), e);
    if e.caller in Reachable(g, entry) {
      OwnEdgesMember(e.caller, g[e.caller].records, e);
    }
  }

  /**
   * And the merged edges show located calls of those functions, each call's caller, callee, file and
   * line once.
   */
  lemma MergedEdgesTheorem(g: Graph, entries: seq<Name>, rs: seq<WalkResult>, edges: seq<CallEdge>)
    requires Closed(g) && |rs| == |entries| && MergedEdges(rs, edges)
    requires forall i :: 0 <= i < |rs| ==>
               rs[i].edges == if entries[i] in g then PlanEdges(Dfs(g, entries[i], None, {entries[i]})) else []
    ensures forall m :: m in edges ==> ReachedEdge(g, entries, m)
    ensures forall e :: ReachedEdge(g, entries, e) ==> Covered(edges, e)
    ensures NoneTwice(edges)
  {
    hide PlanEdges, Dfs, EntryReaches, Covered, NoneTwice;
    forall i, e | 0 <= i < |rs|
      ensures e in rs[i].edges <==> EntryReaches(g, entries[i], e)
    {
      WalkEdges(g, entries[i], rs[i].edges, e);
    }
  }

  lemma WalkEdges(g: Graph, entry: Name, edges: seq<CallEdge>, e: CallEdge)
    requires Closed(g) && edges == if entry in g then PlanEdges(Dfs(g, entry, None, {entry})) else []
    ensures e in edges <==> EntryReaches(g, entry, e)
  {
    hide PlanEdges, Dfs;
    if entry in g {
      EntryEdges(g, entry, e);
    }
  }

  // ---- Coverage segments to a line table ----

  datatype Segment = Segment(line: nat, col: nat, count: nat, hasCount: bool)

  /** A counted segment covers the lines from its own to the next segment's, both included. */
  predicate Covers(segs: seq<Segment>, i: nat, line: nat)
    requires i < |segs|
  {
    && segs[i].hasCount
    && segs[i].line <= line <= if i + 1 < |segs| then segs[i + 1].line else segs[i].line
  }

  /** The table holds the covered lines, each with the largest count covering it. */
  ghost predicate IsLineTable(segs: seq<Segment>, lines: map<nat, nat>) {
    && (forall i, line :: 0 <= i < |segs| && Covers(segs, i, line) ==> line in lines && segs[i].count <= lines[line])
    && (forall line :: line in lines ==> exists i :: 0 <= i < |segs| && Covers(segs, i, line) && segs[i].count == lines[line])
  }

  method LineTable(segs: seq<Segment>) returns (lines: map<nat, nat>)
    ensures IsLineTable(segs, lines)
  {
    lines := map[];
    for i := 0 to |segs|
      invariant CoversUpTo(segs, i, lines)
    {
      var seg := segs[i];
      if seg.hasCount {
        var end := if i + 1 < |segs| then segs[i + 1].line else seg.line;
        ghost var before := lines;
        lines := RaiseLines(lines, seg.line, end, seg.count);
        CoversMore(segs, i, before, lines);
      }
    }
  }

  /** The table made by the first `n` segments. */
  ghost predicate CoversUpTo(segs: seq<Segment>, n: nat, lines: map<nat, nat>)
    requires n <= |segs|
  {
    && (forall i, line :: 0 <= i < n && Covers(segs, i, line) ==> line in lines && segs[i].count <= lines[line])
    && (forall line :: line in lines ==> exists i :: 0 <= i < n && Covers(segs, i, line) && segs[i].count == lines[line])
  }

  function At(lines: map<nat, nat>, line: nat): nat {
    if line in lines then lines[line] else 0
  }

  /** `r` is `lines` with every line from `first` to `last` raised to at least `count`. */
  ghost predicate Raised(lines: map<nat, nat>, first: nat, last: int, count: nat, r: map<nat, nat>) {
    && (forall l :: l in r <==> l in lines || first <= l <= last)
    && (forall l :: l in r ==> r[l] == if first <= l <= last && At(lines, l) < count then count else At(lines, l))
  }

  method RaiseLines(lines: map<nat, nat>, first: nat, last: nat, count: nat) returns (r: map<nat, nat>)
    ensures Raised(lines, first, last, count, r)
  {
    r := lines;
    for ln := first to if first <= last then last + 1 else first
      invariant Raised(lines, first, ln - 1, count, r)
    {
      var was := At(r, ln);
      r := r[ln := if was < count then count else was];
    }
  }

  lemma CoversMore(segs: seq<Segment>, i: nat, before: map<nat, nat>, lines: map<nat, nat>)
    requires i < |segs| && segs[i].hasCount && CoversUpTo(segs, i, before)
    requires Raised(before, segs[i].line, if i + 1 < |segs| then segs[i + 1].line else segs[i].line, segs[i].count, lines)
    ensures CoversUpTo(segs, i + 1, lines)
  {
  }

  lemma LineTableUnique(segs: seq<Segment>, a: map<nat, nat>, b: map<nat, nat>)
    requires IsLineTable(segs, a) && IsLineTable(segs, b)
    ensures a == b
  {
    forall line | line in a
      ensures line in b && a[line] <= b[line]
    {
      var i :| 0 <= i < |segs| && Covers(segs, i, line) && segs[i].count == a[line];
    }
    forall line | line in b
      ensures line in a && b[line] <= a[line]
    {
      var i :| 0 <= i < |segs| && Covers(segs, i, line) && segs[i].count == b[line];
    }
  }

  datatype CovFile = CovFile(name: string, segs: seq<Segment>)

  type LineCounts = map<string, map<nat, nat>>

  /** The last file with the name and any segments: the one that counts. */
  ghost predicate LastNamed(files: seq<CovFile>, name: string, k: nat) {
    && k < |files| && files[k].name == name && files[k].segs != []
    && forall j :: k < j < |files| && files[j].name == name ==> files[j].segs == []
  }

  ghost predicate IsLineCounts(files: seq<CovFile>, counts: LineCounts) {
    && (forall name :: name in counts <==> exists k :: 0 <= k < |files| && files[k].name == name && files[k].segs != [])
    && forall name, k: nat :: name in counts && LastNamed(files, name, k) ==> IsLineTable(files[k].segs, counts[name])
  }

  method CountLines(files: seq<CovFile>) returns (counts: LineCounts)
    ensures IsLineCounts(files, counts)
  {
    hide IsLineTable, IsLineCounts;
    counts := map[];
    NoCountsYet();
    for k := 0 to |files|
      invariant IsLineCounts(files[..k], counts)
    {
      assert files[..k + 1] == files[..k] + [files[k]];
      ghost var before := counts;
      if files[k].segs != [] {
        var lines := LineTable(files[k].segs);
        counts := counts[files[k].name := lines];
      }
      CountsSnoc(files[..k], files[k], before, counts);
    }
    assert files[..|files|] == files;
  }

  lemma NoCountsYet()
    ensures IsLineCounts([], map[])
  {
  }

  lemma CountsSnoc(files: seq<CovFile>, f: CovFile, before: LineCounts, counts: LineCounts)
    requires IsLineCounts(files, before)
    requires f.segs == [] ==> counts == before
    requires f.segs != [] ==> f.name in counts && counts == before[f.name := counts[f.name]] && IsLineTable(f.segs, counts[f.name])
    ensures IsLineCounts(files + [f], counts)
  {
    hide IsLineTable;
    var all := files + [f];
    forall name
      ensures name in counts <==> exists k :: 0 <= k < |all| && all[k].name == name && all[k].segs != []
    {
      if name in before {
        var k :| 0 <= k < |files| && files[k].name == name && files[k].segs != [];
        assert all[k] == files[k];
      }
      assert all[|files|] == f;
    }
    forall name, k: nat | name in counts && LastNamed(all, name, k)
      ensures IsLineTable(all[k].segs, counts[name])
    {
      assert all[|files|] == f;
      if k < |files| {
        assert LastNamed(files, name, k) by {
          assert forall j :: 0 <= j < |files| ==> all[j] == files[j];
        }
      }
    }
  }

  /** Of a name with segments some file is the last. */
  lemma {:induction false} SomeLast(files: seq<CovFile>, name: string, k: nat)
    requires k < |files| && files[k].name == name && files[k].segs != []
    ensures exists l: nat :: LastNamed(files, name, l)
    decreases |files| - k
  {
    if j: nat :| k < j < |files| && files[j].name == name && files[j].segs != [] {
      SomeLast(files, name, j);
    } else {
      assert LastNamed(files, name, k);
    }
  }

  // ---- Counts on the call tree ----

  /** What annotation looks things up in. */
  datatype Coverage = Coverage(functions: map<Name, FunctionMeta>, counts: LineCounts)

  function StripSlashes(dir: string): (r: string)
    ensures r <= dir && (r == "" || r[|r| - 1] != '/')
    ensures forall i :: |r| <= i < |dir| ==> dir[i] == '/'
  {
    if dir == "" || dir[|dir| - 1] != '/' then dir else StripSlashes(dir[..|dir| - 1])
  }

  const NO_COUNT: int := -1

  function SiteCount(cov: Coverage, parent: Option<Name>, siteFile: string, siteLine: nat): int {
    if siteFile == "" || siteLine == 0 || parent == None || parent == Some("") then NO_COUNT else
    var dir := if parent.value in cov.functions then cov.functions[parent.value].sourceDir else "";
    if dir == "" then NO_COUNT else
    var path := StripSlashes(dir) + "/" + siteFile;
    if path in cov.counts && siteLine in cov.counts[path] then cov.counts[path][siteLine] else NO_COUNT
  }

  /** The node has a call site, and its parent is a function whose source directory is known. */
  predicate Located(cov: Coverage, parent: Option<Name>, siteFile: string, siteLine: nat) {
    && siteFile != "" && siteLine != 0
    && parent.Some? && parent.value != "" && parent.value in cov.functions
    && cov.functions[parent.value].sourceDir != ""
  }

  /** The largest count of the segments that cover the line, if any does. */
  ghost predicate IsCount(segs: seq<Segment>, line: nat, c: int) {
    && (c == -1 <==> forall i :: 0 <= i < |segs| ==> !Covers(segs, i, line))
    && (forall i :: 0 <= i < |segs| && Covers(segs, i, line) ==> segs[i].count <= c)
    && (c != -1 ==> exists i :: 0 <= i < |segs| && Covers(segs, i, line) && segs[i].count == c)
  }

  /** The count of a line of the last file with the path and any segments; none if there is no such file. */
  ghost predicate FileCount(files: seq<CovFile>, path: string, line: nat, c: int) {
    && (forall k: nat :: LastNamed(files, path, k) ==> IsCount(files[k].segs, line, c))
    && (c != -1 ==> exists k: nat :: LastNamed(files, path, k))
  }

  /**
   * A located call site's count is the largest count of all the segments of its file, the last one of
   * that name with any, that cover its line, and there is none exactly if no segment does; any other
   * node has no count.
   */
  lemma SiteCountTheorem(files: seq<CovFile>, cov: Coverage, parent: Option<Name>, siteFile: string, siteLine: nat)
    requires IsLineCounts(files, cov.counts)
    ensures var c := SiteCount(cov, parent, siteFile, siteLine);
            if !Located(cov, parent, siteFile, siteLine) then c == NO_COUNT else
            FileCount(files, StripSlashes(cov.functions[parent.value].sourceDir) + "/" + siteFile, siteLine, c)
  {
    hide StripSlashes, IsLineCounts, FileCount;
    if Located(cov, parent, siteFile, siteLine) {
      LookUp(files, cov.counts, StripSlashes(cov.functions[parent.value].sourceDir) + "/" + siteFile, siteLine);
    }
  }

  lemma LookUp(files: seq<CovFile>, counts: LineCounts, path: string, line: nat)
    requires IsLineCounts(files, counts)
    ensures FileCount(files, path, line, if path in counts && line in counts[path] then counts[path][line] else NO_COUNT)
  {
    hide IsLineTable, IsCount, LastNamed;
    forall k: nat | LastNamed(files, path, k)
      ensures k < |files| && path in counts &&
              IsCount(files[k].segs, line, if line in counts[path] then counts[path][line] else NO_COUNT)
    {
      LastIsNamed(files, path, k);
      CountOf(files[k].segs, counts[path], line);
    }
    if path in counts {
      var i: nat :| i < |files| && files[i].name == path && files[i].segs != [];
      SomeLast(files, path, i);
    }
  }

  lemma LastIsNamed(files: seq<CovFile>, name: string, k: nat)
    ensures LastNamed(files, name, k) ==> k < |files| && files[k].name == name && files[k].segs != []
  {
  }

  /** Looking a line up in a table. */
  lemma CountOf(segs: seq<Segment>, lines: map<nat, nat>, line: nat)
    requires IsLineTable(segs, lines)
    ensures IsCount(segs, line, if line in lines then lines[line] else NO_COUNT)
  {
    hide Covers;
    if line in lines {
      var i :| 0 <= i < |segs| && Covers(segs, i, line) && segs[i].count == lines[line];
    }
  }

  /** A node of a loaded call tree: everything but its count is fixed. */
  class TreeNode {
    const name: Name
    const siteFile: string
    const siteLine: nat
    const children: seq<TreeNode>
    var siteCount: int
    ghost const repr: set<TreeNode>

    /** The nodes below are a tree: no node occurs twice. */
    ghost predicate Valid()
      decreases repr
    {
      && this in repr
      && (forall i :: 0 <= i < |children| ==>
            children[i].repr <= repr - {this} && children[i] in children[i].repr && children[i].Valid())
      && (forall i, j :: 0 <= i < j < |children| ==> children[i].repr !! children[j].repr)
    }

    constructor (name: Name, siteFile: string, siteLine: nat, children: seq<TreeNode>)
      requires forall i :: 0 <= i < |children| ==> children[i].Valid()
      requires forall i, j :: 0 <= i < j < |children| ==> children[i].repr !! children[j].repr
      ensures Valid() && fresh(repr - NodesOf(children))
      ensures (this.name, this.siteFile, this.siteLine, this.children) == (name, siteFile, siteLine, children)
    {
      this.name, this.siteFile, this.siteLine, this.children := name, siteFile, siteLine, children;
      siteCount := NO_COUNT;
      repr := {this} + NodesOf(children);
      new;
      hide NodesOf;
      forall i | 0 <= i < |children|
        ensures children[i].repr <= repr - {this} && children[i] in children[i].repr
      {
        assert children[i].Valid();
      }
    }

    /** The nodes of some trees. */
    static ghost function NodesOf(trees: seq<TreeNode>): (r: set<TreeNode>)
      ensures forall i :: 0 <= i < |trees| ==> trees[i].repr <= r
    {
      set i, n | 0 <= i < |trees| && n in trees[i].repr :: n
    }

    /** Every node at or below this one carries the count of its own call site. */
    ghost predicate Annotated(cov: Coverage, parent: Option<Name>)
      requires Valid()
      reads repr
      decreases repr
    {
      && siteCount == SiteCount(cov, parent, siteFile, siteLine)
      && forall i :: 0 <= i < |children| ==> children[i].Annotated(cov, Some(name))
    }

    method Annotate(cov: Coverage, parent: Option<Name>)
      requires Valid()
      modifies repr
      ensures Annotated(cov, parent)
      decreases repr
    {
      hide SiteCount;
      siteCount := SiteCount(cov, parent, siteFile, siteLine);
      for i := 0 to |children|
        invariant siteCount == SiteCount(cov, parent, siteFile, siteLine)
        invariant forall j :: 0 <= j < i ==> children[j].Annotated(cov, Some(name))
      {
        children[i].Annotate(cov, Some(name));
      }
    }
  }
}
