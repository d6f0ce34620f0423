/**
 * Depth-limited expansion of a grammar with a source of choices, and the loop that collects
 * distinct seeds. The grammar's own derivation relation says what an expansion may be.
 */
module Grammar {
  import opened Common

  /** Each non-terminal's productions; every other token is a terminal. */
  type Grammar = map<string, seq<seq<string>>>

  type Form = seq<string>

  /** The tokens an expansion ends in, the text they spell, and how many choices it has used. */
  datatype Expansion = Expansion(form: Form, text: string, next: nat)

  const START := "<A>"

  predicate IsTerminal(g: Grammar, token: string) {
    token !in g
  }

  predicate AllTerminal(g: Grammar, form: Form) {
    forall t :: t in form ==> IsTerminal(g, t)
  }

  function Join(ss: seq<string>): string {
    if ss == [] then "" else Join(ss[..|ss| - 1]) + ss[|ss| - 1]
  }

  // ---- Derivation ----

  /** One non-terminal replaced by one of its productions. */
  ghost predicate Rewrites(g: Grammar, a: Form, b: Form) {
    exists i: nat, p :: Replaces(g, a, b, i, p)
  }

  ghost predicate Replaces(g: Grammar, a: Form, b: Form, i: nat, p: Form) {
    i < |a| && a[i] in g && p in g[a[i]] && b == a[..i] + p + a[i + 1..]
  }

  ghost predicate DerivesIn(g: Grammar, a: Form, b: Form, n: nat)
    decreases n
  {
    if n == 0 then a == b else exists m :: Rewrites(g, a, m) && DerivesIn(g, m, b, n - 1)
  }

  ghost predicate Derives(g: Grammar, a: Form, b: Form) {
    exists n: nat :: DerivesIn(g, a, b, n)
  }

  lemma RewritesInContext(g: Grammar, x: Form, a: Form, b: Form, y: Form)
    requires Rewrites(g, a, b)
    ensures Rewrites(g, x + a + y, x + b + y)
  {
    var i: nat, p :| Replaces(g, a, b, i, p);
    var c := x + a + y;
    assert c[|x| + i] == a[i];
    assert c[..|x| + i] == x + a[..i] && c[|x| + i + 1..] == a[i + 1..] + y;
    assert x + b + y == c[..|x| + i] + p + c[|x| + i + 1..];
    assert Replaces(g, c, x + b + y, |x| + i, p);
  }

  lemma {:induction false} DerivesInContext(g: Grammar, x: Form, a: Form, b: Form, y: Form, n: nat)
    requires DerivesIn(g, a, b, n)
    ensures DerivesIn(g, x + a + y, x + b + y, n)
    decreases n
  {
    hide Rewrites;
    if n > 0 {
      var m :| Rewrites(g, a, m) && DerivesIn(g, m, b, n - 1);
      RewritesInContext(g, x, a, m, y);
      DerivesInContext(g, x, m, b, y, n - 1);
    }
  }

  lemma {:induction false} DerivesTransitive(g: Grammar, a: Form, b: Form, c: Form, n: nat)
    requires DerivesIn(g, a, b, n) && Derives(g, b, c)
    ensures Derives(g, a, c)
    decreases n
  {
    hide Rewrites;
    if n > 0 {
      var m :| Rewrites(g, a, m) && DerivesIn(g, m, b, n - 1);
      DerivesTransitive(g, m, b, c, n - 1);
      var k: nat :| DerivesIn(g, m, c, k);
      assert DerivesIn(g, a, c, k + 1);
    }
  }

  lemma DerivesNothing(g: Grammar, a: Form)
    ensures Derives(g, a, a)
  {
    assert DerivesIn(g, a, a, 0);
  }

  lemma DerivesSideBySide(g: Grammar, a: Form, b: Form, c: Form, d: Form)
    requires Derives(g, a, b) && Derives(g, c, d)
    ensures Derives(g, a + c, b + d)
  {
    hide DerivesIn;
    var n: nat :| DerivesIn(g, a, b, n);
    var k: nat :| DerivesIn(g, c, d, k);
    DerivesInContext(g, [], a, b, c, n);
    DerivesInContext(g, b, c, d, [], k);
    assert [] + a + c == a + c && [] + b + c == b + c;
    assert b + c + [] == b + c && b + d + [] == b + d;
    DerivesTransitive(g, a + c, b + c, b + d, n);
  }

  lemma DerivesByProduction(g: Grammar, s: string, p: Form, b: Form)
    requires s in g && p in g[s] && Derives(g, p, b)
    ensures Derives(g, [s], b)
  {
    assert p == [s][..0] + p + [s][1..];
    assert Replaces(g, [s], p, 0, p);
    assert Rewrites(g, [s], p);
    hide Rewrites;
    assert DerivesIn(g, p, p, 0);
    assert DerivesIn(g, [s], p, 1);
    DerivesTransitive(g, [s], p, b, 1);
  }

  // ---- Expansion ----

  function Append(a: Expansion, b: Expansion): Expansion {
    Expansion(a.form + b.form, a.text + b.text, b.next)
  }

  /** The first of the shortest productions. */
  function Shortest(ps: seq<Form>): (p: Form)
    requires ps != []
    ensures p in ps && forall q :: q in ps ==> |p| <= |q|
    ensures exists i :: 0 <= i < |ps| && ps[i] == p && forall j :: 0 <= j < i ==> |p| < |ps[j]|
  {
    if |ps| == 1 then ps[0] else
    var front, last := ps[..|ps| - 1], ps[|ps| - 1];
    assert ps == front + [last];
    if |last| < |Shortest(front)| then assert ps[|ps| - 1] == last; last else Shortest(front)
  }

  /** The first production without a non-terminal. */
  function FirstTerminal(g: Grammar, ps: seq<Form>): (p: Option<Form>)
    ensures p.Some? ==> p.value in ps && AllTerminal(g, p.value)
    ensures p == None ==> forall q :: q in ps ==> !AllTerminal(g, q)
    ensures p.Some? ==> exists i :: 0 <= i < |ps| && ps[i] == p.value && forall j :: 0 <= j < i ==> !AllTerminal(g, ps[j])
  {
    if ps == [] then None else if AllTerminal(g, ps[0]) then Some(ps[0]) else
    var later := FirstTerminal(g, ps[1..]);
    assert forall j :: 1 <= j < |ps| ==> ps[1..][j - 1] == ps[j];
    later
  }

  /** No production to choose the shortest of is an error. */
  function ExpandTerminal(g: Grammar, symbol: string, next: nat): Option<Expansion> {
    if symbol !in g then Some(Expansion([symbol], symbol, next)) else
    var found := FirstTerminal(g, g[symbol]);
    if found.Some? then Some(Expansion(found.value, Join(found.value), next))
    else if g[symbol] == [] then None
    else Some(Expansion(Shortest(g[symbol]), Join(Shortest(g[symbol])), next))
  }

  function ExpandTerminals(g: Grammar, tokens: Form, next: nat): Option<Expansion> {
    if tokens == [] then Some(Expansion([], "", next)) else
    match ExpandTerminals(g, tokens[..|tokens| - 1], next)
    case None => None
    case Some(front) =>
      match ExpandTerminal(g, tokens[|tokens| - 1], front.next)
      case None => None
      case Some(last) => Some(Append(front, last))
  }

  /** How many levels are left before the limit. */
  function Levels(maxDepth: int, depth: nat): nat {
    if depth < maxDepth then maxDepth - depth else 0
  }

  /** `choices(n)` decides the n-th choice; a choice among no productions is an error. */
  function Expand(g: Grammar, maxDepth: int, symbol: string, depth: nat, choices: nat -> nat, next: nat): Option<Expansion>
    decreases Levels(maxDepth, depth), 0
  {
    if symbol !in g then Some(Expansion([symbol], symbol, next))
    else if g[symbol] == [] then None
    else if depth >= maxDepth then ExpandTerminals(g, Shortest(g[symbol]), next)
    else ExpandAll(g, maxDepth, g[symbol][choices(next) % |g[symbol]|], depth + 1, choices, next + 1)
  }

  function ExpandAll(g: Grammar, maxDepth: int, tokens: Form, depth: nat, choices: nat -> nat, next: nat): Option<Expansion>
    decreases Levels(maxDepth, depth), |tokens|
  {
    if tokens == [] then Some(Expansion([], "", next)) else
    match ExpandAll(g, maxDepth, tokens[..|tokens| - 1], depth, choices, next)
    case None => None
    case Some(front) =>
      match Expand(g, maxDepth, tokens[|tokens| - 1], depth, choices, front.next)
      case None => None
      case Some(last) => Some(Append(front, last))
  }

  // ---- What every expansion is ----

  function Power(k: nat, n: nat): nat {
    if n == 0 then 1 else k * Power(k, n - 1)
  }

  /** `k` bounds the length of every production, and is not zero. */
  ghost predicate Bounds(g: Grammar, k: nat) {
    k > 0 && forall s, p :: s in g && p in g[s] ==> |p| <= k
  }

  /** Every non-terminal has a production without non-terminals. */
  ghost predicate Grounded(g: Grammar) {
    forall s :: s in g ==> exists p :: p in g[s] && AllTerminal(g, p)
  }

  /**
   * The expansion is a sentential form derived from `from`, spelled out; its size is bounded by the
   * levels it was given; and it is a string of terminals if the grammar is grounded.
   */
  ghost predicate Conforms(g: Grammar, k: nat, from: Form, e: Expansion, levels: nat) {
    && Derives(g, from, e.form)
    && e.text == Join(e.form)
    && |e.form| <= |from| * Power(k, levels)
    && (Grounded(g) ==> AllTerminal(g, e.form))
  }

  lemma {:induction false} PowerPositive(k: nat, n: nat)
    requires k > 0
    ensures Power(k, n) > 0
  {
    if n > 0 {
      PowerPositive(k, n - 1);
      Times(k, 1, Power(k, n - 1));
    }
  }

  lemma Times(k: nat, a: nat, b: nat)
    requires a <= b
    ensures k * a <= k * b && a * k <= b * k
  {
    assert k * b - k * a == k * (b - a);
  }

  lemma JoinOne(s: string)
    ensures Join([s]) == s
  {
    assert [s][..0] == [];
  }

  lemma {:induction false} JoinConcat(a: Form, b: Form)
    ensures Join(a + b) == Join(a) + Join(b)
  {
    if b == [] {
      assert a + b == a;
    } else {
      var front, last := b[..|b| - 1], b[|b| - 1];
      assert (a + b)[..|a + b| - 1] == a + front;
      JoinConcat(a, front);
      ConcatAssociative(Join(a), Join(front), last);
    }
  }

  lemma ConformsTerminal(g: Grammar, k: nat, t: string, next: nat, levels: nat)
    requires k > 0 && t !in g
    ensures Conforms(g, k, [t], Expansion([t], t, next), levels)
  {
    DerivesNothing(g, [t]);
    JoinOne(t);
    PowerPositive(k, levels);
  }

  lemma ConformsNothing(g: Grammar, k: nat, next: nat, levels: nat)
    ensures Conforms(g, k, [], Expansion([], "", next), levels)
  {
    DerivesNothing(g, []);
  }

  lemma ConformsAppend(g: Grammar, k: nat, a: Form, x: Expansion, b: Form, y: Expansion, levels: nat)
    requires Conforms(g, k, a, x, levels) && Conforms(g, k, b, y, levels)
    ensures Conforms(g, k, a + b, Append(x, y), levels)
  {
    hide Derives, Join, Grounded, Power;
    DerivesSideBySide(g, a, x.form, b, y.form);
    JoinConcat(x.form, y.form);
    var p := Power(k, levels);
    assert |a + b| * p == |a| * p + |b| * p;
  }

  lemma ConformsProduction(g: Grammar, k: nat, s: string, p: Form, e: Expansion, levels: nat)
    requires Bounds(g, k) && s in g && p in g[s] && Conforms(g, k, p, e, levels)
    ensures Conforms(g, k, [s], e, levels + 1)
  {
    hide Derives, Join, Grounded;
    DerivesByProduction(g, s, p, e.form);
    Times(Power(k, levels), |p|, k);
    assert |[s]| * Power(k, levels + 1) == k * Power(k, levels);
  }

  lemma TerminalConforms(g: Grammar, k: nat, symbol: string, next: nat)
    requires Bounds(g, k)
    ensures var e := ExpandTerminal(g, symbol, next); e.Some? ==> Conforms(g, k, [symbol], e.value, 1)
  {
    hide Derives, Join;
    var e := ExpandTerminal(g, symbol, next);
    if symbol !in g {
      ConformsTerminal(g, k, symbol, next, 1);
    } else if e.Some? {
      DerivesNothing(g, e.value.form);
      DerivesByProduction(g, symbol, e.value.form, e.value.form);
      assert Power(k, 1) == k * Power(k, 0) == k;
    }
  }

  lemma {:induction false} TerminalsConform(g: Grammar, k: nat, tokens: Form, next: nat)
    requires Bounds(g, k)
    ensures var e := ExpandTerminals(g, tokens, next); e.Some? ==> Conforms(g, k, tokens, e.value, 1)
  {
    hide Conforms, ExpandTerminal, Append, Bounds;
    if tokens == [] {
      ConformsNothing(g, k, next, 1);
    } else {
      var front, last := tokens[..|tokens| - 1], tokens[|tokens| - 1];
      TerminalsConform(g, k, front, next);
      var f := ExpandTerminals(g, front, next);
      if f.Some? {
        TerminalConforms(g, k, last, f.value.next);
        var l := ExpandTerminal(g, last, f.value.next);
        if l.Some? {
          ConformsAppend(g, k, front, f.value, [last], l.value, 1);
          SplitLast(tokens);
        }
      }
    }
  }

  /** Whatever the choices: an expansion conforms, with two levels more than were left. */
  lemma {:induction false} ExpandConforms(g: Grammar, k: nat, maxDepth: int, symbol: string, depth: nat,
                                          choices: nat -> nat, next: nat)
    requires Bounds(g, k)
    ensures var e := Expand(g, maxDepth, symbol, depth, choices, next);
            e.Some? ==> Conforms(g, k, [symbol], e.value, Levels(maxDepth, depth) + 2)
    decreases Levels(maxDepth, depth), 0
  {
    hide Conforms, Append, ExpandTerminals;
    if symbol !in g {
      ConformsTerminal(g, k, symbol, next, Levels(maxDepth, depth) + 2);
    } else if g[symbol] != [] {
      var e := Expand(g, maxDepth, symbol, depth, choices, next);
      var ps := g[symbol];
      if depth >= maxDepth {
        TerminalsConform(g, k, Shortest(ps), next);
        if e.Some? {
          ConformsProduction(g, k, symbol, Shortest(ps), e.value, 1);
        }
      } else {
        var chosen := ps[choices(next) % |ps|];
        AllConform(g, k, maxDepth, chosen, depth + 1, choices, next + 1);
        if e.Some? {
          ConformsProduction(g, k, symbol, chosen, e.value, Levels(maxDepth, depth + 1) + 2);
        }
      }
    }
  }

  lemma {:induction false} AllConform(g: Grammar, k: nat, maxDepth: int, tokens: Form, depth: nat, choices: nat -> nat, next: nat)
    requires Bounds(g, k)
    ensures var e := ExpandAll(g, maxDepth, tokens, depth, choices, next);
            e.Some? ==> Conforms(g, k, tokens, e.value, Levels(maxDepth, depth) + 2)
    decreases Levels(maxDepth, depth), |tokens|
  {
    hide Conforms, Append, Bounds;
    var levels := Levels(maxDepth, depth) + 2;
    if tokens == [] {
      ConformsNothing(g, k, next, levels);
    } else {
      var front, last := tokens[..|tokens| - 1], tokens[|tokens| - 1];
      AllConform(g, k, maxDepth, front, depth, choices, next);
      var f := ExpandAll(g, maxDepth, front, depth, choices, next);
      if f.Some? {
        ExpandConforms(g, k, maxDepth, last, depth, choices, f.value.next);
        var l := Expand(g, maxDepth, last, depth, choices, f.value.next);
        if l.Some? {
          ConformsAppend(g, k, front, f.value, [last], l.value, levels);
          SplitLast(tokens);
        }
      }
    }
  }

  /** The promise of a generator: what it returns is spelled by a sentential form of the start symbol. */
  lemma GenerateTheorem(g: Grammar, k: nat, maxDepth: nat, choices: nat -> nat, next: nat)
    requires Bounds(g, k)
    ensures var e := Expand(g, maxDepth, START, 0, choices, next);
            e.Some? ==>
              && Derives(g, [START], e.value.form)
              && e.value.text == Join(e.value.form)
              && |e.value.form| <= Power(k, maxDepth + 2)
              && (Grounded(g) ==> AllTerminal(g, e.value.form))
  {
    hide Derives, Join, Power, Grounded, AllTerminal, Bounds, Expand;
    ExpandConforms(g, k, maxDepth, START, 0, choices, next);
  }

  /** At the depth limit the result is terminal exactly if the tokens of the shortest production can be ended in one step. */
  lemma {:induction false} TerminalsTerminalIff(g: Grammar, tokens: Form, next: nat)
    ensures var e := ExpandTerminals(g, tokens, next);
            e.Some? ==> (AllTerminal(g, e.value.form) <==> forall t :: t in tokens ==> Ends(g, t))
  {
    if tokens != [] {
      var front, last := tokens[..|tokens| - 1], tokens[|tokens| - 1];
      SplitLast(tokens);
      TerminalsTerminalIff(g, front, next);
      var f := ExpandTerminals(g, front, next);
      if f.Some? {
        EndsIff(g, last, f.value.next);
      }
    }
  }

  /** The first production of which no other is shorter. */
  ghost predicate FirstShortest(ps: seq<Form>, p: Form) {
    exists i :: 0 <= i < |ps| && ps[i] == p &&
      (forall j :: 0 <= j < |ps| ==> |p| <= |ps[j]|) && forall j :: 0 <= j < i ==> |p| < |ps[j]|
  }

  ghost predicate FirstAllTerminal(g: Grammar, ps: seq<Form>, p: Form) {
    AllTerminal(g, p) && exists i :: 0 <= i < |ps| && ps[i] == p && forall j :: 0 <= j < i ==> !AllTerminal(g, ps[j])
  }

  /** What a token is ended with: itself, its first production of terminals only, or else its first shortest one. */
  ghost predicate EndsWith(g: Grammar, t: string, form: Form) {
    if t !in g then form == [t]
    else if exists p :: p in g[t] && AllTerminal(g, p) then FirstAllTerminal(g, g[t], form)
    else FirstShortest(g[t], form)
  }

  ghost predicate AllEndWith(g: Grammar, tokens: Form, form: Form) {
    if tokens == [] then form == []
    else exists front, last ::
        form == front + last && AllEndWith(g, tokens[..|tokens| - 1], front) && EndsWith(g, tokens[|tokens| - 1], last)
  }

  lemma {:induction false} TerminalsEnd(g: Grammar, tokens: Form, next: nat)
    ensures var e := ExpandTerminals(g, tokens, next);
            e.Some? ==> AllEndWith(g, tokens, e.value.form) && e.value.next == next
  {
    if tokens != [] {
      var front, last := tokens[..|tokens| - 1], tokens[|tokens| - 1];
      TerminalsEnd(g, front, next);
      var f := ExpandTerminals(g, front, next);
      if f.Some? {
        TerminalEnds(g, last, next);
      }
    }
  }

  lemma TerminalEnds(g: Grammar, t: string, next: nat)
    ensures var e := ExpandTerminal(g, t, next); e.Some? ==> EndsWith(g, t, e.value.form) && e.value.next == next
  {
    if t in g && g[t] != [] {
      ShortestIsFirst(g[t]);
    }
  }

  lemma ShortestIsFirst(ps: seq<Form>)
    requires ps != []
    ensures FirstShortest(ps, Shortest(ps))
  {
    assert forall j :: 0 <= j < |ps| ==> ps[j] in ps;
  }

  /**
   * At the depth limit no choice is made: a non-terminal becomes its first shortest production, each
   * token of which is ended in one step.
   */
  lemma LimitEnds(g: Grammar, maxDepth: int, symbol: string, depth: nat, choices: nat -> nat, next: nat)
    requires depth >= maxDepth && symbol in g
    ensures var e := Expand(g, maxDepth, symbol, depth, choices, next);
            e.Some? ==> e.value.next == next && exists p :: FirstShortest(g[symbol], p) && AllEndWith(g, p, e.value.form)
  {
    if g[symbol] != [] {
      ShortestIsFirst(g[symbol]);
      TerminalsEnd(g, Shortest(g[symbol]), next);
    }
  }

  /** A terminal, or a non-terminal with a production of terminals only. */
  ghost predicate Ends(g: Grammar, t: string) {
    t in g ==> exists p :: p in g[t] && AllTerminal(g, p)
  }

  lemma EndsIff(g: Grammar, t: string, next: nat)
    ensures var e := ExpandTerminal(g, t, next); e.Some? ==> (AllTerminal(g, e.value.form) <==> Ends(g, t))
  {
  }

  /** An expansion raises only where a non-terminal has no productions at all. */
  lemma {:induction false} ExpandSucceeds(g: Grammar, maxDepth: int, symbol: string, depth: nat, choices: nat -> nat, next: nat)
    requires forall s :: s in g ==> g[s] != []
    ensures Expand(g, maxDepth, symbol, depth, choices, next).Some?
    decreases Levels(maxDepth, depth), 0
  {
    if symbol in g {
      if depth >= maxDepth {
        TerminalsSucceed(g, Shortest(g[symbol]), next);
      } else {
        AllSucceed(g, maxDepth, g[symbol][choices(next) % |g[symbol]|], depth + 1, choices, next + 1);
      }
    }
  }

  lemma {:induction false} AllSucceed(g: Grammar, maxDepth: int, tokens: Form, depth: nat, choices: nat -> nat, next: nat)
    requires forall s :: s in g ==> g[s] != []
    ensures ExpandAll(g, maxDepth, tokens, depth, choices, next).Some?
    decreases Levels(maxDepth, depth), |tokens|
  {
    if tokens != [] {
      AllSucceed(g, maxDepth, tokens[..|tokens| - 1], depth, choices, next);
      var front := ExpandAll(g, maxDepth, tokens[..|tokens| - 1], depth, choices, next).value;
      ExpandSucceeds(g, maxDepth, tokens[|tokens| - 1], depth, choices, front.next);
    }
  }

  lemma {:induction false} TerminalsSucceed(g: Grammar, tokens: Form, next: nat)
    requires forall s :: s in g ==> g[s] != []
    ensures ExpandTerminals(g, tokens, next).Some?
  {
    if tokens != [] {
      TerminalsSucceed(g, tokens[..|tokens| - 1], next);
    }
  }

  // ---- What choices can reach ----

  /** A derivation tree: which production each non-terminal takes. */
  datatype Tree = Tree(symbol: string, choice: nat, kids: seq<Tree>)

  /** The tree follows the grammar and takes no more productions on any path than `height`. */
  ghost predicate Grown(g: Grammar, t: Tree, height: nat)
    decreases height, 0
  {
    if t.symbol !in g then t.kids == []
    else height > 0 && t.choice < |g[t.symbol]| && AllGrown(g, g[t.symbol][t.choice], t.kids, height - 1)
  }

  ghost predicate AllGrown(g: Grammar, tokens: Form, ts: seq<Tree>, height: nat)
    decreases height, 1 + |ts|
  {
    && |ts| == |tokens|
    && (ts == [] ||
        (AllGrown(g, tokens[..|ts| - 1], ts[..|ts| - 1], height)
         && ts[|ts| - 1].symbol == tokens[|ts| - 1] && Grown(g, ts[|ts| - 1], height)))
  }

  function Yield(g: Grammar, t: Tree): Form
    decreases t, 0
  {
    if t.symbol !in g then [t.symbol] else YieldAll(g, t.kids)
  }

  function YieldAll(g: Grammar, ts: seq<Tree>): Form
    decreases ts, 1
  {
    if ts == [] then [] else YieldAll(g, ts[..|ts| - 1]) + Yield(g, ts[|ts| - 1])
  }

  /** The choices that grow the tree, in the order expansion makes them. */
  function ChoicesFor(g: Grammar, t: Tree): seq<nat>
    decreases t, 0
  {
    if t.symbol !in g then [] else [t.choice] + ChoicesForAll(g, t.kids)
  }

  function ChoicesForAll(g: Grammar, ts: seq<Tree>): seq<nat>
    decreases ts, 1
  {
    if ts == [] then [] else ChoicesForAll(g, ts[..|ts| - 1]) + ChoicesFor(g, ts[|ts| - 1])
  }

  ghost predicate Gives(choices: nat -> nat, next: nat, plan: seq<nat>) {
    forall i :: 0 <= i < |plan| ==> choices(next + i) == plan[i]
  }

  lemma GivesBoth(choices: nat -> nat, next: nat, a: seq<nat>, b: seq<nat>)
    requires Gives(choices, next, a + b)
    ensures Gives(choices, next, a) && Gives(choices, next + |a|, b)
  {
    forall i | 0 <= i < |a|
      ensures choices(next + i) == a[i]
    {
      assert (a + b)[i] == a[i];
    }
    forall i | 0 <= i < |b|
      ensures choices(next + |a| + i) == b[i]
    {
      assert (a + b)[|a| + i] == b[i];
    }
  }

  function Spelled(form: Form, next: nat): Expansion {
    Expansion(form, Join(form), next)
  }

  lemma {:induction false} ExpandFollows(g: Grammar, maxDepth: int, t: Tree, depth: nat, choices: nat -> nat, next: nat)
    requires Grown(g, t, Levels(maxDepth, depth)) && Gives(choices, next, ChoicesFor(g, t))
    ensures Expand(g, maxDepth, t.symbol, depth, choices, next) == Some(Spelled(Yield(g, t), next + |ChoicesFor(g, t)|))
    decreases t, 0
  {
    hide Gives, Join;
    if t.symbol !in g {
      JoinOne(t.symbol);
    } else {
      GivesBoth(choices, next, [t.choice], ChoicesForAll(g, t.kids));
      FirstGiven(choices, next, t.choice);
      AllFollow(g, maxDepth, g[t.symbol][t.choice], t.kids, depth + 1, choices, next + 1);
    }
  }

  lemma FirstGiven(choices: nat -> nat, next: nat, choice: nat)
    requires Gives(choices, next, [choice])
    ensures choices(next) == choice
  {
    assert choices(next + 0) == [choice][0];
  }

  lemma {:induction false} AllFollow(g: Grammar, maxDepth: int, tokens: Form, ts: seq<Tree>, depth: nat,
                                     choices: nat -> nat, next: nat)
    requires AllGrown(g, tokens, ts, Levels(maxDepth, depth)) && Gives(choices, next, ChoicesForAll(g, ts))
    ensures ExpandAll(g, maxDepth, tokens, depth, choices, next) == Some(Spelled(YieldAll(g, ts), next + |ChoicesForAll(g, ts)|))
    decreases ts, 1
  {
    hide Gives, Join, Expand, Grown, Yield, ChoicesFor;
    if ts == [] {
      JoinNothing();
    } else {
      var front, last := ts[..|ts| - 1], ts[|ts| - 1];
      GivesBoth(choices, next, ChoicesForAll(g, front), ChoicesFor(g, last));
      AllFollow(g, maxDepth, tokens[..|ts| - 1], front, depth, choices, next);
      ExpandFollows(g, maxDepth, last, depth, choices, next + |ChoicesForAll(g, front)|);
      JoinConcat(YieldAll(g, front), Yield(g, last));
    }
  }

  lemma JoinNothing()
    ensures Join([]) == ""
  {
  }

  /** Some choice sequence generates the yield of every derivation tree within the depth limit. */
  lemma GenerateReaches(g: Grammar, maxDepth: nat, t: Tree)
    requires Grown(g, t, maxDepth) && t.symbol == "<A>"
    ensures exists choices: nat -> nat ::
              Expand(g, maxDepth, START, 0, choices, 0) == Some(Spelled(Yield(g, t), |ChoicesFor(g, t)|))
  {
    hide Grown, ChoicesFor, Yield, Expand;
    var plan := ChoicesFor(g, t);
    var choices := (n: nat) => if n < |plan| then plan[n] else 0;
    ExpandFollows(g, maxDepth, t, 0, choices, 0);
  }

  // ---- Collecting seeds ----

  const MAX_DEPTH: nat := 12

  /** latin-1 has no code for a larger character. */
  predicate Encodable(s: string) {
    forall c :: c in s ==> c as int < 256
  }

  /** One seed and the choices used so far; none if expanding or encoding raises. */
  function Generate(g: Grammar, choices: nat -> nat, next: nat): Option<(string, nat)> {
    match Expand(g, MAX_DEPTH, START, 0, choices, next)
    case None => None
    case Some(e) => if Encodable(e.text) then Some((e.text, e.next)) else None
  }

  /**
   * A draw fails exactly if the expansion from the start symbol, twelve levels deep, raises or spells a
   * character that latin-1 cannot encode; otherwise it is that text.
   */
  lemma GenerateIff(g: Grammar, choices: nat -> nat, next: nat)
    ensures var e, s := Expand(g, 12, "<A>", 0, choices, next), Generate(g, choices, next);
            && (s.Some? <==> e.Some? && forall c :: c in e.value.text ==> c as int <= 0xff)
            && (s.Some? ==> s.value == (e.value.text, e.value.next))
  {
    hide Expand;
  }

  /** The first `n` seeds drawn, repetitions included. */
  function Draws(g: Grammar, choices: nat -> nat, n: nat): Option<(seq<string>, nat)> {
    if n == 0 then Some(([], 0)) else
    match Draws(g, choices, n - 1)
    case None => None
    case Some((seeds, next)) =>
      match Generate(g, choices, next)
      case None => None
      case Some((seed, after)) => Some((seeds + [seed], after))
  }

  /** First occurrences, in order. */
  function Distinct(s: seq<string>): (r: seq<string>)
    ensures forall x :: x in r <==> x in s
  {
    if s == [] then [] else
    var front, last := Distinct(s[..|s| - 1]), s[|s| - 1];
    assert s == s[..|s| - 1] + [last];
    if last in front then front else front + [last]
  }

  lemma {:induction false} DistinctIsDistinct(s: seq<string>)
    ensures NoDuplicates(Distinct(s)) && |Distinct(s)| <= |s|
  {
    if s != [] {
      DistinctIsDistinct(s[..|s| - 1]);
    }
  }

  lemma {:induction false} DistinctIsFirst(s: seq<string>)
    ensures Firsts(s, Equal, Distinct(s))
  {
    if s == [] {
      FirstsOfNone<string>(Equal);
    } else {
      hide Firsts;
      var front, last := s[..|s| - 1], s[|s| - 1];
      DistinctIsFirst(front);
      SplitLast(s);
      FirstsSnoc(front, Equal, Distinct(front), last);
      LastIsFirst(front, Equal, last);
    }
  }

  datatype Collected = Finished | Raised

  /**
   * What is written are the first occurrences among the first `drawn` seeds. The loop ends when there
   * are enough, when three times as many have been drawn, or when the next draw raises.
   */
  method GenerateSeeds(g: Grammar, count: nat, choices: nat -> nat)
    returns (written: seq<string>, ghost drawn: nat, end: Collected)
    ensures drawn <= 3 * count && Draws(g, choices, drawn).Some?
    ensures written == if START in g then Distinct(Draws(g, choices, drawn).value.0) else []
    ensures "<A>" in g ==> Firsts(Draws(g, choices, drawn).value.0, Equal, written)
    ensures NoDuplicates(written) && |written| <= count
    ensures START in g && end == Finished ==> |written| == count || drawn == 3 * count
    ensures end == Raised ==> START in g && |written| < count && Draws(g, choices, drawn + 1) == None
  {
    hide Generate, Firsts;
    written, drawn, end := [], 0, Finished;
    if START !in g {
      return;
    }
    var seen: set<string> := {};
    var next := 0;
    var i := 0;
    while i < 3 * count && |written| < count
      invariant i <= 3 * count && drawn == i
      invariant Draws(g, choices, i).Some? && Draws(g, choices, i).value.1 == next
      invariant written == Distinct(Draws(g, choices, i).value.0)
      invariant seen == ToSet(written) && |written| <= count
      decreases 3 * count - i
    {
      var data := Generate(g, choices, next);
      if data == None {
        DistinctIsDistinct(Draws(g, choices, i).value.0);
        DistinctIsFirst(Draws(g, choices, i).value.0);
        end := Raised;
        return;
      }
      ghost var before := Draws(g, choices, i).value.0;
      assert (before + [data.value.0])[..|before|] == before;
      next := data.value.1;
      if data.value.0 !in seen {
        seen := seen + {data.value.0};
        written := written + [data.value.0];
      }
      i := i + 1;
      drawn := i;
    }
    DistinctIsDistinct(Draws(g, choices, i).value.0);
    DistinctIsFirst(Draws(g, choices, i).value.0);
  }

  /** Every draw is made from a grammar's sentential form, so every seed written is one. */
  lemma {:induction false} DrawsConform(g: Grammar, k: nat, choices: nat -> nat, n: nat)
    requires Bounds(g, k)
    ensures var d := Draws(g, choices, n);
            d.Some? ==> |d.value.0| == n && forall s :: s in d.value.0 ==> SpelledBy(g, k, s)
  {
    hide Distinct, Generate, SpelledBy, Bounds;
    if n > 0 {
      DrawsConform(g, k, choices, n - 1);
      var d := Draws(g, choices, n - 1);
      if d.Some? {
        GenerateSpells(g, k, choices, d.value.1);
      }
    }
  }

  ghost predicate SpelledBy(g: Grammar, k: nat, s: string) {
    exists form ::
      && Derives(g, ["<A>"], form) && s == Join(form) && |form| <= Power(k, 14)
      && (Grounded(g) ==> AllTerminal(g, form))
  }

  lemma GenerateSpells(g: Grammar, k: nat, choices: nat -> nat, next: nat)
    requires Bounds(g, k)
    ensures var s := Generate(g, choices, next); s.Some? ==> SpelledBy(g, k, s.value.0)
  {
    hide Derives, Join, Power, Grounded, AllTerminal, Bounds, Expand, Encodable;
    GenerateTheorem(g, k, MAX_DEPTH, choices, next);
  }
}
