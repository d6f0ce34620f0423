/**
 * Choosing which bitcode files to link: one after the other, leaving out each file that defines a
 * symbol an earlier chosen file defines.
 */
module LinkSelection {
  import opened Common

  /** A bitcode file and its symbol listing, one sequence of words a line; none if listing it raised. */
  datatype Candidate = Candidate(path: string, listing: Option<seq<seq<string>>>)

  predicate IsDefinition(words: seq<string>) {
    |words| >= 3 && words[1] in ["T", "D", "B"]
  }

  /** The symbols a file is known to define. */
  function Symbols(c: Candidate): (r: set<string>)
    ensures c.listing == None ==> r == {}
  {
    if c.listing == None then {} else set words | words in c.listing.value && IsDefinition(words) :: words[2]
  }

  predicate Shares(a: Candidate, b: Candidate) {
    Symbols(a) * Symbols(b) != {}
  }

  /** No earlier chosen file shares a symbol with the i-th: this alone decides whether it is chosen. */
  ghost predicate Chosen(cs: seq<Candidate>, i: nat)
    requires i < |cs|
    decreases i
  {
    forall j: nat :: j < i && Chosen(cs, j) ==> !Shares(cs[j], cs[i])
  }

  ghost function Targets(cs: seq<Candidate>, n: nat): seq<Candidate>
    requires n <= |cs|
  {
    if n == 0 then [] else if Chosen(cs, n - 1) then Targets(cs, n - 1) + [cs[n - 1]] else Targets(cs, n - 1)
  }

  ghost function Skipped(cs: seq<Candidate>, n: nat): seq<Candidate>
    requires n <= |cs|
  {
    if n == 0 then [] else if Chosen(cs, n - 1) then Skipped(cs, n - 1) else Skipped(cs, n - 1) + [cs[n - 1]]
  }

  function SymbolsOf(cs: seq<Candidate>): set<string> {
    if cs == [] then {} else SymbolsOf(cs[..|cs| - 1]) + Symbols(cs[|cs| - 1])
  }

  /** Every seen symbol is recorded with a chosen file that defines it. */
  ghost predicate OwnedBy(seen: map<string, Candidate>, targets: seq<Candidate>) {
    && seen.Keys == SymbolsOf(targets)
    && forall s :: s in seen ==> seen[s] in targets && s in Symbols(seen[s])
  }

  lemma {:induction false} SymbolsOfMember(cs: seq<Candidate>, s: string)
    ensures s in SymbolsOf(cs) <==> exists c :: c in cs && s in Symbols(c)
  {
    hide Symbols;
    if cs != [] {
      SymbolsOfMember(cs[..|cs| - 1], s);
      SplitLast(cs);
    }
  }

  lemma {:induction false} TargetsMember(cs: seq<Candidate>, n: nat, c: Candidate)
    requires n <= |cs|
    ensures c in Targets(cs, n) <==> exists i: nat :: i < n && Chosen(cs, i) && cs[i] == c
  {
    hide Chosen;
    if n > 0 {
      TargetsMember(cs, n - 1, c);
      if Chosen(cs, n - 1) {
        assert Targets(cs, n) == Targets(cs, n - 1) + [cs[n - 1]];
      }
    }
  }

  lemma {:induction false} SkippedMember(cs: seq<Candidate>, n: nat, c: Candidate)
    requires n <= |cs|
    ensures c in Skipped(cs, n) ==> exists i: nat :: i < n && !Chosen(cs, i) && cs[i] == c
  {
    hide Chosen;
    if c in Skipped(cs, n) {
      if Chosen(cs, n - 1) || c in Skipped(cs, n - 1) {
        SkippedMember(cs, n - 1, c);
      }
    }
  }

  /** Looking in the symbols of all chosen files finds a shared symbol exactly if the next one is not chosen. */
  lemma ConflictIff(cs: seq<Candidate>, n: nat)
    requires n < |cs|
    ensures SymbolsOf(Targets(cs, n)) * Symbols(cs[n]) != {} <==> !Chosen(cs, n)
  {
    hide Symbols, Targets, SymbolsOf;
    var mine := Symbols(cs[n]);
    if s :| s in SymbolsOf(Targets(cs, n)) * mine {
      SymbolsOfMember(Targets(cs, n), s);
      var c :| c in Targets(cs, n) && s in Symbols(c);
      TargetsMember(cs, n, c);
      var i: nat :| i < n && Chosen(cs, i) && cs[i] == c;
      assert s in Symbols(cs[i]) * mine;
      assert Shares(cs[i], cs[n]);
    } else if !Chosen(cs, n) {
      var j: nat :| j < n && Chosen(cs, j) && Shares(cs[j], cs[n]);
      var s :| s in Symbols(cs[j]) * mine;
      TargetsMember(cs, n, cs[j]);
      SymbolsOfMember(Targets(cs, n), s);
      assert s in SymbolsOf(Targets(cs, n)) * mine;
    }
  }

  method ListSymbols(lines: seq<seq<string>>) returns (symbols: set<string>)
    ensures symbols == set words | words in lines && IsDefinition(words) :: words[2]
    ensures forall s :: s in symbols <==> exists words :: words in lines && DefinedOn(words, s)
  {
    symbols := {};
    for i := 0 to |lines|
      invariant symbols == set words | words in lines[..i] && IsDefinition(words) :: words[2]
    {
      assert lines[..i + 1] == lines[..i] + [lines[i]];
      if IsDefinition(lines[i]) {
        symbols := symbols + {lines[i][2]};
      }
    }
    assert lines[..|lines|] == lines;
    forall words, s | words in lines
      ensures IsDefinition(words) && words[2] == s <==> DefinedOn(words, s)
    {
    }
  }

  method AnySeen(symbols: set<string>, seen: map<string, Candidate>) returns (conflict: bool)
    ensures conflict <==> seen.Keys * symbols != {}
  {
    conflict := false;
    var rest := symbols;
    while rest != {}
      invariant rest <= symbols && seen.Keys * (symbols - rest) == {}
      decreases |rest|
    {
      var sym :| sym in rest;
      if sym in seen {
        assert sym in seen.Keys * symbols;
        conflict := true;
        break;
      }
      rest := rest - {sym};
    }
  }

  method Record(symbols: set<string>, file: Candidate, before: map<string, Candidate>) returns (seen: map<string, Candidate>)
    ensures Recorded(before, symbols, file, seen)
  {
    seen := before;
    var rest := symbols;
    ghost var done: set<string> := {};
    while rest != {}
      invariant done + rest == symbols
      invariant Recorded(before, done, file, seen)
      decreases |rest|
    {
      var sym :| sym in rest;
      seen := seen[sym := file];
      rest := rest - {sym};
      done := done + {sym};
    }
  }

  /** `seen` is `before` with `file` as the owner of every one of `symbols`. */
  ghost predicate Recorded(before: map<string, Candidate>, symbols: set<string>, file: Candidate, seen: map<string, Candidate>) {
    && (forall s :: s in seen <==> s in before || s in symbols)
    && forall s :: s in seen ==> seen[s] == if s in symbols then file else before[s]
  }

  /** Without a listing tool, or where listing raises, a file is linked unseen. */
  method SelectLinkTargets(candidates: seq<Candidate>, haveTool: bool)
    returns (linkTargets: seq<Candidate>, skipped: seq<Candidate>, seen: map<string, Candidate>)
    ensures !haveTool ==> linkTargets == candidates && skipped == [] && seen == map[]
    ensures haveTool ==>
              && linkTargets == Targets(candidates, |candidates|)
              && skipped == Skipped(candidates, |candidates|)
              && Owns(seen, linkTargets)
  {
    hide Chosen, Symbols, Recorded, Owns;
    linkTargets, skipped, seen := [], [], map[];
    for i := 0 to |candidates|
      invariant !haveTool ==> linkTargets == candidates[..i] && skipped == [] && seen == map[]
      invariant haveTool ==>
                  && linkTargets == Targets(candidates, i)
                  && skipped == Skipped(candidates, i)
                  && OwnedBy(seen, linkTargets)
    {
      var bcFile := candidates[i];
      if !haveTool {
        linkTargets := linkTargets + [bcFile];
        continue;
      }
      ConflictIff(candidates, i);
      hide OwnedBy, IsDefinition;
      Owned(seen, linkTargets);
      if bcFile.listing == None {
        OwnedAfter(seen, linkTargets, bcFile, seen);
        linkTargets := linkTargets + [bcFile];
      } else {
        var symbols := ListSymbols(bcFile.listing.value);
        SymbolsListed(bcFile);
        var conflict := AnySeen(symbols, seen);
        if conflict {
          skipped := skipped + [bcFile];
          continue;
        }
        var recorded := Record(symbols, bcFile, seen);
        OwnedAfter(seen, linkTargets, bcFile, recorded);
        seen := recorded;
        linkTargets := linkTargets + [bcFile];
      }
    }
    assert candidates[..|candidates|] == candidates;
    OwnedIff(seen, linkTargets);
  }

  lemma Owned(seen: map<string, Candidate>, targets: seq<Candidate>)
    ensures OwnedBy(seen, targets) ==> seen.Keys == SymbolsOf(targets)
  {
  }

  lemma OwnedAfter(before: map<string, Candidate>, targets: seq<Candidate>, c: Candidate, seen: map<string, Candidate>)
    requires Recorded(before, Symbols(c), c, seen) || (Symbols(c) == {} && seen == before)
    ensures OwnedBy(before, targets) ==> OwnedBy(seen, targets + [c])
  {
    hide Symbols, SymbolsOf;
    SymbolsOfSnoc(targets, c);
  }

  lemma SymbolsListed(c: Candidate)
    requires c.listing.Some?
    ensures Symbols(c) == set words | words in c.listing.value && IsDefinition(words) :: words[2]
  {
  }

  lemma SymbolsOfSnoc(cs: seq<Candidate>, c: Candidate)
    ensures SymbolsOf(cs + [c]) == SymbolsOf(cs) + Symbols(c)
  {
    assert (cs + [c])[..|cs|] == cs;
  }

  // ---- What the selection is worth ----

  /** A line of the file's listing has a third word, the symbol, and says that it is defined there. */
  ghost predicate Defines(c: Candidate, s: string) {
    c.listing.Some? && exists words :: words in c.listing.value && DefinedOn(words, s)
  }

  predicate DefinedOn(words: seq<string>, s: string) {
    |words| > 2 && words[2] == s && (words[1] == "T" || words[1] == "D" || words[1] == "B")
  }

  lemma SymbolsDefined(c: Candidate, s: string)
    ensures s in Symbols(c) <==> Defines(c, s)
  {
    if c.listing.Some? {
      forall words | words in c.listing.value
        ensures IsDefinition(words) && words[2] == s <==> DefinedOn(words, s)
      {
      }
    }
  }

  ghost predicate BothDefine(a: Candidate, b: Candidate) {
    exists s :: Defines(a, s) && Defines(b, s)
  }

  lemma SharesIff(a: Candidate, b: Candidate)
    ensures Shares(a, b) <==> BothDefine(a, b)
  {
    hide Symbols, Defines;
    if s :| s in Symbols(a) * Symbols(b) {
      SymbolsDefined(a, s);
      SymbolsDefined(b, s);
    }
    if s :| Defines(a, s) && Defines(b, s) {
      SymbolsDefined(a, s);
      SymbolsDefined(b, s);
      assert s in Symbols(a) * Symbols(b);
    }
  }

  /** A file is chosen exactly if no chosen file before it defines a symbol that it defines. */
  lemma ChosenIff(cs: seq<Candidate>, i: nat)
    requires i < |cs|
    ensures Chosen(cs, i) <==> !exists j: nat :: j < i && Chosen(cs, j) && BothDefine(cs[j], cs[i])
  {
    hide Shares, BothDefine;
    forall j: nat | j < i
      ensures Shares(cs[j], cs[i]) <==> BothDefine(cs[j], cs[i])
    {
      SharesIff(cs[j], cs[i]);
    }
  }

  /** `at` says where the files of `ts` are among the first `n`: at every chosen place, and nowhere else, in order. */
  ghost predicate ChosenAt(cs: seq<Candidate>, n: nat, ts: seq<Candidate>, at: seq<nat>)
    requires n <= |cs|
  {
    && |at| == |ts|
    && (forall k :: 0 <= k < |at| ==> at[k] < n && ts[k] == cs[at[k]])
    && (forall k, l :: 0 <= k < l < |at| ==> at[k] < at[l])
    && forall i: nat :: i in at <==> i < n && Chosen(cs, i)
  }

  /** The targets are the chosen files in the order in which they were given. */
  lemma {:induction false} TargetsInOrder(cs: seq<Candidate>, n: nat)
    requires n <= |cs|
    ensures exists at: seq<nat> :: ChosenAt(cs, n, Targets(cs, n), at)
  {
    hide Chosen, ChosenAt, Targets;
    if n == 0 {
      NoneChosenYet(cs);
    } else {
      TargetsInOrder(cs, n - 1);
      var at: seq<nat> :| ChosenAt(cs, n - 1, Targets(cs, n - 1), at);
      ChosenAtSnoc(cs, n - 1, Targets(cs, n - 1), at);
      SelectionStep(cs, n);
      assert ChosenAt(cs, n, Targets(cs, n), if Chosen(cs, n - 1) then at + [n - 1] else at);
    }
  }

  lemma NoneChosenYet(cs: seq<Candidate>)
    ensures ChosenAt(cs, 0, Targets(cs, 0), [])
  {
  }

  lemma ChosenAtSnoc(cs: seq<Candidate>, n: nat, ts: seq<Candidate>, at: seq<nat>)
    requires n < |cs| && ChosenAt(cs, n, ts, at)
    ensures if Chosen(cs, n) then ChosenAt(cs, n + 1, ts + [cs[n]], at + [n]) else ChosenAt(cs, n + 1, ts, at)
  {
    hide Chosen;
    if Chosen(cs, n) {
      assert forall i: nat :: i in at + [n] <==> i in at || i == n;
    }
  }

  /** No two files of a sequence share a symbol. */
  ghost predicate ConflictFree(cs: seq<Candidate>) {
    forall i, j :: 0 <= i < j < |cs| ==> !Shares(cs[i], cs[j])
  }

  /** The same in terms of the listings. */
  lemma ConflictFreeIff(cs: seq<Candidate>)
    ensures ConflictFree(cs) <==> forall i, j :: 0 <= i < j < |cs| ==> !BothDefine(cs[i], cs[j])
  {
    hide Shares, BothDefine;
    forall i, j | 0 <= i < j < |cs|
      ensures Shares(cs[i], cs[j]) <==> BothDefine(cs[i], cs[j])
    {
      SharesIff(cs[i], cs[j]);
    }
  }

  /** The table holds exactly the symbols the files define, each with one of the files that define it. */
  ghost predicate Owns(seen: map<string, Candidate>, cs: seq<Candidate>) {
    && (forall s :: s in seen <==> exists c :: c in cs && Defines(c, s))
    && forall s :: s in seen ==> seen[s] in cs && Defines(seen[s], s)
  }

  lemma OwnedIff(seen: map<string, Candidate>, cs: seq<Candidate>)
    ensures OwnedBy(seen, cs) <==> Owns(seen, cs)
  {
    hide Symbols, SymbolsOf, Defines;
    forall s
      ensures s in SymbolsOf(cs) <==> exists c :: c in cs && Defines(c, s)
    {
      SymbolsOfMember(cs, s);
      forall c
        ensures s in Symbols(c) <==> Defines(c, s)
      {
        SymbolsDefined(c, s);
      }
    }
    forall c, s
      ensures s in Symbols(c) <==> Defines(c, s)
    {
      SymbolsDefined(c, s);
    }
  }

  /** Every occurrence of `all` is in `a` or in `b`, once. */
  ghost predicate Partition(a: seq<Candidate>, b: seq<Candidate>, all: seq<Candidate>) {
    multiset(a) + multiset(b) == multiset(all)
  }

  /**
   * The chosen files are free of conflicts; every file is chosen or skipped, once; each skipped one
   * would bring a conflict, with a chosen file that comes before it.
   */
  lemma SelectionTheorem(cs: seq<Candidate>)
    ensures forall i, j :: 0 <= i < j < |Targets(cs, |cs|)| ==> !BothDefine(Targets(cs, |cs|)[i], Targets(cs, |cs|)[j])
    ensures Partition(Targets(cs, |cs|), Skipped(cs, |cs|), cs)
    ensures forall i: nat :: i < |cs| && !Chosen(cs, i) ==>
              exists j: nat :: j < i && Chosen(cs, j) && cs[j] in Targets(cs, |cs|) && BothDefine(cs[j], cs[i])
  {
    hide Chosen, BothDefine, ConflictFree, Targets, Skipped;
    TargetsConflictFree(cs, |cs|);
    ConflictFreeIff(Targets(cs, |cs|));
    SelectionPartitions(cs, |cs|);
    assert cs[..|cs|] == cs;
    forall i: nat | i < |cs| && !Chosen(cs, i)
      ensures exists j: nat :: j < i && Chosen(cs, j) && cs[j] in Targets(cs, |cs|) && BothDefine(cs[j], cs[i])
    {
      ChosenIff(cs, i);
      var j: nat :| j < i && Chosen(cs, j) && BothDefine(cs[j], cs[i]);
      TargetsMember(cs, |cs|, cs[j]);
    }
  }

  lemma {:induction false} SelectionPartitions(cs: seq<Candidate>, n: nat)
    requires n <= |cs|
    ensures Partition(Targets(cs, n), Skipped(cs, n), cs[..n])
  {
    if n > 0 {
      hide Partition, Chosen, Targets, Skipped;
      SelectionPartitions(cs, n - 1);
      SelectionStep(cs, n);
      if Chosen(cs, n - 1) {
        OneChosen(Targets(cs, n - 1), Skipped(cs, n - 1), cs[..n - 1], cs[n - 1]);
      } else {
        OneSkipped(Targets(cs, n - 1), Skipped(cs, n - 1), cs[..n - 1], cs[n - 1]);
      }
    }
  }

  lemma SelectionStep(cs: seq<Candidate>, n: nat)
    requires 0 < n <= |cs|
    ensures cs[..n] == cs[..n - 1] + [cs[n - 1]]
    ensures Chosen(cs, n - 1) ==> Targets(cs, n) == Targets(cs, n - 1) + [cs[n - 1]] && Skipped(cs, n) == Skipped(cs, n - 1)
    ensures !Chosen(cs, n - 1) ==> Targets(cs, n) == Targets(cs, n - 1) && Skipped(cs, n) == Skipped(cs, n - 1) + [cs[n - 1]]
  {
    hide Chosen;
  }

  lemma OneChosen(a: seq<Candidate>, b: seq<Candidate>, all: seq<Candidate>, c: Candidate)
    requires Partition(a, b, all)
    ensures Partition(a + [c], b, all + [c])
  {
  }

  lemma OneSkipped(a: seq<Candidate>, b: seq<Candidate>, all: seq<Candidate>, c: Candidate)
    requires Partition(a, b, all)
    ensures Partition(a, b + [c], all + [c])
  {
  }

  lemma {:induction false} TargetsConflictFree(cs: seq<Candidate>, n: nat)
    requires n <= |cs|
    ensures ConflictFree(Targets(cs, n))
  {
    hide Shares;
    if n > 0 {
      TargetsConflictFree(cs, n - 1);
      if Chosen(cs, n - 1) {
        var before, last := Targets(cs, n - 1), cs[n - 1];
        forall k | 0 <= k < |before|
          ensures !Shares(before[k], last)
        {
          TargetsMember(cs, n - 1, before[k]);
        }
        ConflictFreeSnoc(before, last);
      }
    }
  }

  lemma ConflictFreeSnoc(cs: seq<Candidate>, c: Candidate)
    requires ConflictFree(cs) && forall k :: 0 <= k < |cs| ==> !Shares(cs[k], c)
    ensures ConflictFree(cs + [c])
  {
    hide Shares;
  }

  /** Nothing skipped could be linked as well: one more file would share a symbol with a target. */
  lemma Maximal(cs: seq<Candidate>, c: Candidate)
    requires c in Skipped(cs, |cs|)
    ensures exists t :: t in Targets(cs, |cs|) && BothDefine(t, c)
  {
    hide BothDefine, Targets, Skipped, Chosen;
    SkippedMember(cs, |cs|, c);
    SelectionTheorem(cs);
    var i: nat :| i < |cs| && !Chosen(cs, i) && cs[i] == c;
    var j: nat :| j < i && Chosen(cs, j) && cs[j] in Targets(cs, |cs|) && BothDefine(cs[j], cs[i]);
    assert cs[j] in Targets(cs, |cs|);
  }

  /** A file whose symbols could not be listed is always linked, and so is one without definitions. */
  lemma UnlistedChosen(cs: seq<Candidate>, i: nat)
    requires i < |cs| && forall s :: !Defines(cs[i], s)
    ensures Chosen(cs, i)
  {
    ChosenIff(cs, i);
  }

  /** Each symbol seen belongs to exactly one chosen file, the one it is recorded with. */
  lemma OwnerUnique(cs: seq<Candidate>, seen: map<string, Candidate>, s: string, k: nat)
    requires Owns(seen, Targets(cs, |cs|))
    requires k < |Targets(cs, |cs|)| && Defines(Targets(cs, |cs|)[k], s)
    ensures s in seen && seen[s] == Targets(cs, |cs|)[k]
    ensures forall m :: 0 <= m < |Targets(cs, |cs|)| && Defines(Targets(cs, |cs|)[m], s) ==> m == k
  {
    hide Defines, Targets;
    var ts := Targets(cs, |cs|);
    SelectionTheorem(cs);
    forall m: nat | m < |ts|
      ensures Defines(ts[m], s) ==> m == k
    {
      if m < k {
        NotBoth(ts, m, k, s);
      } else if k < m {
        NotBoth(ts, k, m, s);
      }
    }
  }

  lemma NotBoth(cs: seq<Candidate>, i: nat, j: nat, s: string)
    requires i < j < |cs| && !BothDefine(cs[i], cs[j])
    ensures !Defines(cs[i], s) || !Defines(cs[j], s)
  {
    hide Defines;
  }
}
