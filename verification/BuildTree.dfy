/**
 * The alternate build tree: `ensure_build` as a protocol over the file system, one atomic action
 * at a time, so that a run can be aborted and the root tree reconfigured between any two actions.
 * A configuration hash is the empty string when the root has no `ac_cs_config` line.
 */
module BuildTree {
  import opened Common

  /** The tree `apatchy configure` and `make` work on. */
  datatype Root = Root(configHash: string, hasMakefile: bool, mentionsSelf: bool, hasLibmain: bool)

  datatype Objects = CopiedFromRoot | BuiltHere

  /**
   * The alternate tree. `sources` are the hashes the root had while it was copied; `finished` says
   * that a `make` has run to its end on a complete, patched and cleaned copy.
   */
  datatype Tree = Tree(sources: set<string>, complete: bool, hasMakefile: bool, pathsOk: bool,
                       libmain: Option<Objects>, finished: bool, hashFile: Option<string>)

  /** Where a run is: about to take the named action. */
  datatype Pc = Idle
    | EnsureFirst | CopyFirst | CheckPaths | EnsureSecond | CopySecond
    | ReadHash | Compare | EnsureThird | CopyThird
    | FastPath | Patch | Clean | Make | Truncate | Write | Returned

  datatype State = State(root: Root, alt: Option<Tree>, pc: Pc, current: string)

  /** What a copy interrupted half-way has brought over. */
  datatype Partial = Partial(hasMakefile: bool, pathsOk: bool, libmain: bool)

  /**
   * What can happen next: a run starts, takes its next action, or is aborted (`left` being the
   * library it leaves behind while cleaning or building); the root is reconfigured; or, where
   * deletion is not atomic, a run is aborted while deleting and leaves `remains`.
   */
  datatype Event =
    | Start
    | Advance(partial: Partial)
    | Abort(left: Option<Objects>)
    | Reconfigure(root: Root)
    | AbortDelete(remains: Tree)

  function FullCopy(sources: set<string>, r: Root): Tree {
    Tree(sources, true, r.hasMakefile, r.mentionsSelf, if r.hasLibmain then Some(CopiedFromRoot) else None, false, None)
  }

  function HalfCopy(r: Root, p: Partial): Tree {
    Tree({r.configHash}, false, p.hasMakefile, p.pathsOk, if p.libmain then Some(CopiedFromRoot) else None, false, None)
  }

  predicate NeedsRecreate(t: Tree) {
    t.hasMakefile && !t.pathsOk
  }

  /** Copies the root into place if there is no alternate tree. */
  function BeginCopy(s: State, p: Partial, copying: Pc, done: Pc): State {
    if s.alt == None then s.(alt := Some(HalfCopy(s.root, p)), pc := copying) else s.(pc := done)
  }

  function EndCopy(s: State, done: Pc): State {
    if s.alt == None then s else s.(alt := Some(FullCopy(s.alt.value.sources, s.root)), pc := done)
  }

  function Take(s: State, p: Partial): State {
    match s.pc
    case EnsureFirst => BeginCopy(s, p, CopyFirst, CheckPaths)
    case CopyFirst => EndCopy(s, CheckPaths)
    case EnsureSecond => BeginCopy(s, p, CopySecond, ReadHash)
    case CopySecond => EndCopy(s, ReadHash)
    case ReadHash => s.(current := s.root.configHash, pc := Compare)
    case EnsureThird => BeginCopy(s, p, CopyThird, FastPath)
    case CopyThird => EndCopy(s, FastPath)
    case _ => if s.alt == None then s else TakeOnTree(s, s.alt.value)
  }

  /** `make` takes a library it finds for up to date. */
  function Made(libmain: Option<Objects>): Option<Objects> {
    if libmain == None then Some(BuiltHere) else libmain
  }

  function TakeOnTree(s: State, t: Tree): State {
    match s.pc
    case CheckPaths => if NeedsRecreate(t) then s.(alt := None, pc := EnsureSecond) else s.(pc := ReadHash)
    case Compare =>
      if t.hashFile == Some(s.current) then s.(pc := FastPath) else s.(alt := None, pc := EnsureThird)
    case FastPath => s.(pc := if t.libmain.Some? && t.hashFile.Some? then Returned else Patch)
    case Patch => s.(pc := Clean)
    case Clean => s.(alt := Some(t.(libmain := None, finished := false)), pc := Make)
    case Make => s.(alt := Some(t.(libmain := Made(t.libmain), finished := t.complete)), pc := Truncate)
    case Truncate => s.(alt := Some(t.(hashFile := Some(""))), pc := Write)
    case Write => s.(alt := Some(t.(hashFile := Some(s.current))), pc := Returned)
    case _ => s
  }

  predicate Running(s: State) {
    s.pc != Idle && s.pc != Returned
  }

  predicate Copying(pc: Pc) {
    pc in {CopyFirst, CopySecond, CopyThird}
  }

  /** The run's next action deletes the tree. */
  predicate AboutToDelete(s: State) {
    s.alt.Some? &&
    ((s.pc == CheckPaths && NeedsRecreate(s.alt.value)) || (s.pc == Compare && s.alt.value.hashFile != Some(s.current)))
  }

  /** `left` is what a deletion of `t` may leave: no file that was not there. */
  predicate PartOf(left: Tree, t: Tree) {
    && left == t.(complete := false, hasMakefile := left.hasMakefile, libmain := left.libmain, hashFile := left.hashFile)
    && (left.hasMakefile ==> t.hasMakefile)
    && (left.libmain == None || left.libmain == t.libmain)
    && (left.hashFile == None || left.hashFile == t.hashFile)
  }

  /** An event that cannot happen in a state changes nothing. */
  function Apply(s: State, e: Event): State {
    match e
    case Start => if Running(s) then s else s.(pc := EnsureFirst)
    case Advance(p) => if Running(s) then Take(s, p) else s
    case Abort(left) =>
      if !Running(s) then s
      else if s.pc in {Clean, Make} && s.alt.Some? then
        s.(pc := Idle, alt := Some(s.alt.value.(libmain := left, finished := false)))
      else s.(pc := Idle)
    case Reconfigure(r) =>
      if Copying(s.pc) && s.alt.Some? then
        s.(root := r, alt := Some(s.alt.value.(sources := s.alt.value.sources + {r.configHash})))
      else s.(root := r)
    case AbortDelete(remains) =>
      if AboutToDelete(s) && PartOf(remains, s.alt.value) then s.(pc := Idle, alt := Some(remains)) else s
  }

  function Run(s: State, es: seq<Event>): State {
    if es == [] then s else Apply(Run(s, es[..|es| - 1]), es[|es| - 1])
  }

  lemma {:induction false} RunConcat(s: State, a: seq<Event>, b: seq<Event>)
    ensures Run(s, a + b) == Run(Run(s, a), b)
  {
    if b == [] {
      assert a + b == a;
    } else {
      assert (a + b)[..|a + b| - 1] == a + b[..|b| - 1];
      RunConcat(s, a, b[..|b| - 1]);
    }
  }

  // ---- What runs keep, and which events they keep it through ----

  /** A hash file marks a finished build: root objects never pass for it, and it is never missing. */
  ghost predicate Marked(t: Tree) {
    t.hashFile.Some? ==> t.finished && t.complete && t.libmain == Some(BuiltHere)
  }

  /** What a run has made of the tree by the time it takes the given action. */
  ghost predicate Prepared(t: Tree, pc: Pc, current: string) {
    match pc
    case CopyFirst | CopySecond | CopyThird => t.hashFile == None
    case FastPath => t.complete && t.hashFile in {None, Some(current)}
    case Patch | Clean => t.complete && t.hashFile == None
    case Make => t.complete && t.hashFile == None && t.libmain == None
    case Truncate => t.hashFile == None && t.finished && t.complete && t.libmain == Some(BuiltHere)
    case Write => t.hashFile == Some("")
    case Returned => t.hashFile == Some(current)
    case _ => true
  }

  ghost predicate CommitInv(s: State) {
    && (s.pc in {EnsureSecond, EnsureThird} ==> s.alt == None)
    && (s.pc !in {Idle, EnsureFirst, EnsureSecond, EnsureThird} ==> s.alt.Some?)
    && (s.alt.Some? ==> Marked(s.alt.value) && Prepared(s.alt.value, s.pc, s.current))
  }

  /** A tree with a non-empty stored hash was copied from a root with that hash and no other. */
  ghost predicate Honest(t: Tree) {
    t.hashFile.Some? && t.hashFile.value != "" ==> t.sources == {t.hashFile.value}
  }

  /** No stored hash, not even an empty one, lies, unless it is just being written. */
  ghost predicate Exactly(t: Tree, pc: Pc) {
    t.hashFile.Some? && pc != Write ==> t.sources == {t.hashFile.value}
  }

  /** The run works on a copy it made after reading the hash. */
  predicate OnOwnCopy(t: Tree, pc: Pc) {
    pc in {CopyThird, Patch, Clean, Make, Truncate, Write} || (pc == FastPath && t.hashFile == None)
  }

  /** The run has checked the tree's paths, or has copied it since. */
  predicate PastCheck(pc: Pc) {
    pc in {ReadHash, Compare, FastPath, Patch, Clean, Make, Truncate, Write, Returned}
  }

  /**
   * Five promises: what a hash file is worth; that non-empty stored hashes are true; that all are; that
   * besides every copy a run works on is one of the configuration whose hash the run read; and that no
   * run works on or returns a Makefile that names another directory.
   */
  datatype Promise = Committed | Truthful | Exact | OwnCopies | Relocated

  ghost predicate Holds(promise: Promise, s: State) {
    CommitInv(s) && (s.alt.Some? ==>
                       var t := s.alt.value;
                       match promise
                       case Committed => true
                       case Truthful => Honest(t)
                       case Exact => Exactly(t, s.pc)
                       case OwnCopies => Honest(t) && (OnOwnCopy(t, s.pc) ==> t.sources == {s.current})
                       case Relocated => PastCheck(s.pc) && t.hasMakefile ==> t.pathsOk)
  }

  /** A deletion aborted half-way has removed the hash file. */
  predicate HashGone(s: State, e: Event) {
    e.AbortDelete? && AboutToDelete(s) && PartOf(e.remains, s.alt.value) ==> e.remains.hashFile == None
  }

  /** The event, if it commits a hash or leaves a torn one, does so for a tree that was copied from it. */
  predicate CommitsTrue(promise: Promise, s: State, e: Event, copied: set<string>) {
    && (e.Advance? && s.pc == Write && (promise == Exact || s.current != "") ==> copied == {s.current})
    && (e.Abort? && s.pc == Write && promise == Exact ==> copied == {""})
  }

  /** The event does not put another hash than the one read into the run's own copy. */
  predicate CopiesTrue(s: State, e: Event) {
    && (e.Advance? && s.pc == EnsureThird ==> s.root.configHash == s.current)
    && (e.Reconfigure? && s.pc == CopyThird ==> e.root.configHash == s.current)
  }

  /** A root whose Makefile, if it has one, names its own directory, so that copying can rewrite it. */
  predicate Rewritable(r: Root) {
    r.hasMakefile ==> r.mentionsSelf
  }

  predicate Harmless(promise: Promise, s: State, e: Event) {
    && HashGone(s, e)
    && match promise
       case Committed => true
       case OwnCopies => CopiesTrue(s, e)
       case Relocated => e.Advance? && s.pc in {CopySecond, CopyThird} ==> Rewritable(s.root)
       case _ => s.alt.Some? ==> CommitsTrue(promise, s, e, s.alt.value.sources)
  }

  lemma TakeKeepsCommit(s: State, p: Partial)
    requires CommitInv(s)
    ensures CommitInv(Take(s, p))
  {
  }

  lemma ActionKeepsIff(promise: Promise, s: State, p: Partial)
    requires Holds(promise, s)
    ensures Holds(promise, Apply(s, Advance(p))) <==> Harmless(promise, s, Advance(p))
  {
    TakeKeepsCommit(s, p);
  }

  /** An event keeps a promise if and only if it is harmless. */
  lemma KeepsIff(promise: Promise, s: State, e: Event)
    requires Holds(promise, s)
    ensures Holds(promise, Apply(s, e)) <==> Harmless(promise, s, e)
  {
    match e
    case Advance(p) => ActionKeepsIff(promise, s, p);
    case Abort(_) =>
    case Start =>
    case Reconfigure(_) =>
    case AbortDelete(_) =>
  }

  predicate AllHarmless(promise: Promise, s: State, es: seq<Event>) {
    es == [] ||
    (AllHarmless(promise, s, es[..|es| - 1]) && Harmless(promise, Run(s, es[..|es| - 1]), es[|es| - 1]))
  }

  /** The promise holds in every state of the run. */
  ghost predicate Throughout(promise: Promise, s: State, es: seq<Event>) {
    forall k: nat :: k <= |es| ==> Holds(promise, Run(s, es[..k]))
  }

  /**
   * Whatever is aborted or reconfigured whenever, a promise that holds at the start holds in every
   * state of the run if and only if every event of the run is harmless to it.
   */
  lemma {:induction false} PromiseTheorem(promise: Promise, s: State, es: seq<Event>)
    requires Holds(promise, s)
    ensures Throughout(promise, s, es) <==> AllHarmless(promise, s, es)
  {
    hide Holds, Harmless, Run;
    if es == [] {
      NoEvents(s);
    } else {
      var front, e := es[..|es| - 1], es[|es| - 1];
      PromiseTheorem(promise, s, front);
      ThroughoutSnoc(promise, s, es);
      RunSnoc(s, front, e);
      assert es == front + [e];
      if Throughout(promise, s, front) {
        assert front[..|front|] == front;
        KeepsIff(promise, Run(s, front), e);
      }
    }
  }

  lemma NoEvents(s: State)
    ensures Run(s, []) == s
  {
  }

  lemma RunSnoc(s: State, es: seq<Event>, e: Event)
    ensures Run(s, es + [e]) == Apply(Run(s, es), e)
  {
    assert (es + [e])[..|es|] == es;
  }

  lemma ThroughoutSnoc(promise: Promise, s: State, es: seq<Event>)
    requires es != []
    ensures Throughout(promise, s, es) <==> Throughout(promise, s, es[..|es| - 1]) && Holds(promise, Run(s, es))
  {
    hide Holds, Run;
    var front := es[..|es| - 1];
    assert es[..|es|] == es;
    if Throughout(promise, s, es) {
      forall k: nat | k <= |front|
        ensures Holds(promise, Run(s, front[..k]))
      {
        PrefixOfFront(es, k);
      }
    }
    if Throughout(promise, s, front) && Holds(promise, Run(s, es)) {
      forall k: nat | k <= |es|
        ensures Holds(promise, Run(s, es[..k]))
      {
        if k < |es| {
          PrefixOfFront(es, k);
        }
      }
    }
  }

  lemma PrefixOfFront(es: seq<Event>, k: nat)
    requires k < |es|
    ensures es[..|es| - 1][..k] == es[..k]
  {
  }

  /**
   * A hash file marks a complete and finished build in every state of a run, with a library built
   * there, if and only if no aborted deletion leaves the hash file behind.
   */
  lemma CommitTheorem(s: State, es: seq<Event>)
    requires CommitInv(s)
    ensures Throughout(Committed, s, es) <==> AllHarmless(Committed, s, es)
    ensures AllHarmless(Committed, s, es) ==> CommitInv(Run(s, es))
  {
    PromiseTheorem(Committed, s, es);
    LastHolds(Committed, s, es);
  }

  lemma LastHolds(promise: Promise, s: State, es: seq<Event>)
    ensures Throughout(promise, s, es) ==> Holds(promise, Run(s, es))
  {
    hide Holds, Run;
    assert es[..|es|] == es;
  }

  /** A run that returns under a promise about stored hashes leaves a finished build of the hash it read. */
  lemma HonestTheorem(promise: Promise, s: State, es: seq<Event>)
    requires promise in {Truthful, Exact, OwnCopies} && Holds(promise, s) && AllHarmless(promise, s, es)
    ensures var t := Run(s, es);
            && Holds(promise, t)
            && (t.pc == Returned ==>
                  && t.alt.Some?
                  && t.alt.value.finished && t.alt.value.libmain == Some(BuiltHere)
                  && t.alt.value.hashFile == Some(t.current)
                  && (t.current != "" || promise == Exact ==> t.alt.value.sources == {t.current}))
  {
    hide Run;
    PromiseTheorem(promise, s, es);
    LastHolds(promise, s, es);
  }

  /**
   * Over roots that can be rewritten, no run works on or returns a tree whose Makefile names another
   * directory, such as a finished build that was moved: it is copied and built again.
   */
  lemma RelocatedTheorem(s: State, es: seq<Event>)
    requires Holds(Relocated, s) && AllHarmless(Committed, s, es)
    requires Rewritable(s.root) && forall e :: e in es && e.Reconfigure? ==> Rewritable(e.root)
    ensures Throughout(Relocated, s, es)
    ensures var t := Run(s, es); t.pc == Returned ==> t.alt.Some? && (t.alt.value.hasMakefile ==> t.alt.value.pathsOk)
  {
    hide Run;
    RewritableHarmless(s, es);
    PromiseTheorem(Relocated, s, es);
    LastHolds(Relocated, s, es);
  }

  lemma {:induction false} RewritableHarmless(s: State, es: seq<Event>)
    requires AllHarmless(Committed, s, es)
    requires Rewritable(s.root) && forall e :: e in es && e.Reconfigure? ==> Rewritable(e.root)
    ensures AllHarmless(Relocated, s, es) && Rewritable(Run(s, es).root)
  {
    hide HashGone, Rewritable;
    if es != [] {
      var front, e := es[..|es| - 1], es[|es| - 1];
      assert e in es;
      RewritableHarmless(s, front);
      RootAfter(Run(s, front), e);
    }
  }

  lemma RootAfter(s: State, e: Event)
    ensures Apply(s, e).root == if e.Reconfigure? then e.root else s.root
  {
  }

  // ---- The same in terms of the root's history ----

  /** The hashes the root had while the run's own copy, the latest one made after reading a hash, was made. */
  ghost function CopiedHashes(s: State, es: seq<Event>): set<string> {
    if es == [] then if s.alt.Some? then s.alt.value.sources else {} else
    var front, e := es[..|es| - 1], es[|es| - 1];
    var t := Run(s, front);
    if t.pc == EnsureThird && e.Advance? then {t.root.configHash}
    else if t.pc == CopyThird && e.Reconfigure? then CopiedHashes(s, front) + {e.root.configHash}
    else CopiedHashes(s, front)
  }

  /** That history is what the tree was copied from, while a run works on its own copy. */
  lemma {:induction false} CopiedIsSources(s: State, es: seq<Event>)
    requires CommitInv(s) && AllHarmless(Committed, s, es)
    ensures var t := Run(s, es);
            t.alt.Some? && OnOwnCopy(t.alt.value, t.pc) ==> t.alt.value.sources == CopiedHashes(s, es)
  {
    hide CommitInv, HashGone;
    if es != [] {
      var front, e := es[..|es| - 1], es[|es| - 1];
      CopiedIsSources(s, front);
      CommitTheorem(s, front);
      var t := Run(s, front);
      OwnCopyStep(t, e);
    }
  }

  /** A run comes to its own copy only by making it, and only reconfiguring during the copy changes its sources. */
  lemma OwnCopyStep(s: State, e: Event)
    requires CommitInv(s)
    ensures var t := Apply(s, e);
            t.alt.Some? && OnOwnCopy(t.alt.value, t.pc) ==>
              if s.pc == EnsureThird && e.Advance? then t.alt.value.sources == {s.root.configHash} else
              && s.alt.Some? && OnOwnCopy(s.alt.value, s.pc)
              && t.alt.value.sources == s.alt.value.sources +
                   (if s.pc == CopyThird && e.Reconfigure? then {e.root.configHash} else {})
  {
  }

  /** No hash is committed, or torn, for a copy made while the root had another, and no deletion leaves one. */
  ghost predicate Sound(promise: Promise, s: State, es: seq<Event>) {
    es == [] ||
    (var front, e := es[..|es| - 1], es[|es| - 1];
     var t := Run(s, front);
     Sound(promise, s, front) && HashGone(t, e) && CommitsTrue(promise, t, e, CopiedHashes(s, front)))
  }

  lemma {:induction false} SoundIsHarmless(promise: Promise, s: State, es: seq<Event>)
    requires promise in {Truthful, Exact} && CommitInv(s)
    ensures Sound(promise, s, es) <==> AllHarmless(promise, s, es)
    ensures AllHarmless(promise, s, es) ==> AllHarmless(Committed, s, es)
  {
    hide HashGone, CommitsTrue, CommitInv, CopiedHashes;
    if es != [] {
      var front, e := es[..|es| - 1], es[|es| - 1];
      SoundIsHarmless(promise, s, front);
      if AllHarmless(promise, s, front) {
        CopiedIsSources(s, front);
        CommitTheorem(s, front);
        SourcesMatter(promise, Run(s, front), e, CopiedHashes(s, front));
      }
    }
  }

  lemma SourcesMatter(promise: Promise, s: State, e: Event, copied: set<string>)
    requires CommitInv(s)
    requires s.alt.Some? && OnOwnCopy(s.alt.value, s.pc) ==> s.alt.value.sources == copied
    ensures CommitsTrue(promise, s, e, copied) <==> (s.alt.Some? ==> CommitsTrue(promise, s, e, s.alt.value.sources))
  {
  }

  /**
   * All stored hashes, or all non-empty ones, are true in every state of a run if and only if no
   * aborted deletion leaves a hash file, and whenever a hash is committed the root had that hash and
   * no other while it was copied, and, for all to be true, whenever a write is torn, none.
   */
  lemma HistoryTheorem(promise: Promise, s: State, es: seq<Event>)
    requires promise in {Truthful, Exact} && Holds(promise, s)
    ensures Throughout(promise, s, es) <==> Sound(promise, s, es)
  {
    hide Run, Sound, AllHarmless;
    PromiseTheorem(promise, s, es);
    SoundIsHarmless(promise, s, es);
  }

  /** From the deletion before its own copy to the end of its writing, a run that is neither aborted nor started again. */
  predicate OneSegment(pc: Pc) {
    pc in {EnsureThird, CopyThird, FastPath, Patch, Clean, Make, Truncate, Write, Returned}
  }

  predicate Undisturbed(es: seq<Event>) {
    forall e :: e in es ==> !e.Start? && !e.Abort?
  }

  /**
   * Over a run from before its own copy on, whatever is reconfigured meanwhile, the tree it works on
   * is a copy of the configuration whose hash it read if and only if no event put another hash there.
   */
  lemma {:induction false} OwnCopyIff(s: State, es: seq<Event>)
    requires CommitInv(s) && s.pc == EnsureThird && Undisturbed(es)
    ensures var t := Run(s, es);
            && OneSegment(t.pc) && t.current == s.current && CommitInv(t)
            && if t.pc == EnsureThird then AllHarmless(OwnCopies, s, es)
               else t.alt.Some? && t.alt.value.sources != {} &&
                    (t.alt.value.sources == {t.current} <==> AllHarmless(OwnCopies, s, es))
  {
    if es != [] {
      var front, e := es[..|es| - 1], es[|es| - 1];
      assert es == front + [e];
      OwnCopyIff(s, front);
      SegmentStep(Run(s, front), e);
    }
  }

  lemma SegmentStep(s: State, e: Event)
    requires CommitInv(s) && OneSegment(s.pc) && !e.Start? && !e.Abort?
    requires s.pc != EnsureThird ==> s.alt.Some? && s.alt.value.sources != {}
    ensures var t := Apply(s, e);
            && OneSegment(t.pc) && t.current == s.current && CommitInv(t)
            && (s.pc != EnsureThird ==> t.pc != EnsureThird)
            && (t.pc != EnsureThird ==> t.alt.Some? && t.alt.value.sources != {})
            && (t.pc == EnsureThird ==> Harmless(OwnCopies, s, e))
            && (t.pc != EnsureThird ==>
                  (t.alt.value.sources == {t.current} <==>
                   (s.pc == EnsureThird || s.alt.value.sources == {s.current}) && Harmless(OwnCopies, s, e)))
  {
    if e.Reconfigure? && s.pc == CopyThird {
      OneHashMore(s.alt.value.sources, e.root.configHash, s.current);
    }
  }

  lemma OneHashMore(sources: set<string>, more: string, current: string)
    requires sources != {}
    ensures sources + {more} == {current} <==> sources == {current} && more == current
  {
    var x :| x in sources;
    assert x in sources + {more} && more in sources + {more};
    if sources + {more} == {current} {
      assert forall y :: y in sources ==> y in {current};
    }
  }

  // ---- A root that keeps still while a run is exposed ----

  /** The run is between reading the root's hash and the end of its copy. */
  predicate Exposed(pc: Pc) {
    pc in {Compare, EnsureThird, CopyThird}
  }

  /** The root keeps its hash from the moment a run reads it until the run's copy is complete. */
  predicate Steady(s: State, e: Event) {
    e.Reconfigure? && Exposed(s.pc) ==> e.root.configHash == s.current
  }

  ghost predicate HonestInv(s: State) {
    Holds(OwnCopies, s) && (Exposed(s.pc) ==> s.root.configHash == s.current)
  }

  /** Such a root is enough for every promise but the exact one. */
  lemma SteadyKeeps(s: State, e: Event)
    requires HonestInv(s) && HashGone(s, e) && Steady(s, e)
    ensures HonestInv(Apply(s, e))
    ensures forall promise :: promise !in {Exact, Relocated} ==> Harmless(promise, s, e)
  {
    KeepsIff(OwnCopies, s, e);
  }

  predicate AllSteady(s: State, es: seq<Event>) {
    es == [] ||
    (var t := Run(s, es[..|es| - 1]);
     AllSteady(s, es[..|es| - 1]) && HashGone(t, es[|es| - 1]) && Steady(t, es[|es| - 1]))
  }

  lemma SteadyTheorem(promise: Promise, s: State, es: seq<Event>)
    requires promise !in {Exact, Relocated} && HonestInv(s) && AllSteady(s, es)
    ensures HonestInv(Run(s, es)) && Throughout(promise, s, es)
  {
    hide HonestInv, Harmless, Steady, HashGone, Throughout;
    SteadyRuns(promise, s, es);
    HonestHolds(promise, s);
    PromiseTheorem(promise, s, es);
  }

  lemma HonestHolds(promise: Promise, s: State)
    requires promise !in {Exact, Relocated} && HonestInv(s)
    ensures Holds(promise, s)
  {
  }

  lemma {:induction false} SteadyRuns(promise: Promise, s: State, es: seq<Event>)
    requires promise !in {Exact, Relocated} && HonestInv(s) && AllSteady(s, es)
    ensures HonestInv(Run(s, es)) && AllHarmless(promise, s, es)
  {
    hide HonestInv, Harmless, Steady, HashGone;
    if es != [] {
      SteadyRuns(promise, s, es[..|es| - 1]);
      SteadyKeeps(Run(s, es[..|es| - 1]), es[|es| - 1]);
    }
  }

  // ---- The conditions are needed ----

  /** Without `make clean` a library copied from the root would be committed as built here. */
  lemma CleanNeeded(s: State, p: Partial)
    requires s.pc == Make && s.alt.Some? && s.alt.value.libmain == Some(CopiedFromRoot)
    ensures var t := Take(Take(s, p), p);
            t.pc == Write && t.alt.Some? && t.alt.value.libmain == Some(CopiedFromRoot) && !CommitInv(t)
  {
  }

  function Steps(s: State, n: nat, p: Partial): State
    decreases n
  {
    if n == 0 then s else Steps(Apply(s, Advance(p)), n - 1, p)
  }

  /** The next action of a run that goes on undisturbed. */
  lemma Next(s: State, n: nat, p: Partial, t: State)
    requires n > 0 && Running(s) && Take(s, p) == t
    ensures Steps(s, n, p) == Steps(t, n - 1, p)
  {
  }

  lemma {:induction false} StepsInTwo(s: State, m: nat, n: nat, p: Partial)
    ensures Steps(s, m + n, p) == Steps(Steps(s, m, p), n, p)
    decreases m
  {
    hide Apply;
    if m > 0 {
      StepsInTwo(Apply(s, Advance(p)), m - 1, n, p);
    }
  }

  /** A run that reaches the fast path without a hash file builds the tree it has. */
  lemma ReachesTruncate(s: State, p: Partial)
    requires s.pc == FastPath && s.alt.Some? && s.alt.value.hashFile == None && s.alt.value.complete
    ensures Steps(s, 4, p) == s.(pc := Truncate, alt := Some(s.alt.value.(libmain := Some(BuiltHere), finished := true)))
  {
    hide Steps;
    var t := s.alt.value;
    var cleaned := t.(libmain := None, finished := false);
    var built := t.(libmain := Some(BuiltHere), finished := true);
    Next(s, 4, p, s.(pc := Patch));
    Next(s.(pc := Patch), 3, p, s.(pc := Clean));
    Next(s.(pc := Clean), 2, p, s.(pc := Make, alt := Some(cleaned)));
    Next(s.(pc := Make, alt := Some(cleaned)), 1, p, s.(pc := Truncate, alt := Some(built)));
    NoSteps(s.(pc := Truncate, alt := Some(built)), p);
  }

  lemma NoSteps(s: State, p: Partial)
    ensures Steps(s, 0, p) == s
  {
  }

  /** And then commits it. */
  lemma FinishBuild(s: State, p: Partial)
    requires s.pc == FastPath && s.alt.Some? && s.alt.value.hashFile == None && s.alt.value.complete
    ensures var t := Steps(s, 6, p);
            && t.pc == Returned && t.root == s.root && t.current == s.current
            && t.alt == Some(s.alt.value.(libmain := Some(BuiltHere), finished := true, hashFile := Some(s.current)))
  {
    hide Steps;
    ReachesTruncate(s, p);
    StepsInTwo(s, 4, 2, p);
    FinishCommit(Steps(s, 4, p), p);
  }

  lemma FinishCommit(s: State, p: Partial)
    requires s.pc == Truncate && s.alt.Some?
    ensures Steps(s, 2, p) == s.(pc := Returned, alt := Some(s.alt.value.(hashFile := Some(s.current))))
  {
    var s1 := s.(pc := Write, alt := Some(s.alt.value.(hashFile := Some(""))));
    Next(s, 2, p, s1);
    Next(s1, 1, p, s.(pc := Returned, alt := Some(s.alt.value.(hashFile := Some(s.current)))));
  }

  /** A run over a tree with the right paths, the root's hash and a library serves it untouched. */
  lemma ServeTree(s: State, t: Tree, p: Partial)
    requires s.pc == EnsureFirst && s.alt == Some(t)
    requires !NeedsRecreate(t) && t.hashFile == Some(s.root.configHash) && t.libmain.Some?
    ensures Steps(s, 5, p) == s.(pc := Returned, current := s.root.configHash)
  {
  }

  /**
   * A root reconfigured after its hash was read and before it is copied: the run returns normally
   * with the hash it read, and that hash is honest if and only if the reconfiguration kept it.
   */
  lemma ReconfiguredBeforeCopy(s: State, r: Root, p: Partial)
    requires CommitInv(s) && s.pc == EnsureThird && s.current != ""
    ensures var t := Steps(Apply(s, Reconfigure(r)), 8, p);
            && t.pc == Returned && t.alt.Some?
            && t.alt.value.hashFile == Some(s.current)
            && t.alt.value.sources == {r.configHash}
            && (Honest(t.alt.value) <==> r.configHash == s.current)
  {
    hide Steps;
    var s0 := Apply(s, Reconfigure(r));
    var s1 := Take(s0, p);
    Next(s0, 8, p, s1);
    Next(s1, 7, p, Take(s1, p));
    FinishBuild(Take(s1, p), p);
  }

  /** Such a moment comes in every first run over a root whose Makefile names its own directory. */
  lemma FirstRunReachesCopy(root: Root, p: Partial)
    requires Rewritable(root)
    ensures var s := State(root, None, Idle, "");
            var t := Steps(Apply(s, Start), 5, p);
            && Holds(Exact, s) && HonestInv(s) && HonestInv(t)
            && t.pc == EnsureThird && t.alt == None && t.root == root && t.current == root.configHash
  {
    hide Steps;
    var s0 := State(root, None, EnsureFirst, "");
    var s1 := Take(s0, p);
    var s2 := Take(s1, p);
    Next(s0, 5, p, s1);
    Next(s1, 4, p, s2);
    Next(s2, 3, p, s2.(pc := ReadHash));
    Next(s2.(pc := ReadHash), 2, p, s2.(pc := Compare, current := root.configHash));
    NextLast(s2.(pc := Compare, current := root.configHash), p);
  }

  lemma NextLast(s: State, p: Partial)
    requires s.pc == Compare && s.alt.Some? && s.alt.value.hashFile == None
    ensures Steps(s, 1, p) == s.(alt := None, pc := EnsureThird)
  {
    Next(s, 1, p, s.(alt := None, pc := EnsureThird));
  }

  /** The same while the copy is being made. */
  lemma ReconfiguredDuringCopy(s: State, r: Root, p: Partial)
    requires Holds(OwnCopies, s) && s.pc == CopyThird && s.current != ""
    ensures var t := Steps(Apply(s, Reconfigure(r)), 7, p);
            && t.pc == Returned && t.alt.Some?
            && t.alt.value.hashFile == Some(s.current)
            && (Honest(t.alt.value) <==> r.configHash == s.current)
  {
    hide Steps;
    var s0 := Apply(s, Reconfigure(r));
    var s1 := Take(s0, p);
    assert r.configHash in s1.alt.value.sources;
    Next(s0, 7, p, s1);
    FinishBuild(s1, p);
  }

  /**
   * A run aborted between truncating the hash file and writing it leaves an empty hash; a root that
   * then loses its configuration line is served that tree, which is a build of that root's
   * configuration if and only if there was no hash to write.
   */
  lemma EmptyHashAccepted(s: State, r: Root, p: Partial)
    requires Holds(OwnCopies, s) && s.pc == Write && !NeedsRecreate(s.alt.value)
    requires r.configHash == ""
    ensures var t := Steps(Apply(Apply(Apply(s, Abort(None)), Reconfigure(r)), Start), 5, p);
            && t.pc == Returned && t.root == r && t.current == "" && t.alt == s.alt
            && t.alt.value.hashFile == Some(t.current)
            && (t.alt.value.sources == {t.current} <==> s.current == "")
  {
    hide Steps;
    var s0 := Apply(Apply(Apply(s, Abort(None)), Reconfigure(r)), Start);
    ServeTree(s0, s.alt.value, p);
  }

  /** Every first run over a root whose Makefile names its own directory comes to that moment. */
  lemma FirstRunReachesWrite(root: Root, p: Partial)
    requires Rewritable(root)
    ensures var t := Steps(Apply(State(root, None, Idle, ""), Start), 12, p);
            && HonestInv(t) && t.pc == Write && t.root == root && t.current == root.configHash
            && !NeedsRecreate(t.alt.value) && t.alt.value.sources == {root.configHash}
  {
    hide Steps;
    var s0 := Apply(State(root, None, Idle, ""), Start);
    FirstRunReachesCopy(root, p);
    var s1 := Steps(s0, 5, p);
    StepsInTwo(s0, 5, 7, p);
    CopyReachesWrite(s1, p);
  }

  lemma CopyReachesWrite(s: State, p: Partial)
    requires s.pc == EnsureThird && s.alt == None
    ensures Steps(s, 7, p) ==
            s.(pc := Write, alt := Some(FullCopy({s.root.configHash}, s.root).(
                                          libmain := Some(BuiltHere), finished := true, hashFile := Some(""))))
  {
    hide Steps;
    var s1 := Take(s, p);
    var s2 := Take(s1, p);
    Next(s, 7, p, s1);
    Next(s1, 6, p, s2);
    ReachesTruncate(s2, p);
    StepsInTwo(s2, 4, 1, p);
    var s3 := Steps(s2, 4, p);
    Next(s3, 1, p, s3.(pc := Write, alt := Some(s3.alt.value.(hashFile := Some("")))));
    NoSteps(Take(s3, p), p);
  }

  /** So from nothing a root without a configuration line can be served another one's build. */
  lemma TornWriteServed(root: Root, r: Root, p: Partial)
    requires Rewritable(root) && root.configHash != "" && r.configHash == ""
    ensures var w := Steps(Apply(State(root, None, Idle, ""), Start), 12, p);
            var t := Steps(Apply(Apply(Apply(w, Abort(None)), Reconfigure(r)), Start), 5, p);
            && t.pc == Returned && t.root == r && t.alt.Some?
            && t.alt.value.hashFile == Some(r.configHash) && t.alt.value.sources == {root.configHash} != {r.configHash}
  {
    hide Steps;
    FirstRunReachesWrite(root, p);
    EmptyHashAccepted(Steps(Apply(State(root, None, Idle, ""), Start), 12, p), r, p);
  }

  /**
   * A deletion aborted half-way may leave the hash file without the library, and may leave both and
   * then serve the rest of the tree once the root is back at the stored hash.
   */
  lemma TornDeleteLosesLibrary(s: State)
    requires CommitInv(s) && AboutToDelete(s) && s.alt.value.hashFile.Some?
    ensures exists left ::
              var t := Apply(s, AbortDelete(left));
              t.alt.Some? && t.alt.value.hashFile.Some? && t.alt.value.libmain == None
  {
    var left := s.alt.value.(complete := false, libmain := None);
    assert PartOf(left, s.alt.value);
    assert Apply(s, AbortDelete(left)).alt == Some(left);
  }

  /** It leaves nothing that was not there, and may as well have removed the hash file, which does no harm. */
  lemma TornDeleteLeaves(s: State, left: Tree)
    requires CommitInv(s) && AboutToDelete(s)
    ensures var t := Apply(s, AbortDelete(left)).alt;
            && t.Some?
            && (t.value.hashFile.Some? ==> t.value.hashFile == s.alt.value.hashFile)
            && (t.value.libmain.Some? ==> t.value.libmain == s.alt.value.libmain)
            && (t.value.hasMakefile ==> s.alt.value.hasMakefile)
    ensures var rest := s.alt.value.(complete := false, hashFile := None);
            var t := Apply(s, AbortDelete(rest));
            t.pc == Idle && t.alt == Some(rest) && CommitInv(t)
  {
  }

  lemma TornDeleteServed(s: State, r: Root, p: Partial)
    requires CommitInv(s) && s.pc == Compare && AboutToDelete(s)
    requires s.alt.value.hashFile == Some(r.configHash) && !NeedsRecreate(s.alt.value)
    ensures exists left ::
              var t := Steps(Apply(Apply(Apply(s, AbortDelete(left)), Reconfigure(r)), Start), 5, p);
              t.pc == Returned && t.alt.Some? && !t.alt.value.complete
  {
    var left := s.alt.value.(complete := false);
    assert PartOf(left, s.alt.value);
    hide Steps;
    assert Apply(s, AbortDelete(left)) == s.(pc := Idle, alt := Some(left));
    var s0 := Apply(Apply(Apply(s, AbortDelete(left)), Reconfigure(r)), Start);
    ServeTree(s0, left, p);
    var t := Steps(s0, 5, p);
    assert t.pc == Returned && t.alt == Some(left);
  }
}
