/**
 * `ensure_build` in the form the program has it: methods that change the file system in place and
 * stop where the process dies. Every action is proved to be the protocol's next step.
 */
module AlternateBuildTree {
  import opened Common
  import opened BuildTree

  /** An action that copies nothing. */
  const NO_COPY := Partial(false, false, false)

  class AlternateBuildTree {
    var root: Root
    var alt: Option<Tree>
    var life: nat  // actions left before the process dies or a command fails

    // where the run is, the hash it read, and the protocol events so far
    ghost var pc: Pc
    ghost var current: string
    ghost var events: seq<Event>
    ghost const begin: State

    ghost function Now(): State
      reads this
    {
      State(root, alt, pc, current)
    }

    /** The object is where the protocol's own events lead, and its hash file is honest. */
    ghost predicate Valid()
      reads this
    {
      && Now() == Run(begin, events)
      && (forall e <- events :: OwnEvent(e))
      && HonestInv(Now())
    }

    static ghost predicate OwnEvent(e: Event) {
      e.Start? || e.Advance? || e.Abort?
    }

    constructor (root: Root, alt: Option<Tree>, life: nat)
      requires HonestInv(State(root, alt, Idle, ""))
      ensures Valid() && Now() == State(root, alt, Idle, "")
      ensures begin == Now() && this.life == life
    {
      this.root, this.alt, this.life := root, alt, life;
      pc, current, events := Idle, "", [];
      begin := State(root, alt, Idle, "");
    }

    ghost method Record(e: Event)
      requires Now() == Apply(Run(begin, events), e) && OwnEvent(e)
      requires HonestInv(Run(begin, events)) && forall e <- events :: OwnEvent(e)
      modifies this`events
      ensures Valid()
    {
      hide Run, Apply, HonestInv;
      KeepsHonest(Run(begin, events), e);
      RunSnoc(begin, events, e);
      events := events + [e];
    }

    /** One action's worth of life; without it the run is aborted, a build leaving what it leaves. */
    method Alive(building: bool := false, left: Option<Objects> := None) returns (ok: bool)
      requires Valid() && Running(Now())
      requires building == (pc == Clean || pc == Make) && (building ==> alt.Some?)
      modifies this
      ensures Valid() && root == old(root)
      ensures ok <==> old(life) > 0
      ensures ok ==> Now() == old(Now()) && life == old(life) - 1
      ensures !ok ==> pc == Idle
      ensures !ok ==> alt == if building then Some(old(alt).value.(libmain := left, finished := false)) else old(alt)
    {
      hide HonestInv, Run;
      if life == 0 {
        ok := false;
        if building {
          alt := Some(alt.value.(libmain := left, finished := false));
        }
        pc := Idle;
        Record(Abort(left));
      } else {
        life := life - 1;
        ok := true;
      }
    }

    method EnsureTree(p: Partial, ghost copying: Pc, ghost done: Pc) returns (ok: bool)
      requires Valid()
      requires (pc, copying, done) in {(EnsureFirst, CopyFirst, CheckPaths), (EnsureSecond, CopySecond, ReadHash),
                                       (EnsureThird, CopyThird, FastPath)}
      modifies this
      ensures Valid() && root == old(root)
      ensures var cost := if old(alt) == None then 2 else 1;
              (ok <==> old(life) >= cost) && (ok ==> life == old(life) - cost)
      ensures !ok ==> pc == Idle
      ensures ok ==> pc == done && current == old(current) && alt.Some? && (old(alt).Some? ==> alt == old(alt))
      ensures ok && old(alt) == None ==> alt == Some(Copied())
    {
      hide HonestInv, Run;
      if alt == None {
        ok := CopyTree(p, copying, done);
      } else {
        ok := Alive();
        if ok {
          pc := done;
          Record(Advance(p));
        }
      }
    }

    /** What a copy of the root is: a library comes along, and the hash file does not. */
    ghost function Copied(): Tree
      reads this
    {
      Tree({root.configHash}, true, root.hasMakefile, root.mentionsSelf,
           if root.hasLibmain then Some(CopiedFromRoot) else None, false, None)
    }

    /** shutil.copytree and rewriting the paths: dying in between leaves half a tree. */
    method CopyTree(p: Partial, ghost copying: Pc, ghost done: Pc) returns (ok: bool)
      requires Valid() && alt == None
      requires (pc, copying, done) in {(EnsureFirst, CopyFirst, CheckPaths), (EnsureSecond, CopySecond, ReadHash),
                                       (EnsureThird, CopyThird, FastPath)}
      modifies this
      ensures Valid() && root == old(root)
      ensures (ok <==> old(life) >= 2) && (ok ==> life == old(life) - 2)
      ensures !ok ==> pc == Idle
      ensures ok ==> pc == done && current == old(current) && alt == Some(Copied())
      ensures old(life) == 1 ==> alt.Some? && !alt.value.complete && alt.value.hashFile == None
    {
      hide HonestInv, Run;
      ok := StartCopy(p, copying);
      if !ok {
        return;
      }
      ok := EndCopy(done);
    }

    method StartCopy(p: Partial, ghost copying: Pc) returns (ok: bool)
      requires Valid() && alt == None
      requires (pc, copying) in {(EnsureFirst, CopyFirst), (EnsureSecond, CopySecond), (EnsureThird, CopyThird)}
      modifies this
      ensures Valid() && root == old(root)
      ensures (ok <==> old(life) >= 1) && (ok ==> life == old(life) - 1)
      ensures !ok ==> pc == Idle
      ensures ok ==> pc == copying && current == old(current)
      ensures ok ==> alt == Some(Tree({root.configHash}, false, p.hasMakefile, p.pathsOk,
                                      if p.libmain then Some(CopiedFromRoot) else None, false, None))
    {
      hide HonestInv, Run;
      ok := Alive();
      if !ok {
        return;
      }
      alt := Some(HalfCopy(root, p));
      pc := copying;
      Record(Advance(p));
    }

    method EndCopy(ghost done: Pc) returns (ok: bool)
      requires Valid() && alt.Some? && alt.value.sources == {root.configHash}
      requires (pc, done) in {(CopyFirst, CheckPaths), (CopySecond, ReadHash), (CopyThird, FastPath)}
      modifies this
      ensures Valid() && root == old(root)
      ensures (ok <==> old(life) >= 1) && (ok ==> life == old(life) - 1)
      ensures !ok ==> pc == Idle && alt == old(alt)
      ensures ok ==> pc == done && current == old(current) && alt == Some(Copied())
    {
      hide HonestInv, Run;
      ok := Alive();
      if !ok {
        return;
      }
      alt := Some(FullCopy(alt.value.sources, root));
      pc := done;
      Record(Advance(NO_COPY));
    }

    /** shutil.rmtree, or nothing if the tree may stay. */
    method RemoveTreeIf(stale: bool, ghost removed: Pc, ghost kept: Pc) returns (ok: bool)
      requires Valid() && alt.Some?
      requires (pc, removed, kept) in {(CheckPaths, EnsureSecond, ReadHash), (Compare, EnsureThird, FastPath)}
      requires stale == AboutToDelete(Now())
      modifies this
      ensures Valid() && root == old(root)
      ensures (ok <==> old(life) >= 1) && (ok ==> life == old(life) - 1)
      ensures !ok ==> pc == Idle
      ensures ok ==> current == old(current)
      ensures ok ==> if stale then pc == removed && alt == None else pc == kept && alt == old(alt)
    {
      hide HonestInv, Run;
      ok := Alive();
      if !ok {
        return;
      }
      if stale {
        alt := None;
        pc := removed;
      } else {
        pc := kept;
      }
      Record(Advance(NO_COPY));
    }

    method ConfigHash() returns (ok: bool, hash: string)
      requires Valid() && pc == ReadHash && alt.Some?
      modifies this
      ensures Valid() && root == old(root) && alt == old(alt)
      ensures (ok <==> old(life) >= 1) && (ok ==> life == old(life) - 1)
      ensures !ok ==> pc == Idle
      ensures ok ==> pc == Compare && hash == current == root.configHash
    {
      hide HonestInv, Run;
      hash := "";
      ok := Alive();
      if !ok {
        return;
      }
      hash := root.configHash;
      current := hash;
      pc := Compare;
      Record(Advance(NO_COPY));
    }

    /** Patching the build files, `make clean`, `make`, and the hash file. */
    method Rebuild(currentHash: string, left: Option<Objects>) returns (ok: bool)
      requires Valid() && pc == Patch && alt.Some? && currentHash == current
      modifies this
      ensures Valid() && root == old(root)
      ensures !ok ==> pc == Idle
      ensures (ok <==> old(life) >= 5) && (ok ==> life == old(life) - 5)
      ensures ok ==> pc == Returned && current == old(current)
      ensures ok ==> alt == Some(old(alt).value.(libmain := Some(BuiltHere), finished := old(alt).value.complete,
                                                 hashFile := Some(currentHash)))
    {
      hide HonestInv, Run, Take, Apply;
      ok := PatchFlags();
      if !ok {
        return;
      }
      ok := MakeClean(left);
      if !ok {
        return;
      }
      ok := MakeAll(left);
      if !ok {
        return;
      }
      ok := WriteHash(currentHash);
    }

    method PatchFlags() returns (ok: bool)
      requires Valid() && pc == Patch && alt.Some?
      modifies this
      ensures Valid() && root == old(root)
      ensures !ok ==> pc == Idle
      ensures (ok <==> old(life) >= 1) && (ok ==> life == old(life) - 1)
      ensures ok ==> pc == Clean && current == old(current) && alt == old(alt)
    {
      hide HonestInv, Run;
      ok := Alive();
      if !ok {
        return;
      }
      pc := Clean;
      Record(Advance(NO_COPY));
    }

    /** `make clean`. */
    method MakeClean(left: Option<Objects>) returns (ok: bool)
      requires Valid() && pc == Clean && alt.Some?
      modifies this
      ensures Valid() && root == old(root)
      ensures !ok ==> pc == Idle && alt == Some(old(alt).value.(libmain := left, finished := false))
      ensures (ok <==> old(life) >= 1) && (ok ==> life == old(life) - 1)
      ensures ok ==> pc == Make && current == old(current)
      ensures ok ==> alt == Some(old(alt).value.(libmain := None, finished := false))
    {
      hide HonestInv, Run;
      ok := Alive(true, left);
      if !ok {
        return;
      }
      alt := Some(alt.value.(libmain := None, finished := false));
      pc := Make;
      Record(Advance(NO_COPY));
    }

    /** `make`, which builds a library only where it finds none. */
    method MakeAll(left: Option<Objects>) returns (ok: bool)
      requires Valid() && pc == Make && alt.Some?
      modifies this
      ensures Valid() && root == old(root)
      ensures !ok ==> pc == Idle && alt == Some(old(alt).value.(libmain := left, finished := false))
      ensures (ok <==> old(life) >= 1) && (ok ==> life == old(life) - 1)
      ensures ok ==> pc == Truncate && current == old(current)
      ensures ok ==> alt == Some(old(alt).value.(libmain := Made(old(alt).value.libmain), finished := old(alt).value.complete))
    {
      hide HonestInv, Run;
      ok := Alive(true, left);
      if !ok {
        return;
      }
      alt := Some(alt.value.(libmain := Made(alt.value.libmain), finished := alt.value.complete));
      pc := Truncate;
      Record(Advance(NO_COPY));
    }

    /** Two actions: dying before the first leaves the tree as it was, before the second an empty hash. */
    method WriteHash(currentHash: string) returns (ok: bool)
      requires Valid() && pc == Truncate && alt.Some? && currentHash == current
      modifies this
      ensures Valid() && root == old(root)
      ensures !ok ==> pc == Idle
      ensures (ok <==> old(life) >= 2) && (ok ==> life == old(life) - 2)
      ensures ok ==> pc == Returned && current == old(current) && alt == Some(old(alt).value.(hashFile := Some(currentHash)))
      ensures old(life) == 1 ==> alt == Some(old(alt).value.(hashFile := Some("")))
      ensures old(life) == 0 ==> alt == old(alt)
    {
      hide HonestInv, Run;
      ok := Alive();
      if !ok {
        return;
      }
      alt := Some(alt.value.(hashFile := Some("")));
      pc := Write;
      Record(Advance(NO_COPY));
      ok := Alive();
      if !ok {
        return;
      }
      alt := Some(alt.value.(hashFile := Some(currentHash)));
      pc := Returned;
      Record(Advance(NO_COPY));
    }

    /** The tree stores the root's hash, and its Makefile, if it has one, names its own directory. */
    predicate UpToDate(t: Tree)
      reads this
    {
      t.hashFile == Some(root.configHash) && (t.hasMakefile ==> t.pathsOk)
    }

    /**
     * Aborted or not, a run from an honest state leaves one; if it returns, the tree is a finished
     * build that stores the root's hash, and a build of that configuration if the root has one. A tree
     * that is up to date is returned as it was; any other, or none, becomes a new copy of the root, built.
     * The arguments are what an interrupted copy of each kind and an interrupted build leave behind.
     */
    method EnsureBuild(first: Partial, second: Partial, third: Partial, left: Option<Objects>) returns (ok: bool)
      requires Valid() && (pc == Idle || pc == Returned)
      modifies this
      ensures Valid() && root == old(root)
      ensures !ok ==> pc == Idle
      ensures ok ==> pc == Returned && alt.Some? && alt.value.finished && alt.value.libmain == Some(BuiltHere)
      ensures ok ==> alt.value.hashFile == Some(root.configHash)
      ensures ok && root.configHash != "" ==> alt.value.sources == {root.configHash}
      ensures ok && (root.hasMakefile ==> root.mentionsSelf) && alt.value.hasMakefile ==> alt.value.pathsOk
      ensures ok ==>
                alt == if old(alt.Some? && UpToDate(alt.value)) then old(alt)
                       else Some(Tree({root.configHash}, true, root.hasMakefile, root.mentionsSelf,
                                      Some(BuiltHere), true, Some(root.configHash)))
      ensures old(life) >= 15 || (old(life) >= 5 && old(alt.Some? && UpToDate(alt.value))) ==> ok
    {
      hide HonestInv, Run, Take, Apply;
      Begin();
      ok := EnsurePaths(first, second);
      if !ok {
        return;
      }
      var currentHash;
      ok, currentHash := EnsureCurrent(third);
      if !ok {
        return;
      }
      CurrentTree(Now());
      var ready;
      ok, ready := IsReady();
      if !ok {
        return;
      }
      if !ready {
        ok := Rebuild(currentHash, left);
        if !ok {
          return;
        }
      }
      ReturnedTree(Now());
    }

    /** A tree whose Makefile, if it has one, names its own directory stays; any other, or none, is copied anew. */
    method EnsurePaths(first: Partial, second: Partial) returns (ok: bool)
      requires Valid() && pc == EnsureFirst
      modifies this
      ensures Valid() && root == old(root)
      ensures !ok ==> pc == Idle
      ensures ok ==> pc == ReadHash
      ensures ok ==> alt == if old(alt.Some? && (alt.value.hasMakefile ==> alt.value.pathsOk)) then old(alt)
                            else Some(Copied())
      ensures old(life) >= 5 ==> ok && life >= old(life) - 5
      ensures old(life >= 2 && alt.Some? && (alt.value.hasMakefile ==> alt.value.pathsOk)) ==> ok && life == old(life) - 2
    {
      hide HonestInv, Run, Take, Apply;
      ok := EnsureTree(first, CopyFirst, CheckPaths);
      if !ok {
        return;
      }
      var stale := NeedsRecreate(alt.value);
      ok := RemoveTreeIf(stale, EnsureSecond, ReadHash);
      if !ok {
        return;
      }
      if stale {
        ok := EnsureTree(second, CopySecond, ReadHash);
      }
    }

    /** A tree that stores the root's hash stays; any other is copied anew. */
    method EnsureCurrent(third: Partial) returns (ok: bool, currentHash: string)
      requires Valid() && pc == ReadHash && alt.Some?
      modifies this
      ensures Valid() && root == old(root)
      ensures !ok ==> pc == Idle
      ensures ok ==> pc == FastPath && currentHash == current == root.configHash
      ensures ok ==> alt == if old(alt).value.hashFile == Some(root.configHash) then old(alt)
                            else Some(Copied())
      ensures old(life) >= 4 ==> ok && life >= old(life) - 4
      ensures old(life >= 2 && alt.value.hashFile == Some(root.configHash)) ==> ok && life == old(life) - 2
    {
      hide HonestInv, Run, Take, Apply;
      ok, currentHash := ConfigHash();
      if !ok {
        return;
      }
      var stale := alt.value.hashFile != Some(currentHash);
      ok := RemoveTreeIf(stale, EnsureThird, FastPath);
      if !ok {
        return;
      }
      if stale {
        ok := EnsureTree(third, CopyThird, FastPath);
      }
    }

    method Begin()
      requires Valid() && (pc == Idle || pc == Returned)
      modifies this
      ensures Valid() && root == old(root) && alt == old(alt) && life == old(life) && pc == EnsureFirst
    {
      hide HonestInv, Run;
      pc := EnsureFirst;
      Record(Start);
    }

    /** The fast path: the library and the hash file are both there. */
    method IsReady() returns (ok: bool, ready: bool)
      requires Valid() && pc == FastPath && alt.Some?
      modifies this
      ensures Valid() && root == old(root) && alt == old(alt)
      ensures (ok <==> old(life) >= 1) && (ok ==> life == old(life) - 1)
      ensures !ok ==> pc == Idle
      ensures ok ==> current == old(current) && pc == if ready then Returned else Patch
      ensures ok ==> (ready <==> alt.value.libmain.Some? && alt.value.hashFile.Some?)
    {
      hide HonestInv, Run;
      ready := false;
      ok := Alive();
      if !ok {
        return;
      }
      ready := alt.value.libmain.Some? && alt.value.hashFile.Some?;
      pc := if ready then Returned else Patch;
      Record(Advance(NO_COPY));
    }
  }

  lemma KeepsHonest(s: State, e: Event)
    requires HonestInv(s) && (e.Start? || e.Advance? || e.Abort?)
    ensures HonestInv(Apply(s, e))
  {
    hide Apply, HonestInv;
    SteadyKeeps(s, e);
  }

  lemma CurrentTree(s: State)
    requires HonestInv(s) && s.pc == FastPath
    ensures s.alt.Some? && (s.alt.value.hashFile.Some? ==> s.alt.value.libmain.Some?)
  {
  }

  lemma ReturnedTree(s: State)
    requires HonestInv(s) && s.pc == Returned
    ensures s.alt.Some? && s.alt.value.finished && s.alt.value.libmain == Some(BuiltHere)
    ensures s.alt.value.hashFile == Some(s.current)
    ensures s.current != "" ==> s.alt.value.sources == {s.current}
  {
  }
}
