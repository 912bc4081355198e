/**
 * The `create` command: it assembles `deploy-artifact` from a project whose
 * dependencies are already installed, without touching git.
 */
module ArtifactCreate {
  import opened Outcomes
  import opened Php
  import opened FileTree
  import opened Shell
  import opened BaseCommand
  import opened ArtifactCopy

  /** What `generateArtifact()` always copies, in this order. */
  const RequiredPaths: seq<string> := ["config", "drush", "vendor", "scripts", "composer.json", "composer.lock"]

  /** What it copies only when `file_exists()` holds, in this order. */
  const OptionalPaths: seq<string> := ["docroot", "web", "public_html"]

  /**
   * `generateArtifact()`: `mkdir -p deploy-artifact`, the clean check with the
   * git status output `status`, the clearing, the required copies, the
   * optional copies, and then the extra-paths branch, which fails whenever it
   * is entered.
   */
  function Generate(t: Tree, extraPaths: Option<string>, status: string): Effect {
    var copied := Assemble(t, status, RequiredPaths, OptionalPaths);
    if copied.outcome.Pass? && !EmptyOptional(extraPaths) then Effect(Fail(ExplodeError), copied.tree) else copied
  }

  /** The preparation, then copies of every name of `req`, then copies of the names of `opt` the project has. */
  function Assemble(t: Tree, status: string, req: seq<string>, opt: seq<string>): Effect {
    CopyPresent(CopyEach(Prepared(t, status), req), opt)
  }

  /** The artifact folder made, the clean check passed and the folder cleared, ready for the copies. */
  function Prepared(t: Tree, status: string): Effect {
    Clear(CheckClean(Run(t, MakeDirs(ArtifactFolder)), status))
  }

  // ---------------------------------------------------------------------
  // What the command builds

  /** The required names are distinct single visible names, none of them the artifact folder. */
  lemma RequiredFresh()
    ensures FreshNames(RequiredPaths, {})
  {
    var r := RequiredPaths;
    forall i | 0 <= i < |r| ensures SimpleName(r[i]) {
      assert '/' !in r[i];
    }
  }

  /** The optional names are such names too, and none of them is a required one. */
  lemma OptionalFresh()
    ensures FreshNames(OptionalPaths, NameSet(RequiredPaths))
  {
    var r, o := RequiredPaths, OptionalPaths;
    forall i | 0 <= i < |o| ensures SimpleName(o[i]) && o[i] !in r {
      assert '/' !in o[i];
    }
  }

  /**
   * Preparing fails only when something other than a directory is in the
   * artifact folder's place, or when the working copy is dirty. Otherwise it
   * leaves the folder holding only its former hidden entries, and the rest of
   * the project as it was.
   */
  lemma PreparedFacts(t: Tree, status: string)
    ensures !FolderUsable(t) ==> Prepared(t, status) == Effect(Fail(ProcessFailed("mkdir -p", ArtifactFolder)), t)
    ensures FolderUsable(t) && AssertRepositoryIsClean(status).Fail? ==> Prepared(t, status).outcome == Fail(DirtyTree)
    ensures Prepared(t, status).outcome.Pass? <==> FolderUsable(t) && AssertRepositoryIsClean(status).Pass?
    ensures Outside(Prepared(t, status).tree, ArtifactFolder) == Outside(t, ArtifactFolder)
    ensures Prepared(t, status).outcome.Pass? ==> Cleared(Prepared(t, status).tree)
    ensures Prepared(t, status).outcome.Pass? ==> forall q :: q in t && ArtifactFolder < q && Hidden(TopName(q)) ==>
              q in Prepared(t, status).tree && Prepared(t, status).tree[q] == t[q]
  {
    MakeFolderExact(t);
    var made := Run(t, MakeDirs(ArtifactFolder));
    var checked := CheckClean(made, status);
    if checked.outcome.Pass? {
      ClearEmpties(checked);
    }
  }

  /** The project's own entries beside the artifact folder are the same in any tree that agrees with it there. */
  lemma ProjectEntry(t: Tree, u: Tree, p: string)
    requires Outside(u, ArtifactFolder) == Outside(t, ArtifactFolder)
    requires SimpleName(p)
    ensures [p] in u <==> [p] in t
    ensures IsLink(u, [p]) <==> IsLink(t, [p])
    ensures Sub(u, [p]) == Sub(t, [p])
  {
    assert [p][0] != ArtifactFolder[0];
    OutsideAgree(t, u, ArtifactFolder, [p]);
    SubBeside(t, u, ArtifactFolder, [p]);
  }

  /** The same, for every name of a list at once. */
  lemma ProjectEntries(t: Tree, u: Tree, paths: seq<string>)
    requires Outside(u, ArtifactFolder) == Outside(t, ArtifactFolder)
    requires forall i :: 0 <= i < |paths| ==> SimpleName(paths[i])
    ensures forall i :: 0 <= i < |paths| ==> ([paths[i]] in u <==> [paths[i]] in t)
    ensures forall i :: 0 <= i < |paths| ==> (IsLink(u, [paths[i]]) <==> IsLink(t, [paths[i]]))
    ensures forall i :: 0 <= i < |paths| ==> Sub(u, [paths[i]]) == Sub(t, [paths[i]])
  {
    forall i | 0 <= i < |paths|
      ensures [paths[i]] in u <==> [paths[i]] in t
      ensures IsLink(u, [paths[i]]) <==> IsLink(t, [paths[i]])
      ensures Sub(u, [paths[i]]) == Sub(t, [paths[i]])
    {
      ProjectEntry(t, u, paths[i]);
    }
  }

  /**
   * The required copies after a successful preparation: they all succeed
   * exactly when the project has every one of `req`, the first missing one
   * names the failure, and on success each is an exact copy of the project's.
   */
  lemma RequiredStage(t: Tree, prep: Effect, req: seq<string>)
    requires prep.outcome.Pass? && Cleared(prep.tree)
    requires Outside(prep.tree, ArtifactFolder) == Outside(t, ArtifactFolder)
    requires FreshNames(req, {})
    ensures var r := CopyEach(prep, req);
      && (r.outcome.Pass? <==> forall i :: 0 <= i < |req| ==> [req[i]] in t)
      && (r.outcome.Fail? ==> FirstMissingCopied(t, req, r.outcome))
      && (r.outcome.Pass? ==> Holds(prep.tree, r.tree, NameSet(req)))
      && Outside(r.tree, ArtifactFolder) == Outside(t, ArtifactFolder)
  {
    var c := prep.tree;
    ClearedHolds(c);
    CopyEachHolds(c, prep, req, {});
    ProjectEntries(t, c, req);
    var r := CopyEach(prep, req);
    if r.outcome.Pass? {
      assert {} + NameSet(req) == NameSet(req);
    } else {
      FirstMissingSame(c, t, req, r.outcome);
    }
  }

  /** The outcome of the preparation and both kinds of copies, for any lists of fresh names. */
  lemma AssembleOutcome(t: Tree, status: string, req: seq<string>, opt: seq<string>)
    requires FreshNames(req, {}) && FreshNames(opt, NameSet(req))
    ensures Outside(Assemble(t, status, req, opt).tree, ArtifactFolder) == Outside(t, ArtifactFolder)
    ensures Assemble(t, status, req, opt).outcome.Pass? <==>
              FolderUsable(t) && AssertRepositoryIsClean(status).Pass? && (forall i :: 0 <= i < |req| ==> [req[i]] in t)
    ensures !FolderUsable(t) ==> Assemble(t, status, req, opt).outcome == Fail(ProcessFailed("mkdir -p", ArtifactFolder))
    ensures FolderUsable(t) && AssertRepositoryIsClean(status).Fail? ==> Assemble(t, status, req, opt).outcome == Fail(DirtyTree)
    ensures FolderUsable(t) && AssertRepositoryIsClean(status).Pass? && Assemble(t, status, req, opt).outcome.Fail? ==>
              FirstMissingCopied(t, req, Assemble(t, status, req, opt).outcome)
  {
    PreparedFacts(t, status);
    var prep := Prepared(t, status);
    if prep.outcome.Pass? {
      RequiredStage(t, prep, req);
      var r := CopyEach(prep, req);
      if r.outcome.Pass? {
        var copied := CopyPresentHolds(prep.tree, r, opt, NameSet(req));
      }
    }
  }

  /**
   * What one optional name becomes, in a tree `u` the copies made from the
   * cleared tree `c`, when its lookup stays out of the artifact folder: an
   * exact copy of the project's entry, link or not, when `file_exists()`
   * finds it, and nothing when it does not.
   */
  lemma OptionalCopied(t: Tree, c: Tree, u: Tree, done: set<string>, p: string)
    requires Outside(c, ArtifactFolder) == Outside(t, ArtifactFolder)
    requires Holds(c, u, done) && SimpleName(p)
    requires LookupAvoids(t, [p], MaxSymlinkHops, ArtifactFolder)
    requires LookupAvoids(c, [p], MaxSymlinkHops, ArtifactFolder) ==> (p in done <==> FileExists(c, [], p))
    ensures FileExists(t, [], p) ==> Sub(u, ArtifactFolder + [p]) == Sub(t, [p])
    ensures !FileExists(t, [], p) ==> Sub(u, ArtifactFolder + [p]) == map[]
  {
    FileExistsOutside(t, c, p);
    if p in done {
      ProjectEntry(t, c, p);
      HoldsCopied(c, u, done, p);
    } else {
      NotCopiedEmpty(c, u, done, p);
    }
  }

  /**
   * What the artifact folder holds when the copies have succeeded: an exact
   * copy of every name of `req`; of a name of `opt` whose lookup stays out
   * of the artifact folder, an exact copy (a symbolic link copied as the
   * link) when `file_exists()` finds it and nothing when it does not; an
   * exact copy of every name of `opt` that is a real file or directory;
   * nothing visible of any other name; and every hidden entry it held before.
   */
  lemma AssembleContents(t: Tree, status: string, req: seq<string>, opt: seq<string>)
    requires FreshNames(req, {}) && FreshNames(opt, NameSet(req))
    requires FolderUsable(t) && AssertRepositoryIsClean(status).Pass?
    requires forall i :: 0 <= i < |req| ==> [req[i]] in t
    ensures var r := Assemble(t, status, req, opt).tree;
      && IsDir(r, ArtifactFolder)
      && (forall i :: 0 <= i < |req| ==> Sub(r, ArtifactFolder + [req[i]]) == Sub(t, [req[i]]))
      && (forall i :: 0 <= i < |opt| && LookupAvoids(t, [opt[i]], MaxSymlinkHops, ArtifactFolder) && FileExists(t, [], opt[i]) ==>
            Sub(r, ArtifactFolder + [opt[i]]) == Sub(t, [opt[i]]))
      && (forall i :: 0 <= i < |opt| && LookupAvoids(t, [opt[i]], MaxSymlinkHops, ArtifactFolder) && !FileExists(t, [], opt[i]) ==>
            Sub(r, ArtifactFolder + [opt[i]]) == map[])
      && (forall i :: 0 <= i < |opt| && [opt[i]] in t && !IsLink(t, [opt[i]]) ==>
            Sub(r, ArtifactFolder + [opt[i]]) == Sub(t, [opt[i]]))
      && (forall q :: q in r && ArtifactFolder < q ==>
            Hidden(TopName(q)) || TopName(q) in req || (TopName(q) in opt && [TopName(q)] in t))
      && (forall q :: q in t && ArtifactFolder < q && Hidden(TopName(q)) ==> q in r && r[q] == t[q])
  {
    PreparedFacts(t, status);
    var prep := Prepared(t, status);
    var c := prep.tree;
    RequiredStage(t, prep, req);
    var copied := CopyPresentHolds(c, CopyEach(prep, req), opt, NameSet(req));
    ProjectEntries(t, c, req);
    ProjectEntries(t, c, opt);
    var r := Assemble(t, status, req, opt).tree;
    var done := NameSet(req) + copied;
    forall i | 0 <= i < |opt| && LookupAvoids(t, [opt[i]], MaxSymlinkHops, ArtifactFolder)
      ensures FileExists(t, [], opt[i]) ==> Sub(r, ArtifactFolder + [opt[i]]) == Sub(t, [opt[i]])
      ensures !FileExists(t, [], opt[i]) ==> Sub(r, ArtifactFolder + [opt[i]]) == map[]
    {
      assert opt[i] in done <==> opt[i] in copied;
      OptionalCopied(t, c, r, done, opt[i]);
    }
  }

  /**
   * The outcome of `generateArtifact()`: it succeeds exactly when the folder
   * can be made, the working copy is clean, every required path is in the
   * project and no extra paths were given; each failure has its own reason;
   * and nothing outside the artifact folder ever changes.
   */
  lemma GenerateOutcome(t: Tree, extraPaths: Option<string>, status: string)
    ensures Outside(Generate(t, extraPaths, status).tree, ArtifactFolder) == Outside(t, ArtifactFolder)
    ensures Generate(t, extraPaths, status).outcome.Pass? <==>
              FolderUsable(t) && AssertRepositoryIsClean(status).Pass?
              && (forall i :: 0 <= i < |RequiredPaths| ==> [RequiredPaths[i]] in t)
              && EmptyOptional(extraPaths)
    ensures !FolderUsable(t) ==> Generate(t, extraPaths, status).outcome == Fail(ProcessFailed("mkdir -p", ArtifactFolder))
    ensures FolderUsable(t) && AssertRepositoryIsClean(status).Fail? ==> Generate(t, extraPaths, status).outcome == Fail(DirtyTree)
    ensures FolderUsable(t) && AssertRepositoryIsClean(status).Pass?
            && (exists i :: 0 <= i < |RequiredPaths| && [RequiredPaths[i]] !in t) ==>
              FirstMissingCopied(t, RequiredPaths, Generate(t, extraPaths, status).outcome)
    ensures FolderUsable(t) && AssertRepositoryIsClean(status).Pass?
            && (forall i :: 0 <= i < |RequiredPaths| ==> [RequiredPaths[i]] in t) && !EmptyOptional(extraPaths) ==>
              Generate(t, extraPaths, status).outcome == Fail(ExplodeError)
  {
    RequiredFresh();
    OptionalFresh();
    AssembleOutcome(t, status, RequiredPaths, OptionalPaths);
  }

  /**
   * What `generateArtifact()` leaves in the artifact folder once the copies
   * have run, whether or not the extra-paths branch then fails: the required
   * paths; each optional path whose lookup stays out of the artifact folder,
   * copied as it is (a link as the link) exactly when `file_exists()` finds
   * it; the optional paths present as real files or directories; and the
   * hidden entries that were there.
   */
  lemma GenerateContents(t: Tree, extraPaths: Option<string>, status: string)
    requires FolderUsable(t) && AssertRepositoryIsClean(status).Pass?
    requires forall i :: 0 <= i < |RequiredPaths| ==> [RequiredPaths[i]] in t
    ensures var r := Generate(t, extraPaths, status).tree;
      && IsDir(r, ArtifactFolder)
      && (forall i :: 0 <= i < |RequiredPaths| ==> Sub(r, ArtifactFolder + [RequiredPaths[i]]) == Sub(t, [RequiredPaths[i]]))
      && (forall i :: 0 <= i < |OptionalPaths| && LookupAvoids(t, [OptionalPaths[i]], MaxSymlinkHops, ArtifactFolder) && FileExists(t, [], OptionalPaths[i]) ==>
            Sub(r, ArtifactFolder + [OptionalPaths[i]]) == Sub(t, [OptionalPaths[i]]))
      && (forall i :: 0 <= i < |OptionalPaths| && LookupAvoids(t, [OptionalPaths[i]], MaxSymlinkHops, ArtifactFolder) && !FileExists(t, [], OptionalPaths[i]) ==>
            Sub(r, ArtifactFolder + [OptionalPaths[i]]) == map[])
      && (forall i :: 0 <= i < |OptionalPaths| && [OptionalPaths[i]] in t && !IsLink(t, [OptionalPaths[i]]) ==>
            Sub(r, ArtifactFolder + [OptionalPaths[i]]) == Sub(t, [OptionalPaths[i]]))
      && (forall q :: q in r && ArtifactFolder < q ==>
            Hidden(TopName(q)) || TopName(q) in RequiredPaths || (TopName(q) in OptionalPaths && [TopName(q)] in t))
      && (forall q :: q in t && ArtifactFolder < q && Hidden(TopName(q)) ==> q in r && r[q] == t[q])
  {
    RequiredFresh();
    OptionalFresh();
    AssembleContents(t, status, RequiredPaths, OptionalPaths);
  }

  /**
   * The layout the optional list keeps: `public_html` a symbolic link to
   * `web` ends up in the artifact as that same link.
   */
  lemma LinkedPublicHtmlCopied(t: Tree, extraPaths: Option<string>, status: string)
    requires FolderUsable(t) && AssertRepositoryIsClean(status).Pass?
    requires forall i :: 0 <= i < |RequiredPaths| ==> [RequiredPaths[i]] in t
    requires [OptionalPaths[2]] in t && t[[OptionalPaths[2]]] == Symlink(OptionalPaths[1])
    requires [OptionalPaths[1]] in t && !IsLink(t, [OptionalPaths[1]])
    ensures Sub(Generate(t, extraPaths, status).tree, ArtifactFolder + [OptionalPaths[2]]) == Sub(t, [OptionalPaths[2]])
    ensures ArtifactFolder + [OptionalPaths[2]] in Generate(t, extraPaths, status).tree
    ensures Generate(t, extraPaths, status).tree[ArtifactFolder + [OptionalPaths[2]]] == Symlink(OptionalPaths[1])
  {
    OptionalFresh();
    SiblingLinkExists(t, OptionalPaths[2], OptionalPaths[1]);
    GenerateContents(t, extraPaths, status);
    var r := Generate(t, extraPaths, status).tree;
    var a := ArtifactFolder + [OptionalPaths[2]];
    assert a + [] == a && [OptionalPaths[2]] + [] == [OptionalPaths[2]];
    assert [] in Sub(t, [OptionalPaths[2]]);
  }

  // ---------------------------------------------------------------------
  // The command object

  class CreateCommand {
    /** The `extra-paths` option; `initialize()` sets it before anything else runs. */
    var extraPaths: Option<string>

    constructor ()
      ensures extraPaths.None?
    {
      extraPaths := None;
    }

    /** `initialize()`: the option is stored, then the root-location and clean checks run. */
    method Initialize(disk: Disk, extraPathsOption: Option<string>, status: string) returns (o: Outcome)
      modifies this
      ensures extraPaths == extraPathsOption
      ensures o == Preflight(disk.tree, status)
    {
      extraPaths := extraPathsOption;
      o := AssertRootLocation(disk.tree);
      if o.Fail? {
        return;
      }
      o := AssertRepositoryIsClean(status);
    }

    /** `createArtifactFolder()`. */
    method CreateArtifactFolder(disk: Disk) returns (o: Outcome)
      modifies disk
      ensures Effect(o, disk.tree) == Run(old(disk.tree), MakeDirs(ArtifactFolder))
    {
      o := disk.RunCommand(MakeDirs(ArtifactFolder));
    }

    /** `generateArtifact()`, step by step; the first failure ends it, as an exception would. */
    method GenerateArtifact(disk: Disk, status: string) returns (o: Outcome)
      modifies disk
      ensures Effect(o, disk.tree) == Generate(old(disk.tree), extraPaths, status)
    {
      o := CreateArtifactFolder(disk);
      ghost var made := Effect(o, disk.tree);
      if o.Fail? {
        return;
      }
      o := AssertRepositoryIsClean(status);
      if o.Fail? {
        return;
      }
      o := disk.RunCommand(RemoveMatches(ArtifactFolder));
      if o.Fail? {
        o := Fail(CleanupFailed);
        return;
      }
      ghost var cleared := Effect(o, disk.tree);
      assert cleared == Clear(CheckClean(made, status));
      o := CopyRequired(disk);
      if o.Fail? {
        return;
      }
      o := CopyOptional(disk, OptionalPaths);
      if o.Fail? {
        return;
      }
      if !EmptyOptional(extraPaths) {
        o := Fail(ExplodeError);
      }
    }

    /** The six `copy()` calls of `generateArtifact()`, in the order of `RequiredPaths`. */
    method CopyRequired(disk: Disk) returns (o: Outcome)
      modifies disk
      ensures Effect(o, disk.tree) == CopyEach(Effect(Pass, old(disk.tree)), RequiredPaths)
    {
      CopyEachSix(Effect(Pass, disk.tree), RequiredPaths);
      o := CopyInto(disk, RequiredPaths[0]);  // config
      if o.Fail? {
        return;
      }
      o := CopyInto(disk, RequiredPaths[1]);  // drush
      if o.Fail? {
        return;
      }
      o := CopyInto(disk, RequiredPaths[2]);  // vendor
      if o.Fail? {
        return;
      }
      o := CopyInto(disk, RequiredPaths[3]);  // scripts
      if o.Fail? {
        return;
      }
      o := CopyInto(disk, RequiredPaths[4]);  // composer.json
      if o.Fail? {
        return;
      }
      o := CopyInto(disk, RequiredPaths[5]);  // composer.lock
    }

    /** The `foreach` over `$optional_paths`: each is copied only `if (file_exists($file))`. */
    method CopyOptional(disk: Disk, paths: seq<string>) returns (o: Outcome)
      modifies disk
      ensures Effect(o, disk.tree) == CopyPresent(Effect(Pass, old(disk.tree)), paths)
    {
      ghost var start := Effect(Pass, disk.tree);
      o := Pass;
      var j := 0;
      assert paths[..0] == [];
      while j < |paths|
        invariant 0 <= j <= |paths|
        invariant Effect(o, disk.tree) == CopyPresent(start, paths[..j])
        invariant o.Pass?
      {
        CopyPresentNext(start, paths, j);
        if FileExists(disk.tree, [], paths[j]) {
          o := CopyInto(disk, paths[j]);
          if o.Fail? {
            CopyPresentStops(start, paths, j + 1);
            return;
          }
        }
        j := j + 1;
      }
      assert paths[..j] == paths;
    }
  }
}
