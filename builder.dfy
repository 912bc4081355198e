/**
 * The `build` command: from a clean project it makes the artifact folder,
 * copies the codebase into it, links the docroot, grafts the `.git` of the
 * artifact repository into it and cleans it up for committing.
 */
module ArtifactBuild {
  import opened Outcomes
  import opened Php
  import opened FileTree
  import opened Shell
  import opened BaseCommand
  import opened ArtifactCopy
  import opened ArtifactCreate
  import opened GitSetup
  import opened GitIgnore
  import opened BuildSymlink

  /** What `generateArtifact()` copies, in this order. */
  function BuildCopies(docroot: string): (r: seq<string>)
    ensures |r| == 6 && r[4] == docroot
  {
    ["config", "drush", "vendor", "scripts", docroot, "patches"]
  }

  /** A docroot option the copies can take: one visible name, none of the other five. */
  predicate UsableDocroot(docroot: string) {
    SimpleName(docroot) && docroot != "config" && docroot != "drush" && docroot != "vendor"
    && docroot != "scripts" && docroot != "patches"
  }

  /** The names `gitSetup()` removes from the artifact, one `find` each, `CHANGELOG.txt` twice. */
  const FilesToClean: seq<string> := [
    "CHANGELOG.txt", "COPYRIGHT.txt", "INSTALL.txt", "INSTALL.mysql.txt", "INSTALL.pgsql.txt",
    "INSTALL.sqlite.txt", "LICENSE.txt", "README.txt", "CHANGELOG.txt", "UPDATE.txt", "USAGE.txt",
    "PATCHES.txt"]

  // ---------------------------------------------------------------------
  // initialize()

  /** `assertRootLocation()` of this command: the docroot option, `config` and `composer.json` must exist. */
  function BuildRootLocation(t: Tree, docroot: string): (o: Outcome)
    ensures o.Pass? <==> FileExists(t, [], docroot) && FileExists(t, [], "config") && FileExists(t, [], "composer.json")
    ensures o.Fail? ==> o == Fail(NotProjectRoot)
  {
    var paths := [docroot, "config", "composer.json"];
    assert paths[0] == docroot && paths[1] == "config" && paths[2] == "composer.json";
    if FirstMissing(t, [], paths).Some? then Fail(NotProjectRoot) else Pass
  }

  /**
   * The outcome of `initialize()`: a missing repository option breaks the
   * typed property, then the branch is detected, then the root location and
   * the clean check run.
   */
  function BuildInitialize(t: Tree, docroot: string, repository: Option<string>,
                           branchOutput: string, status: string): Outcome
  {
    if repository.None? then Fail(TypeError("string"))
    else match CurrentBranch(branchOutput)
      case Err(e) => Fail(e)
      case Ok(_) => BuildChecks(t, docroot, status)
  }

  /** The two checks `initialize()` ends with: the root location, then a clean working tree. */
  function BuildChecks(t: Tree, docroot: string, status: string): Outcome {
    var root := BuildRootLocation(t, docroot);
    if root.Fail? then root else AssertRepositoryIsClean(status)
  }

  /** `initialize()` passes exactly when every check passes; each failure names the first check that failed. */
  lemma BuildInitializeOutcome(t: Tree, docroot: string, repository: Option<string>,
                               branchOutput: string, status: string)
    ensures var o := BuildInitialize(t, docroot, repository, branchOutput, status);
      (o.Pass? <==> repository.Some? && CurrentBranch(branchOutput).Ok?
                    && BuildRootLocation(t, docroot).Pass? && AssertRepositoryIsClean(status).Pass?)
      && (repository.None? ==> o == Fail(TypeError("string")))
      && (repository.Some? && CurrentBranch(branchOutput).Err? ==> o == Fail(BranchNotDetected))
      && (repository.Some? && CurrentBranch(branchOutput).Ok? && BuildRootLocation(t, docroot).Fail? ==> o == Fail(NotProjectRoot))
      && (repository.Some? && CurrentBranch(branchOutput).Ok? && BuildRootLocation(t, docroot).Pass? ==> o == AssertRepositoryIsClean(status))
  {
  }

  // ---------------------------------------------------------------------
  // generateArtifact()

  /** `mkdir deploy-artifact`, without `-p`. */
  function MakeFolder(t: Tree): (e: Effect)
    ensures e.outcome.Pass? <==> ArtifactFolder !in t
    ensures e.outcome.Fail? ==> e == Effect(Fail(ProcessFailed("mkdir", ArtifactFolder)), t)
    ensures e.outcome.Pass? ==> e.tree == t[ArtifactFolder := Dir]
  {
    match Mkdir(t, ArtifactFolder)
    case Err(x) => Effect(Fail(x), t)
    case Ok(u) => Effect(Pass, u)
  }

  lemma RunMakeFolder(t: Tree)
    ensures Run(t, MakeDir(ArtifactFolder)) == MakeFolder(t)
  {
  }

  /** The folder made, the clean check passed and the folder emptied of its visible entries. */
  function BuildPrepared(t: Tree, status: string): Effect {
    Clear(CheckClean(MakeFolder(t), status))
  }

  /** The six copies after the preparation. */
  function BuildCopied(t: Tree, status: string, docroot: string): Effect {
    CopyEach(BuildPrepared(t, status), BuildCopies(docroot))
  }

  /**
   * `generateArtifact()`: the preparation, the six copies, the extra-paths
   * branch, which fails whenever it is entered, and the symlink step when
   * it is enabled.
   */
  function BuildGenerate(t: Tree, status: string, docroot: string, extraPaths: Option<string>,
                         generateSymlink: bool, symlink: string): Effect {
    var c := BuildCopied(t, status, docroot);
    if c.outcome.Fail? then c
    else if !EmptyOptional(extraPaths) then Effect(Fail(ExplodeError), c.tree)
    else if generateSymlink then MakeSymlink(c.tree, docroot, symlink)
    else c
  }

  /**
   * The preparation fails, changing nothing, whenever anything is already
   * in the artifact folder's place: a second build needs the previous
   * artifact removed first. Otherwise it fails only on a dirty working copy
   * and leaves an empty folder and the rest of the project as it was.
   */
  lemma BuildPreparedFacts(t: Tree, status: string)
    ensures ArtifactFolder in t ==> BuildPrepared(t, status) == Effect(Fail(ProcessFailed("mkdir", ArtifactFolder)), t)
    ensures ArtifactFolder !in t && AssertRepositoryIsClean(status).Fail? ==> BuildPrepared(t, status).outcome == Fail(DirtyTree)
    ensures BuildPrepared(t, status).outcome.Pass? <==> ArtifactFolder !in t && AssertRepositoryIsClean(status).Pass?
    ensures Outside(BuildPrepared(t, status).tree, ArtifactFolder) == Outside(t, ArtifactFolder)
    ensures BuildPrepared(t, status).outcome.Pass? ==> Cleared(BuildPrepared(t, status).tree)
  {
    var made := MakeFolder(t);
    var checked := CheckClean(made, status);
    if made.outcome.Pass? {
      assert Outside(made.tree, ArtifactFolder) == Outside(t, ArtifactFolder);
      if checked.outcome.Pass? {
        ClearEmpties(checked);
      }
    }
  }

  /** The six names are distinct single visible names when the docroot is usable. */
  lemma BuildCopiesFresh(docroot: string)
    requires UsableDocroot(docroot)
    ensures FreshNames(BuildCopies(docroot), {})
  {
    var r := BuildCopies(docroot);
    forall i | 0 <= i < |r| && i != 4 ensures SimpleName(r[i]) {
      assert '/' !in r[i];
    }
  }

  /**
   * The copies succeed exactly when the project has all six paths; the first
   * missing one names the failure; on success the folder holds an exact copy
   * of each and nothing else visible; nothing outside the folder changes.
   * (A previous artifact makes the preparation fail, so the folder starts
   * out new.)
   */
  lemma BuildCopiedFacts(t: Tree, status: string, docroot: string)
    requires UsableDocroot(docroot)
    requires ArtifactFolder !in t && AssertRepositoryIsClean(status).Pass?
    ensures var c := BuildCopied(t, status, docroot); var names := BuildCopies(docroot);
      && (c.outcome.Pass? <==> forall i :: 0 <= i < |names| ==> [names[i]] in t)
      && (c.outcome.Fail? ==> FirstMissingCopied(t, names, c.outcome))
      && Outside(c.tree, ArtifactFolder) == Outside(t, ArtifactFolder)
    ensures var c := BuildCopied(t, status, docroot); var names := BuildCopies(docroot);
      c.outcome.Pass? ==>
        (&& IsDir(c.tree, ArtifactFolder)
         && (forall i :: 0 <= i < |names| ==> Sub(c.tree, ArtifactFolder + [names[i]]) == Sub(t, [names[i]]))
         && (forall q :: q in c.tree && ArtifactFolder < q ==> Hidden(TopName(q)) || TopName(q) in names))
  {
    BuildPreparedFacts(t, status);
    BuildCopiesFresh(docroot);
    CopyStageFacts(t, BuildPrepared(t, status), BuildCopies(docroot));
  }

  /** The same, for any list of fresh names copied after any preparation that left a cleared folder. */
  lemma CopyStageFacts(t: Tree, prep: Effect, names: seq<string>)
    requires prep.outcome.Pass? && Cleared(prep.tree)
    requires Outside(prep.tree, ArtifactFolder) == Outside(t, ArtifactFolder)
    requires FreshNames(names, {})
    ensures var c := CopyEach(prep, names);
      && (c.outcome.Pass? <==> forall i :: 0 <= i < |names| ==> [names[i]] in t)
      && (c.outcome.Fail? ==> FirstMissingCopied(t, names, c.outcome))
      && Outside(c.tree, ArtifactFolder) == Outside(t, ArtifactFolder)
    ensures var c := CopyEach(prep, names);
      c.outcome.Pass? ==>
        (&& IsDir(c.tree, ArtifactFolder)
         && (forall i :: 0 <= i < |names| ==> Sub(c.tree, ArtifactFolder + [names[i]]) == Sub(t, [names[i]]))
         && (forall q :: q in c.tree && ArtifactFolder < q ==> Hidden(TopName(q)) || TopName(q) in names))
  {
    RequiredStage(t, prep, names);
    var c := CopyEach(prep, names);
    if c.outcome.Pass? {
      ProjectEntries(t, prep.tree, names);
    }
  }

  /**
   * The outcome of `generateArtifact()` once the folder is made and the copies
   * are through: the extra-paths branch always fails, and without a link the
   * step ends there.
   */
  lemma BuildGenerateOutcome(t: Tree, status: string, docroot: string, extraPaths: Option<string>,
                             generateSymlink: bool, symlink: string)
    ensures ArtifactFolder in t ==>
      BuildGenerate(t, status, docroot, extraPaths, generateSymlink, symlink) == Effect(Fail(ProcessFailed("mkdir", ArtifactFolder)), t)
    ensures BuildCopied(t, status, docroot).outcome.Pass? && !EmptyOptional(extraPaths) ==>
      BuildGenerate(t, status, docroot, extraPaths, generateSymlink, symlink) == Effect(Fail(ExplodeError), BuildCopied(t, status, docroot).tree)
    ensures BuildCopied(t, status, docroot).outcome.Pass? && EmptyOptional(extraPaths) && !generateSymlink ==>
      BuildGenerate(t, status, docroot, extraPaths, generateSymlink, symlink) == BuildCopied(t, status, docroot)
    ensures BuildCopied(t, status, docroot).outcome.Fail? ==>
      BuildGenerate(t, status, docroot, extraPaths, generateSymlink, symlink) == BuildCopied(t, status, docroot)
  {
    BuildPreparedFacts(t, status);
  }

  // ---------------------------------------------------------------------
  // gitSetup()

  /**
   * `gitSetup()` of this command: the graft, the hash file under the docroot
   * option, `.gitignore`, the removal of every file named in `names` (the
   * command passes `FilesToClean`), and the `.git` entries of the
   * contributed modules.
   */
  function BuildGitSetup(t: Tree, gitDir: Option<Tree>, head: Option<string>, docroot: string, names: seq<string>): Effect {
    var g := GraftGit(t, gitDir);
    if g.outcome.Fail? then g
    else
      var h := WriteHash(g.tree, head, Ok(docroot));
      if h.outcome.Fail? then h
      else
        var c := CleanFiles(WriteGitIgnore(h.tree, docroot), names);
        if c.outcome.Fail? then c else RemoveGitIn(c.tree, ContribModules(docroot))
  }

  /** `<docroot>/modules/contrib`, walked from the artifact folder. */
  function ContribModules(docroot: string): string {
    docroot + "/modules/contrib"
  }

  /** The hash file is not one of the names removed. */
  lemma HashNotCleaned()
    ensures "hash.txt" !in NameSet(FilesToClean)
  {
  }

  /** A name without a leading dot is not `.git`. */
  lemma VisibleNotGit(name: string)
    requires !Hidden(name) && name != ""
    ensures name != ".git"
  {
  }

  /** The hash file of a plain docroot has no `.git` component, whatever folder the `find` searched. */
  lemma HashNotGit(docroot: string, root: Path)
    requires SimpleName(docroot)
    ensures !GitBelow(root, ArtifactFolder + [docroot, "hash.txt"])
  {
    var q := ArtifactFolder + [docroot, "hash.txt"];
    VisibleNotGit(docroot);
    assert ArtifactFolderName != ".git";
    assert forall i :: 0 <= i < |q| ==> q[i] != ".git";
  }

  /**
   * A clone that fails stops the setup with nothing changed, and a failing
   * `git rev-parse` becomes the one error of the `catch`.
   */
  lemma BuildGitSetupFailures(t: Tree, gitDir: Option<Tree>, head: Option<string>, docroot: string, names: seq<string>)
    ensures gitDir.None? ==> BuildGitSetup(t, gitDir, head, docroot, names) == Effect(Fail(ProcessFailed("git clone", [RepositoryFolder])), t)
    ensures GraftGit(t, gitDir).outcome.Pass? && head.None? ==>
      BuildGitSetup(t, gitDir, head, docroot, names) == Effect(Fail(HashNotWritten), GraftGit(t, gitDir).tree)
  {
    GraftGitFacts(t, gitDir);
  }

  /** The tree after the removals by name, before the `find` of `.git` entries. */
  function BuildCleaned(t: Tree, gitDir: Option<Tree>, head: Option<string>, docroot: string, names: seq<string>): Effect {
    CleanFiles(WriteGitIgnore(WriteHash(GraftGit(t, gitDir).tree, head, Ok(docroot)).tree, docroot), names)
  }

  /** A setup that passes passed every step before the last `find`. */
  lemma BuildGitSetupSteps(t: Tree, gitDir: Option<Tree>, head: Option<string>, docroot: string, names: seq<string>)
    requires BuildGitSetup(t, gitDir, head, docroot, names).outcome.Pass?
    ensures GraftGit(t, gitDir).outcome.Pass?
    ensures WriteHash(GraftGit(t, gitDir).tree, head, Ok(docroot)).outcome.Pass?
    ensures BuildCleaned(t, gitDir, head, docroot, names).outcome.Pass?
    ensures BuildGitSetup(t, gitDir, head, docroot, names) == RemoveGitIn(BuildCleaned(t, gitDir, head, docroot, names).tree, ContribModules(docroot))
  {
  }

  /**
   * After a successful setup the hash file holds the trimmed hash as one
   * line, as long as `hash.txt` is not one of the names removed (which
   * `HashNotCleaned` shows for the command's own list).
   */
  lemma BuildGitSetupHash(t: Tree, gitDir: Option<Tree>, head: Option<string>, docroot: string, names: seq<string>)
    requires SimpleName(docroot) && "hash.txt" !in NameSet(names)
    requires BuildGitSetup(t, gitDir, head, docroot, names).outcome.Pass?
    ensures var r := BuildGitSetup(t, gitDir, head, docroot, names).tree;
      && ArtifactFolder + [docroot, "hash.txt"] in r
      && r[ArtifactFolder + [docroot, "hash.txt"]] == File(EchoLine(Trim(head.value)))
  {
    BuildGitSetupSteps(t, gitDir, head, docroot, names);
    var h := WriteHash(GraftGit(t, gitDir).tree, head, Ok(docroot));
    var c := BuildCleaned(t, gitDir, head, docroot, names);
    var hash := ArtifactFolder + [docroot, "hash.txt"];
    HashWritten(GraftGit(t, gitDir).tree, head, docroot);
    HashKept(h.tree, docroot, names, hash);
    HashNotGit(docroot, Locate(ArtifactFolder, ContribModules(docroot)).value);
    RemoveGitInFacts(c.tree, ContribModules(docroot));
  }

  /** A hash write that passes puts the trimmed hash in `<artifact>/<docroot>/hash.txt`. */
  lemma HashWritten(t: Tree, head: Option<string>, docroot: string)
    requires SimpleName(docroot)
    requires WriteHash(t, head, Ok(docroot)).outcome.Pass?
    ensures var r := WriteHash(t, head, Ok(docroot)).tree;
      ArtifactFolder + [docroot, "hash.txt"] in r && r[ArtifactFolder + [docroot, "hash.txt"]] == File(EchoLine(Trim(head.value)))
  {
    HashFileOfName(docroot);
  }

  /** `.gitignore` and the removals by name keep a file in a docroot that none of the names matches. */
  lemma HashKept(t: Tree, docroot: string, names: seq<string>, p: Path)
    requires p in t && !t[p].Dir? && p != GitIgnoreFile && |p| > 0 && p[|p| - 1] !in NameSet(names)
    requires CleanFiles(WriteGitIgnore(t, docroot), names).outcome.Pass?
    ensures var r := CleanFiles(WriteGitIgnore(t, docroot), names).tree;
      p in r && r[p] == t[p]
  {
    var i := WriteGitIgnore(t, docroot);
    assert p in i && i[p] == t[p];
    CleanFilesKeeps(i, names, p);
  }

  /** After a successful setup no file of a cleaned name is left below the artifact folder. */
  lemma BuildGitSetupCleans(t: Tree, gitDir: Option<Tree>, head: Option<string>, docroot: string, names: seq<string>)
    requires BuildGitSetup(t, gitDir, head, docroot, names).outcome.Pass?
    ensures var r := BuildGitSetup(t, gitDir, head, docroot, names).tree;
      forall q :: q in r && ArtifactFolder < q && !r[q].Dir? ==> q[|q| - 1] !in NameSet(names)
  {
    BuildGitSetupSteps(t, gitDir, head, docroot, names);
    var c := BuildCleaned(t, gitDir, head, docroot, names);
    CleanFilesLeavesNone(WriteGitIgnore(WriteHash(GraftGit(t, gitDir).tree, head, Ok(docroot)).tree, docroot), names);
    RemoveGitInFacts(c.tree, ContribModules(docroot));
  }

  /**
   * After a successful setup the contributed modules folder was found and no
   * `.git` entry is left below it.
   */
  lemma BuildGitSetupNoGit(t: Tree, gitDir: Option<Tree>, head: Option<string>, docroot: string, names: seq<string>)
    requires BuildGitSetup(t, gitDir, head, docroot, names).outcome.Pass?
    ensures Locate(ArtifactFolder, ContribModules(docroot)).Some?
    ensures var r := BuildGitSetup(t, gitDir, head, docroot, names).tree;
      forall q :: q in r ==> !GitBelow(Locate(ArtifactFolder, ContribModules(docroot)).value, q)
  {
    BuildGitSetupSteps(t, gitDir, head, docroot, names);
    RemoveGitInFacts(BuildCleaned(t, gitDir, head, docroot, names).tree, ContribModules(docroot));
  }

  // ---------------------------------------------------------------------
  // The command object

  class BuildCommand {
    /** The options `initialize()` stores, and the branch it detects. */
    var docrootFolder: string
    var repository: string
    var extraPaths: Option<string>
    var generateSymlink: bool
    var symlink: string
    var branch: string

    constructor ()
      ensures docrootFolder == "" && repository == "" && extraPaths.None?
      ensures !generateSymlink && symlink == "" && branch == ""
    {
      docrootFolder := "";
      repository := "";
      extraPaths := None;
      generateSymlink := false;
      symlink := "";
      branch := "";
    }

    /**
     * `initialize()`: the options in the order the code assigns them, up to
     * the repository option, whose `null` stops it; then the branch; then the
     * root-location and clean checks, which only read the files, here `tree`.
     */
    method Initialize(tree: Tree, docrootOption: string, repositoryOption: Option<string>,
                      extraPathsOption: Option<string>, noSymlink: bool, symlinkOption: string,
                      branchOutput: string, status: string) returns (o: Outcome)
      modifies this
      ensures o == BuildInitialize(tree, docrootOption, repositoryOption, branchOutput, status)
      ensures docrootFolder == docrootOption
      ensures repositoryOption.None? ==>
        repository == old(repository) && extraPaths == old(extraPaths) && generateSymlink == old(generateSymlink)
        && symlink == old(symlink) && branch == old(branch)
      ensures repositoryOption.Some? ==>
        repository == repositoryOption.value && extraPaths == extraPathsOption
        && generateSymlink == !noSymlink && symlink == symlinkOption
      ensures repositoryOption.Some? ==>
        match CurrentBranch(branchOutput) case Ok(b) => branch == b case Err(_) => branch == old(branch)
    {
      docrootFolder := docrootOption;
      if repositoryOption.None? {
        return Fail(TypeError("string"));
      }
      repository := repositoryOption.value;
      extraPaths := extraPathsOption;
      generateSymlink := !noSymlink;
      symlink := symlinkOption;
      var detected := CurrentBranch(branchOutput);
      if detected.Err? {
        return Fail(detected.error);
      }
      branch := detected.value;
      o := BuildChecks(tree, docrootOption, status);
    }

    /** `generateArtifact()`, step by step; the first failure ends it, as an exception would. */
    method GenerateArtifact(disk: Disk, status: string) returns (o: Outcome)
      modifies disk
      ensures Effect(o, disk.tree) == BuildGenerate(old(disk.tree), status, docrootFolder, extraPaths, generateSymlink, symlink)
    {
      RunMakeFolder(disk.tree);
      o := disk.RunCommand(MakeDir(ArtifactFolder));
      ghost var made := Effect(o, disk.tree);
      if o.Fail? {
        return;
      }
      o := AssertRepositoryIsClean(status);
      if o.Fail? {
        return;
      }
      o := disk.RunCommand(RemoveMatches(ArtifactFolder));
      if o.Fail? {
        o := Fail(CleanupFailed);
        return;
      }
      assert Effect(o, disk.tree) == Clear(CheckClean(made, status));
      o := CopyAll(disk);
      if o.Fail? {
        return;
      }
      if !EmptyOptional(extraPaths) {
        return Fail(ExplodeError);
      }
      if generateSymlink {
        o := GenerateSymlink(disk);
      }
    }

    /** The six `copy()` calls, in the order of `BuildCopies`. */
    method CopyAll(disk: Disk) returns (o: Outcome)
      modifies disk
      ensures Effect(o, disk.tree) == CopyEach(Effect(Pass, old(disk.tree)), BuildCopies(docrootFolder))
    {
      var names := BuildCopies(docrootFolder);
      CopyEachSix(Effect(Pass, disk.tree), names);
      o := CopyInto(disk, names[0]);  // config
      if o.Fail? {
        return;
      }
      o := CopyInto(disk, names[1]);  // drush
      if o.Fail? {
        return;
      }
      o := CopyInto(disk, names[2]);  // vendor
      if o.Fail? {
        return;
      }
      o := CopyInto(disk, names[3]);  // scripts
      if o.Fail? {
        return;
      }
      o := CopyInto(disk, names[4]);  // the docroot
      if o.Fail? {
        return;
      }
      o := CopyInto(disk, names[5]);  // patches
    }

    /**
     * The symlink step inside the artifact folder: the pieces of the option,
     * the last one popped, `mkdir -p` of the rest, the loop that writes one
     * `../` per level, and `ln -s`.
     */
    method GenerateSymlink(disk: Disk) returns (o: Outcome)
      modifies disk
      ensures Effect(o, disk.tree) == MakeSymlink(old(disk.tree), docrootFolder, symlink)
    {
      var parts := Explode(symlink);
      if |parts| > 1 {
        parts := parts[..|parts| - 1];
        RunMakeDirs(disk.tree, Implode(parts));
        o := disk.RunCommand(MakeDirsCommand(Implode(parts)));
        if o.Fail? {
          return;
        }
        var levels := DirectoryLevels(LinkDepth(symlink));
        RunLink(disk.tree, levels + docrootFolder, symlink);
        o := disk.RunCommand(LinkCommand(levels + docrootFolder, symlink));
      } else {
        RunLink(disk.tree, docrootFolder, symlink);
        o := disk.RunCommand(LinkCommand(docrootFolder, symlink));
      }
    }

    /** `gitSetup()`, step by step. */
    method GitSetup(disk: Disk, gitDir: Option<Tree>, head: Option<string>) returns (o: Outcome)
      modifies disk
      ensures Effect(o, disk.tree) == BuildGitSetup(old(disk.tree), gitDir, head, docrootFolder, FilesToClean)
    {
      o := GraftGitOn(disk, gitDir);
      if o.Fail? {
        return;
      }
      o := WriteHashOn(disk, head, Ok(docrootFolder));
      if o.Fail? {
        return;
      }
      o := CleanNamesOn(disk, docrootFolder, FilesToClean);
      if o.Fail? {
        return;
      }
      o := RemoveGitOn(disk, ContribModules(docrootFolder));
    }

    /** `generateGitIgnore()` and the `foreach` over the files to clean. */
    method CleanNamesOn(disk: Disk, docroot: string, names: seq<string>) returns (o: Outcome)
      modifies disk
      ensures Effect(o, disk.tree) == CleanFiles(WriteGitIgnore(old(disk.tree), docroot), names)
    {
      disk.PutFile(GitIgnoreFile, GitIgnoreText(docroot));
      o := CleanFilesOn(disk, names);
    }
  }
}
