/**
 * The `git` command: it checks that a generated artifact is there, grafts the
 * artifact repository's `.git` into it, writes the provenance file and
 * `.gitignore`, removes files by name and nested `.git` entries, and leaves
 * the commit and push to git.
 */
module ArtifactGitSync {
  import opened Outcomes
  import opened Php
  import opened FileTree
  import opened Shell
  import opened BaseCommand
  import opened GitIgnore
  import opened ArtifactCopy
  import opened GitSetup
  import opened ArtifactBuild

  // ---------------------------------------------------------------------
  // initialize()

  /** An entry the glob `*` lists inside `dir`: directly inside it, not a dot-file. */
  predicate Listed(t: Tree, dir: Path, q: Path) {
    q in t && |q| == |dir| + 1 && dir < q && !Hidden(q[|dir|])
  }

  /**
   * `assertArtifactExists()`: the folder must exist (following a link) and
   * the glob `*` inside it must list something.
   */
  function AssertArtifactExists(t: Tree): (o: Outcome)
    ensures o.Pass? <==> Exists(t, ArtifactFolder) && exists q :: Listed(t, Resolve(t, ArtifactFolder, MaxSymlinkHops).value, q)
    ensures o.Fail? ==> o == Fail(ArtifactMissing)
  {
    if !Exists(t, ArtifactFolder) then Fail(ArtifactMissing)
    else
      var dir := Resolve(t, ArtifactFolder, MaxSymlinkHops).value;
      if exists q :: q in t && Listed(t, dir, q) then
        assert exists q :: Listed(t, Resolve(t, ArtifactFolder, MaxSymlinkHops).value, q);
        Pass
      else Fail(ArtifactMissing)
  }

  /** A folder that holds only dot-files, such as a bare `.git`, counts as missing. */
  lemma DotFilesOnlyIsMissing(t: Tree)
    requires IsDir(t, ArtifactFolder)
    requires forall q :: q in t && ArtifactFolder < q ==> Hidden(q[|ArtifactFolder|])
    ensures AssertArtifactExists(t) == Fail(ArtifactMissing)
  {
    assert Resolve(t, ArtifactFolder, MaxSymlinkHops) == Some(ArtifactFolder);
  }

  /**
   * The build command's copies, once through, leave an artifact this command
   * accepts: `config` sits directly in the folder.
   */
  lemma BuiltArtifactExists(t: Tree, status: string, docroot: string)
    requires UsableDocroot(docroot)
    requires ArtifactFolder !in t && AssertRepositoryIsClean(status).Pass?
    requires BuildCopied(t, status, docroot).outcome.Pass?
    ensures AssertArtifactExists(BuildCopied(t, status, docroot).tree).Pass?
  {
    var c := BuildCopied(t, status, docroot).tree;
    var names := BuildCopies(docroot);
    var q := ArtifactFolder + [names[0]];
    assert IsDir(c, ArtifactFolder) && q in c by {
      BuildCopiedFacts(t, status, docroot);
      assert q + [] == q;
      assert [names[0]] in t && [] in Sub(t, [names[0]]);
    }
    ListedEntryExists(c, q);
  }

  /** A directory that holds an entry not starting with a dot passes the check. */
  lemma ListedEntryExists(t: Tree, q: Path)
    requires IsDir(t, ArtifactFolder) && q in t
    requires |q| == |ArtifactFolder| + 1 && ArtifactFolder < q && !Hidden(q[|ArtifactFolder|])
    ensures AssertArtifactExists(t).Pass?
  {
    assert Resolve(t, ArtifactFolder, MaxSymlinkHops) == Some(ArtifactFolder);
    assert Listed(t, ArtifactFolder, q);
  }

  /**
   * The outcome of `initialize()`: the base checks, then the command's own
   * steps.
   */
  function GitInitialize(t: Tree, status: string, repository: Option<string>,
                         branchOutput: string): Outcome
  {
    if Preflight(t, status).Fail? then Preflight(t, status) else GitOwnChecks(t, repository, branchOutput)
  }

  /**
   * The command's own steps: the repository option (its `null` breaks the
   * typed property), then the branch, then the artifact check.
   */
  function GitOwnChecks(t: Tree, repository: Option<string>, branchOutput: string): Outcome {
    if repository.None? then Fail(TypeError("string"))
    else match CurrentBranch(branchOutput)
      case Err(e) => Fail(e)
      case Ok(_) => AssertArtifactExists(t)
  }

  /** `initialize()` passes exactly when every check passes; each failure names the first check that failed. */
  lemma GitInitializeOutcome(t: Tree, status: string, repository: Option<string>, branchOutput: string)
    ensures var o := GitInitialize(t, status, repository, branchOutput);
      (o.Pass? <==> Preflight(t, status).Pass? && repository.Some? && CurrentBranch(branchOutput).Ok?
                    && AssertArtifactExists(t).Pass?)
      && (Preflight(t, status).Fail? ==> o == Preflight(t, status))
      && (Preflight(t, status).Pass? && repository.None? ==> o == Fail(TypeError("string")))
      && (Preflight(t, status).Pass? && repository.Some? && CurrentBranch(branchOutput).Err? ==> o == Fail(BranchNotDetected))
      && (Preflight(t, status).Pass? && repository.Some? && CurrentBranch(branchOutput).Ok? && AssertArtifactExists(t).Fail? ==>
            o == Fail(ArtifactMissing))
  {
  }

  // ---------------------------------------------------------------------
  // gitSetup()

  /**
   * `find <docroot><sub> -name ".git" -exec rm -fr {} +` run inside the
   * artifact folder, the docroot being looked up from there; a docroot that
   * is not found stops the setup.
   */
  function RemoveContribGit(t: Tree, sub: string): (e: Effect)
    ensures CalculateDocrootFolder(t, ArtifactFolder).Err? ==> e == Effect(Fail(DocrootNotFound), t)
    ensures CalculateDocrootFolder(t, ArtifactFolder).Ok? ==> e == RemoveGitIn(t, CalculateDocrootFolder(t, ArtifactFolder).value + sub)
  {
    match CalculateDocrootFolder(t, ArtifactFolder)
    case Err(x) => Effect(Fail(x), t)
    case Ok(d) => RemoveGitIn(t, d + sub)
  }

  /**
   * `gitSetup()` of this command: the graft; the hash file; `.gitignore` and
   * the removals by name; the `.git` entries below contributed code.
   */
  function SyncGitSetup(t: Tree, gitDir: Option<Tree>, head: Option<string>, names: seq<string>): Effect {
    var g := GraftGit(t, gitDir);
    if g.outcome.Fail? then g
    else
      var h := HashStage(g.tree, head);
      if h.outcome.Fail? then h
      else
        var c := CleanStage(h.tree, names);
        if c.outcome.Fail? then c else NestedGitStage(c.tree)
  }

  /** The `try` block, with the hash file under the docroot found at the project root. */
  function HashStage(t: Tree, head: Option<string>): Effect {
    WriteHash(t, head, CalculateDocrootFolder(t, []))
  }

  /**
   * `generateGitIgnore()`, which looks the docroot up again and stops the
   * setup when there is none, then the removal of every file named in
   * `names` (the command's list of files to clean).
   */
  function CleanStage(t: Tree, names: seq<string>): (e: Effect)
    ensures CalculateDocrootFolder(t, []).Err? ==> e == Effect(Fail(DocrootNotFound), t)
  {
    match CalculateDocrootFolder(t, [])
    case Err(x) => Effect(Fail(x), t)
    case Ok(d) => CleanFiles(WriteGitIgnore(t, d), names)
  }

  /**
   * The three `find ... -name ".git" -exec rm -fr {} +` inside the artifact
   * folder: below the contributed modules and themes of the docroot found
   * there, then below `vendor`.
   */
  function NestedGitStage(t: Tree): Effect {
    var m := RemoveContribGit(t, "/modules/contrib");
    if m.outcome.Fail? then m
    else
      var th := RemoveContribGit(m.tree, "/themes/contrib");
      if th.outcome.Fail? then th else RemoveGitIn(th.tree, "vendor")
  }

  /** A setup that passes passed every stage, in order. */
  lemma SyncGitSetupSteps(t: Tree, gitDir: Option<Tree>, head: Option<string>, names: seq<string>)
    requires SyncGitSetup(t, gitDir, head, names).outcome.Pass?
    ensures var g := GraftGit(t, gitDir);
      && g.outcome.Pass?
      && HashStage(g.tree, head).outcome.Pass?
      && CleanStage(HashStage(g.tree, head).tree, names).outcome.Pass?
    ensures SyncGitSetup(t, gitDir, head, names) == NestedGitStage(CleanStage(HashStage(GraftGit(t, gitDir).tree, head).tree, names).tree)
  {
  }

  /**
   * A clone that fails stops the setup with nothing changed; without a
   * docroot at the project root, or without the hash, the setup stops with
   * the one error of the `catch`.
   */
  lemma SyncGitSetupFailures(t: Tree, gitDir: Option<Tree>, head: Option<string>, names: seq<string>)
    ensures gitDir.None? ==> SyncGitSetup(t, gitDir, head, names) == Effect(Fail(ProcessFailed("git clone", [RepositoryFolder])), t)
    ensures var g := GraftGit(t, gitDir);
      g.outcome.Pass? && (head.None? || CalculateDocrootFolder(g.tree, []).Err?) ==>
        SyncGitSetup(t, gitDir, head, names) == Effect(Fail(HashNotWritten), g.tree)
  {
    GraftGitFacts(t, gitDir);
  }

  /** A `find` below a contributed folder leaves no `.git` there and only removes entries. */
  lemma RemoveContribGitFacts(t: Tree, sub: string)
    ensures var e := RemoveContribGit(t, sub);
      e.outcome.Pass? ==> CalculateDocrootFolder(t, ArtifactFolder).Ok?
                          && Locate(ArtifactFolder, CalculateDocrootFolder(t, ArtifactFolder).value + sub).Some?
    ensures var e := RemoveContribGit(t, sub);
      e.outcome.Pass? ==>
        forall q :: q in e.tree ==> !GitBelow(Locate(ArtifactFolder, CalculateDocrootFolder(t, ArtifactFolder).value + sub).value, q)
    ensures var e := RemoveContribGit(t, sub);
      forall q :: q in e.tree ==> q in t && e.tree[q] == t[q]
  {
    if CalculateDocrootFolder(t, ArtifactFolder).Ok? {
      RemoveGitInFacts(t, CalculateDocrootFolder(t, ArtifactFolder).value + sub);
    }
  }

  /**
   * After the `.git` removals pass, no `.git` entry is left below `vendor`
   * nor below the contributed modules and themes, each as its `find`
   * located it, and every entry left was there before.
   */
  lemma NestedGitStageFacts(t: Tree)
    requires NestedGitStage(t).outcome.Pass?
    ensures var m := RemoveContribGit(t, "/modules/contrib");
      && m.outcome.Pass?
      && RemoveContribGit(m.tree, "/themes/contrib").outcome.Pass?
      && Locate(ArtifactFolder, "vendor").Some?
    ensures var r := NestedGitStage(t).tree;
      forall q :: q in r ==> !GitBelow(Locate(ArtifactFolder, "vendor").value, q)
    ensures var r := NestedGitStage(t).tree;
      forall q :: q in r ==> !GitBelow(Locate(ArtifactFolder, CalculateDocrootFolder(t, ArtifactFolder).value + "/modules/contrib").value, q)
    ensures var m := RemoveContribGit(t, "/modules/contrib").tree; var r := NestedGitStage(t).tree;
      forall q :: q in r ==> !GitBelow(Locate(ArtifactFolder, CalculateDocrootFolder(m, ArtifactFolder).value + "/themes/contrib").value, q)
    ensures var r := NestedGitStage(t).tree;
      forall q :: q in r ==> q in t && r[q] == t[q]
  {
    var m := RemoveContribGit(t, "/modules/contrib");
    var th := RemoveContribGit(m.tree, "/themes/contrib");
    RemoveContribGitFacts(t, "/modules/contrib");
    RemoveContribGitFacts(m.tree, "/themes/contrib");
    RemoveGitInFacts(th.tree, "vendor");
  }

  /** The `.git` removals keep a file whose path has no `.git` component. */
  lemma NestedGitStageKeeps(t: Tree, d: string)
    requires SimpleName(d) && ArtifactFolder + [d, "hash.txt"] in t
    requires NestedGitStage(t).outcome.Pass?
    ensures var r := NestedGitStage(t).tree;
      ArtifactFolder + [d, "hash.txt"] in r && r[ArtifactFolder + [d, "hash.txt"]] == t[ArtifactFolder + [d, "hash.txt"]]
  {
    var m := RemoveContribGit(t, "/modules/contrib");
    var th := RemoveContribGit(m.tree, "/themes/contrib");
    HashSurvivesContrib(t, "/modules/contrib", d);
    HashSurvivesContrib(m.tree, "/themes/contrib", d);
    HashNotGit(d, Locate(ArtifactFolder, "vendor").value);
    RemoveGitInFacts(th.tree, "vendor");
  }

  /** A `find` below a contributed folder keeps the hash file. */
  lemma HashSurvivesContrib(t: Tree, sub: string, d: string)
    requires SimpleName(d)
    requires ArtifactFolder + [d, "hash.txt"] in t
    requires RemoveContribGit(t, sub).outcome.Pass?
    ensures var e := RemoveContribGit(t, sub).tree;
      ArtifactFolder + [d, "hash.txt"] in e && e[ArtifactFolder + [d, "hash.txt"]] == t[ArtifactFolder + [d, "hash.txt"]]
  {
    var s := CalculateDocrootFolder(t, ArtifactFolder).value + sub;
    HashNotGit(d, Locate(ArtifactFolder, s).value);
    RemoveGitInFacts(t, s);
  }

  /** `.gitignore` and the removals by name keep the hash file, unless `hash.txt` is one of the names. */
  lemma CleanStageKeeps(t: Tree, names: seq<string>, d: string)
    requires SimpleName(d) && "hash.txt" !in NameSet(names)
    requires ArtifactFolder + [d, "hash.txt"] in t && !t[ArtifactFolder + [d, "hash.txt"]].Dir?
    requires CleanStage(t, names).outcome.Pass?
    ensures var r := CleanStage(t, names).tree;
      ArtifactFolder + [d, "hash.txt"] in r && r[ArtifactFolder + [d, "hash.txt"]] == t[ArtifactFolder + [d, "hash.txt"]]
  {
    var hash := ArtifactFolder + [d, "hash.txt"];
    assert hash != GitIgnoreFile;
    HashKept(t, CalculateDocrootFolder(t, []).value, names, hash);
  }

  /** A hash stage that passes puts the trimmed hash under the docroot found at the project root. */
  lemma HashStageFacts(t: Tree, head: Option<string>)
    requires HashStage(t, head).outcome.Pass?
    ensures CalculateDocrootFolder(t, []).Ok? && SimpleName(CalculateDocrootFolder(t, []).value)
    ensures var r := HashStage(t, head).tree; var d := CalculateDocrootFolder(t, []).value;
      ArtifactFolder + [d, "hash.txt"] in r && r[ArtifactFolder + [d, "hash.txt"]] == File(EchoLine(Trim(head.value)))
  {
    var d := CalculateDocrootFolder(t, []).value;
    assert SimpleName(d) by {
      assert d in DocrootCandidates;
    }
    HashWritten(t, head, d);
  }

  /**
   * After a successful setup the hash file under the docroot found at the
   * project root holds the trimmed hash as one line, as long as `hash.txt`
   * is not one of the names removed.
   */
  lemma SyncGitSetupHash(t: Tree, gitDir: Option<Tree>, head: Option<string>, names: seq<string>)
    requires "hash.txt" !in NameSet(names)
    requires SyncGitSetup(t, gitDir, head, names).outcome.Pass?
    ensures var g := GraftGit(t, gitDir).tree; CalculateDocrootFolder(g, []).Ok?
    ensures var g := GraftGit(t, gitDir).tree; var d := CalculateDocrootFolder(g, []).value;
      var r := SyncGitSetup(t, gitDir, head, names).tree;
      ArtifactFolder + [d, "hash.txt"] in r && r[ArtifactFolder + [d, "hash.txt"]] == File(EchoLine(Trim(head.value)))
  {
    SyncGitSetupSteps(t, gitDir, head, names);
    var g := GraftGit(t, gitDir).tree;
    var h := HashStage(g, head);
    var c := CleanStage(h.tree, names);
    var d := CalculateDocrootFolder(g, []).value;
    HashStageFacts(g, head);
    CleanStageKeeps(h.tree, names, d);
    NestedGitStageKeeps(c.tree, d);
  }

  /**
   * After a successful setup no file of a cleaned name is left below the
   * artifact folder, and no `.git` entry below `vendor`.
   */
  lemma SyncGitSetupCleans(t: Tree, gitDir: Option<Tree>, head: Option<string>, names: seq<string>)
    requires SyncGitSetup(t, gitDir, head, names).outcome.Pass?
    ensures var r := SyncGitSetup(t, gitDir, head, names).tree;
      forall q :: q in r && ArtifactFolder < q && !r[q].Dir? ==> q[|q| - 1] !in NameSet(names)
    ensures Locate(ArtifactFolder, "vendor").Some?
    ensures var r := SyncGitSetup(t, gitDir, head, names).tree;
      forall q :: q in r ==> !GitBelow(Locate(ArtifactFolder, "vendor").value, q)
  {
    SyncGitSetupSteps(t, gitDir, head, names);
    var g := GraftGit(t, gitDir).tree;
    var h := HashStage(g, head).tree;
    var c := CleanStage(h, names).tree;
    CleanFilesLeavesNone(WriteGitIgnore(h, CalculateDocrootFolder(h, []).value), names);
    NestedGitStageFacts(c);
  }

  /** The value of the `author` option: the one given, or the default the option is declared with. */
  function AuthorOf(given: Option<string>): string {
    if given.Some? then given.value else "Drupal <drupal@artifact-builder>"
  }

  /** An `author` option left out stands for `Drupal <drupal@artifact-builder>`; a given one is kept as it is. */
  lemma AuthorDefault(given: Option<string>)
    ensures given.None? ==> AuthorOf(given) == "Drupal <drupal@artifact-builder>"
    ensures given.Some? ==> AuthorOf(given) == given.value
  {
  }

  // ---------------------------------------------------------------------
  // The command

  class GitCommand {
    /** The options `initialize()` stores, and the branch it detects. */
    var extraPaths: Option<string>
    var repository: string
    var branch: string
    var author: string

    constructor ()
      ensures extraPaths.None? && repository == "" && branch == "" && author == ""
    {
      extraPaths := None;
      repository := "";
      branch := "";
      author := "";
    }

    /**
     * `initialize()`: the base command's option and checks, then the
     * command's own steps. The checks only read the files, here `tree`.
     */
    method Initialize(tree: Tree, extraPathsOption: Option<string>, repositoryOption: Option<string>,
                      authorOption: Option<string>, branchOutput: string, status: string)
      returns (o: Outcome)
      modifies this
      ensures o == GitInitialize(tree, status, repositoryOption, branchOutput)
      ensures extraPaths == extraPathsOption
      ensures o.Pass? ==> Some(repository) == repositoryOption && Ok(branch) == CurrentBranch(branchOutput)
      ensures o.Pass? ==> author == AuthorOf(authorOption)
      ensures o.Fail? ==> author == old(author)
      ensures Preflight(tree, status).Fail? ==> repository == old(repository) && branch == old(branch)
    {
      extraPaths := extraPathsOption;
      o := Preflight(tree, status);
      if o.Fail? {
        return;
      }
      o := InitializeOwn(tree, repositoryOption, authorOption, branchOutput);
    }

    /**
     * The steps after the base checks: `$this->repository = ...` (a `null`
     * breaks the string-typed property), `$this->branch = ...` (stored only
     * when one is detected), the artifact check, and the author last.
     */
    method InitializeOwn(tree: Tree, repositoryOption: Option<string>, authorOption: Option<string>,
                         branchOutput: string) returns (o: Outcome)
      modifies this`repository, this`branch, this`author
      ensures o == GitOwnChecks(tree, repositoryOption, branchOutput)
      ensures repositoryOption.None? ==> repository == old(repository) && branch == old(branch)
      ensures repositoryOption.Some? ==> repository == repositoryOption.value
      ensures repositoryOption.Some? ==>
        match CurrentBranch(branchOutput) case Ok(b) => branch == b case Err(_) => branch == old(branch)
      ensures o.Pass? ==> author == AuthorOf(authorOption)
      ensures o.Fail? ==> author == old(author)
    {
      if repositoryOption.None? {
        return Fail(TypeError("string"));
      }
      repository := repositoryOption.value;
      var detected := CurrentBranch(branchOutput);
      if detected.Err? {
        return Fail(detected.error);
      }
      branch := detected.value;
      o := AssertArtifactExists(tree);
      if o.Fail? {
        return;
      }
      author := AuthorOf(authorOption);
    }

    /** `gitSetup()`, step by step; `names` is the list of files to clean. */
    method GitSetup(disk: Disk, gitDir: Option<Tree>, head: Option<string>, names: seq<string>) returns (o: Outcome)
      modifies disk
      ensures Effect(o, disk.tree) == SyncGitSetup(old(disk.tree), gitDir, head, names)
    {
      o := GraftGitOn(disk, gitDir);
      if o.Fail? {
        return;
      }
      o := WriteHashOn(disk, head, CalculateDocrootFolder(disk.tree, []));
      if o.Fail? {
        return;
      }
      o := CleanStageOn(disk, names);
      if o.Fail? {
        return;
      }
      o := NestedGitStageOn(disk);
    }

    /** `generateGitIgnore()` and the `foreach` over the files to clean. */
    method CleanStageOn(disk: Disk, names: seq<string>) returns (o: Outcome)
      modifies disk
      ensures Effect(o, disk.tree) == CleanStage(old(disk.tree), names)
    {
      var docroot := CalculateDocrootFolder(disk.tree, []);
      if docroot.Err? {
        return Fail(docroot.error);
      }
      disk.PutFile(GitIgnoreFile, GitIgnoreText(docroot.value));
      o := CleanFilesOn(disk, names);
    }

    /** The three `find` calls that remove nested `.git` entries. */
    method NestedGitStageOn(disk: Disk) returns (o: Outcome)
      modifies disk
      ensures Effect(o, disk.tree) == NestedGitStage(old(disk.tree))
    {
      o := RemoveContribGitOn(disk, "/modules/contrib");
      if o.Fail? {
        return;
      }
      o := RemoveContribGitOn(disk, "/themes/contrib");
      if o.Fail? {
        return;
      }
      o := RemoveGitOn(disk, "vendor");
    }

    /** One `find` below a contributed folder, the docroot looked up inside the artifact. */
    method RemoveContribGitOn(disk: Disk, sub: string) returns (o: Outcome)
      modifies disk
      ensures Effect(o, disk.tree) == RemoveContribGit(old(disk.tree), sub)
    {
      var docroot := CalculateDocrootFolder(disk.tree, ArtifactFolder);
      if docroot.Err? {
        return Fail(docroot.error);
      }
      o := RemoveGitOn(disk, docroot.value + sub);
    }
  }
}
