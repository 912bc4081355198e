/**
 * The file effects of `gitSetup()` that both git-aware commands share:
 * grafting the `.git` directory of a fresh clone into the artifact folder,
 * writing the provenance file `hash.txt`, writing `.gitignore`, removing
 * files by name, and removing nested `.git` entries below one directory.
 */
module GitSetup {
  import opened Outcomes
  import opened Php
  import opened FileTree
  import opened Shell
  import opened BaseCommand
  import opened GitIgnore
  import opened ArtifactCopy

  // ---------------------------------------------------------------------
  // The clone and its `.git`

  /** Where the clone keeps its `.git` directory. */
  const ClonedGit: Path := [RepositoryFolder, ".git"]

  /** Where that directory lands when the artifact folder is a directory. */
  const ArtifactGit: Path := [ArtifactFolderName, ".git"]

  /**
   * `git clone <repository> deploy-artifact-repository -b <branch>`, then
   * `cp -r deploy-artifact-repository/.git deploy-artifact`, then
   * `rm -rf deploy-artifact-repository`. `gitDir` is what the clone puts in
   * its `.git`, or `None` when git fails.
   */
  function GraftGit(t: Tree, gitDir: Option<Tree>): Effect {
    match Clone(t, [RepositoryFolder], gitDir)
    case Err(e) => Effect(Fail(e), t)
    case Ok(c) =>
      match Copy(c, ClonedGit, ArtifactFolder)
      case Err(e) => Effect(Fail(e), c)
      case Ok(u) => Effect(Pass, RemoveTree(u, [RepositoryFolder]))
  }

  /** Nothing at or below `a` and nothing at or below `b`: what two steps may change. */
  function Beside(t: Tree, a: Path, b: Path): Tree {
    Outside(Outside(t, a), b)
  }

  /**
   * A failed clone changes nothing. A successful graft leaves no trace of the
   * clone, changes nothing beside the artifact's `.git` and, when the
   * artifact folder is a directory, puts every entry of the cloned `.git`
   * into the artifact's `.git`.
   */
  lemma GraftGitFacts(t: Tree, gitDir: Option<Tree>)
    ensures gitDir.None? ==> GraftGit(t, gitDir) == Effect(Fail(ProcessFailed("git clone", [RepositoryFolder])), t)
    ensures var r := GraftGit(t, gitDir);
      r.outcome.Pass? ==> forall q :: q in r.tree ==> !([RepositoryFolder] <= q)
    ensures var r := GraftGit(t, gitDir);
      r.outcome.Pass? && IsDir(t, ArtifactFolder) ==> Beside(r.tree, ArtifactGit, [RepositoryFolder]) == Beside(t, ArtifactGit, [RepositoryFolder])
    ensures var r := GraftGit(t, gitDir);
      r.outcome.Pass? && IsDir(t, ArtifactFolder) ==>
        forall k :: k in gitDir.value && k != [] ==> ArtifactGit + k in r.tree && r.tree[ArtifactGit + k] == gitDir.value[k]
  {
    assert RepositoryFolder != ArtifactFolderName by {
      assert |RepositoryFolder| != |ArtifactFolderName|;
    }
    var r := GraftGit(t, gitDir);
    if r.outcome.Pass? && IsDir(t, ArtifactFolder) {
      var c := Clone(t, [RepositoryFolder], gitDir).value;
      var u := Copy(c, ClonedGit, ArtifactFolder).value;
      GraftSteps(t, c, u, RepositoryFolder, ArtifactFolderName, gitDir.value);
    }
  }

  /** The clone, the copy into an existing artifact directory and the removal of the clone, step by step. */
  lemma GraftSteps(t: Tree, c: Tree, u: Tree, r: string, a: string, gitDir: Tree)
    requires r != a && IsDir(t, [a])
    requires Clone(t, [r], Some(gitDir)) == Ok(c)
    requires Copy(c, [r, ".git"], [a]) == Ok(u)
    ensures Beside(RemoveTree(u, [r]), [a, ".git"], [r]) == Beside(t, [a, ".git"], [r])
    ensures forall k :: k in gitDir && k != [] ==> [a, ".git"] + k in RemoveTree(u, [r]) && RemoveTree(u, [r])[[a, ".git"] + k] == gitDir[k]
  {
    CloneStep(t, c, r, a, gitDir);
    CopyStep(c, u, r, a, gitDir);
    RemoveCloneFacts(t, c, u, r, a);
  }

  lemma CloneStep(t: Tree, c: Tree, r: string, a: string, gitDir: Tree)
    requires r != a && IsDir(t, [a])
    requires Clone(t, [r], Some(gitDir)) == Ok(c)
    ensures IsDir(c, [a])
    ensures Outside(c, [r]) == Outside(t, [r])
    ensures forall k :: k in gitDir && k != [] ==> [r, ".git"] + k in c && c[[r, ".git"] + k] == gitDir[k]
  {
    TopsDiffer(r, a);
    assert [a] in Outside(t, [r]);
    assert [a] in Outside(c, [r]);
    forall k | k in gitDir && k != [] ensures [r, ".git"] + k in c && c[[r, ".git"] + k] == gitDir[k] {
      assert [r] + [".git"] + k in c;
    }
  }

  lemma TopsDiffer(r: string, a: string)
    requires r != a
    ensures !([r] <= [a])
    ensures [r] + [".git"] == [r, ".git"]
  {
    assert [a][0] == a;
  }

  lemma CopyStep(c: Tree, u: Tree, r: string, a: string, gitDir: Tree)
    requires IsDir(c, [a])
    requires Copy(c, [r, ".git"], [a]) == Ok(u)
    requires forall k :: k in gitDir && k != [] ==> [r, ".git"] + k in c && c[[r, ".git"] + k] == gitDir[k]
    ensures Outside(u, [a, ".git"]) == Outside(c, [a, ".git"])
    ensures forall k :: k in gitDir && k != [] ==> [a, ".git"] + k in u && u[[a, ".git"] + k] == gitDir[k]
  {
    assert CopyTarget(c, [r, ".git"], [a]) == [a, ".git"];
    forall k | k in gitDir && k != [] ensures [a, ".git"] + k in u && u[[a, ".git"] + k] == gitDir[k] {
      assert k in Sub(c, [r, ".git"]);
    }
  }

  /** Removing the clone's folder keeps everything the graft built beside it. */
  lemma RemoveCloneFacts(t: Tree, c: Tree, u: Tree, r: string, a: string)
    requires r != a
    requires Outside(c, [r]) == Outside(t, [r])
    requires Outside(u, [a, ".git"]) == Outside(c, [a, ".git"])
    ensures Beside(RemoveTree(u, [r]), [a, ".git"], [r]) == Beside(t, [a, ".git"], [r])
    ensures forall q :: q in u && [a, ".git"] <= q ==> q in RemoveTree(u, [r]) && RemoveTree(u, [r])[q] == u[q]
  {
    var v := RemoveTree(u, [r]);
    forall q | q in u && [a, ".git"] <= q ensures q in v && v[q] == u[q] {
      assert q[0] == a;
    }
    var l, rt := Beside(v, [a, ".git"], [r]), Beside(t, [a, ".git"], [r]);
    assert forall q :: q in l <==> q in rt;
  }

  // ---------------------------------------------------------------------
  // hash.txt

  /** `deploy-artifact/<docroot>/hash.txt`, with the docroot string walked from the artifact folder. */
  function HashFile(docroot: string): Option<Path> {
    Walk(ArtifactFolder, Explode(docroot) + ["hash.txt"])
  }

  /**
   * The `try` block: `git rev-parse HEAD` (its output `head`, `None` when it
   * fails), the docroot, and `echo <trimmed hash> > <hash file>`; any failure
   * inside becomes the one error of the `catch`.
   */
  function WriteHash(t: Tree, head: Option<string>, docroot: Result<string>): (e: Effect)
    ensures e.outcome.Pass? <==> head.Some? && docroot.Ok? && HashFile(docroot.value).Some?
                                 && ParentIsDir(t, HashFile(docroot.value).value) && !IsDir(t, HashFile(docroot.value).value)
    ensures e.outcome.Pass? ==> e.tree == t[HashFile(docroot.value).value := File(EchoLine(Trim(head.value)))]
    ensures e.outcome.Fail? ==> e == Effect(Fail(HashNotWritten), t)
  {
    if head.None? || docroot.Err? || HashFile(docroot.value).None? then Effect(Fail(HashNotWritten), t)
    else
      match WriteFile(t, HashFile(docroot.value).value, EchoLine(Trim(head.value)))
      case Err(_) => Effect(Fail(HashNotWritten), t)
      case Ok(u) => Effect(Pass, u)
  }

  /** A docroot that is a single plain name puts the file directly inside its copy. */
  lemma HashFileOfName(docroot: string)
    requires PlainName(docroot) && '/' !in docroot
    ensures HashFile(docroot) == Some(ArtifactFolder + [docroot, "hash.txt"])
  {
    assert LastIndexOf('/', docroot) < 0;
    assert Explode(docroot) + ["hash.txt"] == [docroot, "hash.txt"];
    WalkPlainPair(ArtifactFolder, docroot, "hash.txt");
  }

  lemma WalkPlainPair(dir: Path, a: string, b: string)
    requires PlainName(a) && PlainName(b)
    ensures Walk(dir, [a, b]) == Some(dir + [a, b])
  {
    var parts := [a, b];
    assert forall i :: 0 <= i < |parts| ==> PlainName(parts[i]);
    WalkPlain(dir, parts);
  }

  /** The hash git prints, a word and a newline, is written back as exactly that line. */
  lemma HashLine(h: string)
    requires h != [] && forall i :: 0 <= i < |h| ==> !IsTrimChar(h[i])
    ensures EchoLine(Trim(h + "\n")) == h + "\n"
  {
    TrimLine(h);
    assert NoIfs(h) by {
      forall i | 0 <= i < |h| ensures !IsIfs(h[i]) {
        assert !IsTrimChar(h[i]);
      }
    }
    WordsOfWord(h, "");
    assert h + "" == h;
  }

  // ---------------------------------------------------------------------
  // .gitignore

  const GitIgnoreFile: Path := ArtifactFolder + [".gitignore"]

  /** `generateGitIgnore()`: `file_put_contents('deploy-artifact/.gitignore', ...)`, whose failure goes unnoticed. */
  function WriteGitIgnore(t: Tree, docroot: string): Tree {
    PutContents(t, GitIgnoreFile, GitIgnoreText(docroot))
  }

  // ---------------------------------------------------------------------
  // Removing files by name: `cleanFileFromArtifact()`

  /**
   * The `foreach` over the names with `cleanFileFromArtifact()`, each a
   * `find . -name <name> -exec rm {} \;` run inside the artifact folder.
   */
  function CleanFiles(t: Tree, names: seq<string>): (e: Effect)
    decreases |names|
  {
    if names == [] then Effect(Pass, t)
    else
      var e := CleanFiles(t, names[..|names| - 1]);
      if e.outcome.Fail? then e
      else match FindAndRemove(e.tree, ArtifactFolder, names[|names| - 1])
        case Err(x) => Effect(Fail(x), e.tree)
        case Ok(u) => Effect(Pass, u)
  }

  /**
   * The removals, in any order and with any repetition, remove the files of
   * the listed names below the artifact folder; with no artifact folder the
   * first `find` fails.
   */
  lemma {:induction false} CleanFilesPurges(t: Tree, names: seq<string>)
    ensures names != [] && ArtifactFolder !in t ==> CleanFiles(t, names) == Effect(Fail(ProcessFailed("find", ArtifactFolder)), t)
    ensures names == [] || ArtifactFolder in t ==> CleanFiles(t, names) == Effect(Pass, Purged(t, ArtifactFolder, NameSet(names)))
    decreases |names|
  {
    if names == [] {
      PurgeNothing(t, ArtifactFolder);
    } else {
      var n := |names| - 1;
      CleanFilesPurges(t, names[..n]);
      if ArtifactFolder in t {
        var before := Purged(t, ArtifactFolder, NameSet(names[..n]));
        assert ArtifactFolder in before;
        PurgeStep(t, ArtifactFolder, NameSet(names[..n]), names[n]);
      } else if n > 0 {
        assert CleanFiles(t, names[..n]).outcome.Fail?;
      }
    }
  }

  /** Running the removals a second time changes nothing: they are idempotent. */
  lemma CleanFilesTwice(t: Tree, names: seq<string>)
    requires CleanFiles(t, names).outcome.Pass?
    ensures CleanFiles(CleanFiles(t, names).tree, names) == CleanFiles(t, names)
  {
    CleanFilesPurges(t, names);
    var u := CleanFiles(t, names).tree;
    if names != [] {
      assert ArtifactFolder in u;
    }
    CleanFilesPurges(u, names);
    PurgeIdempotent(t, ArtifactFolder, NameSet(names));
  }

  /** An entry the removals do not match is left as it was. */
  lemma CleanFilesKeeps(t: Tree, names: seq<string>, q: Path)
    requires CleanFiles(t, names).outcome.Pass? && q in t
    requires t[q].Dir? || !(ArtifactFolder < q) || q[|q| - 1] !in NameSet(names)
    ensures q in CleanFiles(t, names).tree && CleanFiles(t, names).tree[q] == t[q]
  {
    CleanFilesPurges(t, names);
  }

  /** After the removals no file of a listed name is left below the artifact folder. */
  lemma CleanFilesLeavesNone(t: Tree, names: seq<string>)
    requires CleanFiles(t, names).outcome.Pass?
    ensures var r := CleanFiles(t, names).tree;
      forall q :: q in r && ArtifactFolder < q && !r[q].Dir? ==> q[|q| - 1] !in NameSet(names)
  {
    CleanFilesPurges(t, names);
  }

  /** Only the set of names matters: a name listed twice removes nothing more. */
  lemma CleanFilesDuplicates(t: Tree, names: seq<string>, others: seq<string>)
    requires NameSet(names) == NameSet(others)
    requires names != [] && others != []
    ensures CleanFiles(t, names) == CleanFiles(t, others)
  {
    CleanFilesPurges(t, names);
    CleanFilesPurges(t, others);
  }

  // ---------------------------------------------------------------------
  // Nested `.git` entries

  /**
   * `find <s> -name ".git" -exec rm -fr {} +` run inside the artifact folder.
   * An empty string is not a path there (the command line would name the
   * file-system root).
   */
  function RemoveGitIn(t: Tree, s: string): (e: Effect)
    ensures e.outcome.Fail? ==> e.tree == t
  {
    match Locate(ArtifactFolder, s)
    case None => Effect(Fail(ProcessFailed("find", [s])), t)
    case Some(root) =>
      match RemoveGitEntries(t, root)
      case Err(x) => Effect(Fail(x), t)
      case Ok(u) => Effect(Pass, u)
  }

  /**
   * The `find` fails exactly when the directory named by `s` is missing; on
   * success every `.git` entry at or below it is gone, with its contents, and
   * nothing else changed.
   */
  lemma RemoveGitInFacts(t: Tree, s: string)
    ensures RemoveGitIn(t, s).outcome.Pass? <==> Locate(ArtifactFolder, s).Some? && (Locate(ArtifactFolder, s).value == [] || Locate(ArtifactFolder, s).value in t)
    ensures var e := RemoveGitIn(t, s);
      e.outcome.Pass? ==> forall q :: q in e.tree ==> !GitBelow(Locate(ArtifactFolder, s).value, q)
    ensures var e := RemoveGitIn(t, s);
      e.outcome.Pass? ==> forall q :: q in t && !GitBelow(Locate(ArtifactFolder, s).value, q) ==> q in e.tree && e.tree[q] == t[q]
    ensures var e := RemoveGitIn(t, s);
      forall q :: q in e.tree ==> q in t && e.tree[q] == t[q]
  {
  }

  /** A second `find` of the same directory has nothing left to remove. */
  lemma RemoveGitInTwice(t: Tree, s: string)
    requires RemoveGitIn(t, s).outcome.Pass?
    ensures RemoveGitIn(RemoveGitIn(t, s).tree, s).tree == RemoveGitIn(t, s).tree
  {
    var u := RemoveGitIn(t, s).tree;
    var v := RemoveGitIn(u, s).tree;
    assert forall q :: q in v <==> q in u;
  }

  // ---------------------------------------------------------------------
  // The same steps, run on the disk

  /** The three command lines of the graft, each as the file-tree function it runs. */
  lemma RunClone(t: Tree, gitDir: Option<Tree>)
    ensures Run(t, GitClone(RepositoryFolder, gitDir)) ==
      match Clone(t, [RepositoryFolder], gitDir) case Err(e) => Effect(Fail(e), t) case Ok(c) => Effect(Pass, c)
  {
  }

  lemma RunCopyGit(c: Tree)
    ensures Run(c, CopyArchive(ClonedGit, ArtifactFolder)) ==
      match Copy(c, ClonedGit, ArtifactFolder) case Err(e) => Effect(Fail(e), c) case Ok(u) => Effect(Pass, u)
  {
  }

  lemma RunRemoveClone(u: Tree)
    ensures Run(u, RemoveRecursive([RepositoryFolder])) == Effect(Pass, RemoveTree(u, [RepositoryFolder]))
  {
  }

  /** Clone, copy of `.git` into the artifact and removal of the clone, stopping at the first failure. */
  method GraftGitOn(disk: Disk, gitDir: Option<Tree>) returns (o: Outcome)
    modifies disk
    ensures Effect(o, disk.tree) == GraftGit(old(disk.tree), gitDir)
  {
    ghost var t := disk.tree;
    RunClone(t, gitDir);
    o := disk.RunCommand(GitClone(RepositoryFolder, gitDir));
    if o.Fail? {
      return;
    }
    ghost var c := disk.tree;
    RunCopyGit(c);
    o := disk.RunCommand(CopyArchive(ClonedGit, ArtifactFolder));
    if o.Fail? {
      return;
    }
    RunRemoveClone(disk.tree);
    o := disk.RunCommand(RemoveRecursive([RepositoryFolder]));
  }

  /** The `try` around `git rev-parse HEAD` and the `echo` into the hash file. */
  method WriteHashOn(disk: Disk, head: Option<string>, docroot: Result<string>) returns (o: Outcome)
    modifies disk
    ensures Effect(o, disk.tree) == WriteHash(old(disk.tree), head, docroot)
  {
    if head.None? || docroot.Err? || HashFile(docroot.value).None? {
      return Fail(HashNotWritten);
    }
    var r := disk.RunCommand(EchoTo(Trim(head.value), HashFile(docroot.value).value));
    o := if r.Fail? then Fail(HashNotWritten) else Pass;
  }

  /** Once a removal has failed, the later names change nothing: the exception ends the loop. */
  lemma {:induction false} CleanFilesStops(t: Tree, names: seq<string>, k: nat)
    requires k <= |names| && CleanFiles(t, names[..k]).outcome.Fail?
    ensures CleanFiles(t, names) == CleanFiles(t, names[..k])
    decreases |names|
  {
    if k < |names| {
      var n := |names| - 1;
      assert names[..n][..k] == names[..k];
      CleanFilesStops(t, names[..n], k);
      assert CleanFiles(t, names[..n]).outcome.Fail?;
    } else {
      assert names[..k] == names;
    }
  }

  /** The `foreach` over the names, each `find . -name <name> -exec rm {} \;` inside the artifact folder. */
  method CleanFilesOn(disk: Disk, names: seq<string>) returns (o: Outcome)
    modifies disk
    ensures Effect(o, disk.tree) == CleanFiles(old(disk.tree), names)
  {
    ghost var t0 := disk.tree;
    o := Pass;
    var i := 0;
    assert names[..0] == [];
    while i < |names|
      invariant 0 <= i <= |names|
      invariant o.Pass? && Effect(o, disk.tree) == CleanFiles(t0, names[..i])
    {
      o := disk.RunCommand(FindRemove(ArtifactFolder, names[i]));
      assert names[..i + 1][..i] == names[..i];
      i := i + 1;
      if o.Fail? {
        CleanFilesStops(t0, names, i);
        return;
      }
    }
    assert names[..i] == names;
  }

  /** `find <s> -name ".git" -exec rm -fr {} +` inside the artifact folder. */
  method RemoveGitOn(disk: Disk, s: string) returns (o: Outcome)
    modifies disk
    ensures Effect(o, disk.tree) == RemoveGitIn(old(disk.tree), s)
  {
    var c := match Locate(ArtifactFolder, s)
      case None => BadOperand("find", s)
      case Some(root) => FindRemoveGit(root);
    o := disk.RunCommand(c);
  }
}
