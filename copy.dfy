/**
 * `copy($path)` of the artifact commands, `cp -a "path" "deploy-artifact/path"`
 * run from the project root, and what a series of such copies builds inside
 * an artifact folder that holds no visible entries yet.
 */
module ArtifactCopy {
  import opened Outcomes
  import opened FileTree
  import opened Shell
  import opened BaseCommand

  /**
   * The command line `copy($path)` runs, with both operands resolved from the
   * project root: the destination `deploy-artifact/path` is `path` walked from
   * the artifact folder.
   */
  function CopyCommand(p: string): Command {
    match Locate([], p)
    case None => BadOperand("cp", p)
    case Some(src) =>
      match Locate(ArtifactFolder, p)
      case None => BadOperand("cp", p)
      case Some(dst) => CopyArchive(src, dst)
  }

  /** A path that is a single plain, visible name other than the artifact folder's. */
  predicate SimpleName(p: string) {
    PlainName(p) && '/' !in p && !Hidden(p) && p != ArtifactFolderName
  }

  lemma ExplodeSingle(s: string)
    requires '/' !in s
    ensures Explode(s) == [s]
  {
    assert LastIndexOf('/', s) < 0;
  }

  /** For a plain relative path the copy goes from that path to the same path inside the artifact folder. */
  lemma CopyPlain(p: string)
    requires p != "" && PlainPath(p)
    ensures CopyCommand(p) == CopyArchive(Explode(p), ArtifactFolder + Explode(p))
  {
    var e := Explode(p);
    LocatePlain([], p);
    LocatePlain(ArtifactFolder, p);
    assert [] + e == e;
  }

  lemma LocateSimple(cwd: Path, p: string)
    requires SimpleName(p)
    ensures Locate(cwd, p) == Some(cwd + [p])
  {
    ExplodeSingle(p);
    LocatePlain(cwd, p);
  }

  lemma CopySimple(p: string)
    requires SimpleName(p)
    ensures CopyCommand(p) == CopyArchive([p], ArtifactFolder + [p])
  {
    ExplodeSingle(p);
    CopyPlain(p);
  }

  /** `copy($path)`: the `cp -a` command line, failing as the command does. */
  method CopyInto(disk: Disk, path: string) returns (o: Outcome)
    modifies disk
    ensures Effect(o, disk.tree) == Run(old(disk.tree), CopyCommand(path))
  {
    o := disk.RunCommand(CopyCommand(path));
  }

  // ---------------------------------------------------------------------
  // Clearing the artifact folder

  /** A tree where `mkdir -p deploy-artifact` succeeds: nothing there, or a directory. */
  predicate FolderUsable(t: Tree) {
    ArtifactFolder in t ==> t[ArtifactFolder].Dir?
  }

  lemma PrefixesOfName(p: Path)
    requires |p| == 1
    ensures Prefixes(p) == {p}
  {
    assert p[..1] == p;
  }

  /**
   * `mkdir -p deploy-artifact` succeeds exactly when nothing but a directory
   * is in the way; it then leaves a directory there, keeps every existing
   * entry, and adds nothing else.
   */
  lemma MakeFolderExact(t: Tree)
    ensures Run(t, MakeDirs(ArtifactFolder)).outcome.Pass? <==> FolderUsable(t)
    ensures !FolderUsable(t) ==> Run(t, MakeDirs(ArtifactFolder)) == Effect(Fail(ProcessFailed("mkdir -p", ArtifactFolder)), t)
    ensures FolderUsable(t) ==> var u := Run(t, MakeDirs(ArtifactFolder)).tree;
      IsDir(u, ArtifactFolder) && Outside(u, ArtifactFolder) == Outside(t, ArtifactFolder)
      && forall q :: q in t ==> q in u && u[q] == t[q]
  {
    PrefixesOfName(ArtifactFolder);
    if FolderUsable(t) {
      var u := Run(t, MakeDirs(ArtifactFolder)).tree;
      assert u == MkdirP(t, ArtifactFolder).value;
      OutsideOnlyAdded(t, u, ArtifactFolder);
    }
  }

  /** A tree that keeps every entry and adds only the entry `root` agrees with the old one outside `root`. */
  lemma OutsideOnlyAdded(t: Tree, u: Tree, root: Path)
    requires forall q :: q in t ==> q in u && u[q] == t[q]
    requires forall q :: q in u && q !in t ==> q == root
    ensures Outside(u, root) == Outside(t, root)
  {
  }

  /** `mkdir -p deploy-artifact` run twice does nothing the second time. */
  lemma MakeFolderTwice(t: Tree)
    requires FolderUsable(t)
    ensures var u := Run(t, MakeDirs(ArtifactFolder)).tree;
      Run(u, MakeDirs(ArtifactFolder)) == Effect(Pass, u)
  {
    MakeFolderExact(t);
    var u := Run(t, MakeDirs(ArtifactFolder)).tree;
    PrefixesOfName(ArtifactFolder);
    MkdirPExisting(u, ArtifactFolder);
  }

  /** `assertRepositoryIsClean()` as a step: it changes no file. */
  function CheckClean(e: Effect, status: string): (r: Effect)
    ensures r.tree == e.tree
    ensures r.outcome.Pass? <==> e.outcome.Pass? && AssertRepositoryIsClean(status).Pass?
  {
    if e.outcome.Fail? then e else Effect(AssertRepositoryIsClean(status), e.tree)
  }

  // `rm -rf deploy-artifact/*` inside a `try`, whose `catch` reports any failure as `CleanupFailed`.
  function Clear(e: Effect): Effect {
    if e.outcome.Fail? then e
    else
      var r := Run(e.tree, RemoveMatches(ArtifactFolder));
      if r.outcome.Fail? then Effect(Fail(CleanupFailed), r.tree) else r
  }

  /**
   * Clearing never fails. It leaves the artifact folder holding only its
   * hidden entries, unchanged, and touches nothing outside it.
   */
  lemma ClearEmpties(e: Effect)
    requires e.outcome.Pass? && IsDir(e.tree, ArtifactFolder)
    ensures Clear(e).outcome.Pass?
    ensures Cleared(Clear(e).tree)
    ensures Outside(Clear(e).tree, ArtifactFolder) == Outside(e.tree, ArtifactFolder)
    ensures forall q :: q in e.tree && ArtifactFolder < q && Hidden(TopName(q)) ==> q in Clear(e).tree && Clear(e).tree[q] == e.tree[q]
  {
    var u := Clear(e).tree;
    assert u == RemoveGlob(e.tree, ArtifactFolder);
    forall q | q in u && ArtifactFolder < q ensures Hidden(TopName(q)) {
      assert !GlobbedBelow(ArtifactFolder, q);
    }
  }

  // ---------------------------------------------------------------------
  // Copies into a cleared artifact folder

  /** The entry directly inside the artifact folder that `q` lies in or is. */
  function TopName(q: Path): string
    requires |q| >= 2
  {
    q[1]
  }

  /**
   * What the copies of the names in `done` have made of `base` so far:
   * outside the artifact folder nothing changed; the folder is a directory;
   * inside it, visible entries stem only from names in `done`, each an exact
   * copy of the project's entry of that name; hidden entries are untouched.
   */
  predicate Holds(base: Tree, u: Tree, done: set<string>) {
    Outside(u, ArtifactFolder) == Outside(base, ArtifactFolder)
    && IsDir(u, ArtifactFolder)
    && (forall q :: q in u && ArtifactFolder < q ==> Hidden(TopName(q)) || TopName(q) in done)
    && (forall q :: q in base && ArtifactFolder < q && Hidden(TopName(q)) ==> q in u && u[q] == base[q])
    && (forall p :: p in done ==> Sub(u, ArtifactFolder + [p]) == Sub(base, [p]))
  }

  /** A folder that is a directory holding only hidden entries. */
  predicate Cleared(t: Tree) {
    IsDir(t, ArtifactFolder) && forall q :: q in t && ArtifactFolder < q ==> Hidden(TopName(q))
  }

  lemma ClearedHolds(t: Tree)
    requires Cleared(t)
    ensures Holds(t, t, {})
  {
  }

  /** Two trees that agree outside `root` agree on every sub-tree beside it. */
  lemma SubBeside(t: Tree, u: Tree, root: Path, r: Path)
    requires Outside(u, root) == Outside(t, root)
    requires !(root <= r) && !(r <= root)
    ensures Sub(u, r) == Sub(t, r)
  {
    forall k ensures !(root <= r + k) {
      assert (r + k)[..|r|] == r;
    }
    var o := Outside(t, root);
    assert forall k :: r + k in u <==> r + k in t by {
      forall k ensures r + k in u <==> r + k in t {
        assert r + k in u <==> r + k in o;
      }
    }
    forall k | r + k in u ensures u[r + k] == t[r + k] {
      assert u[r + k] == o[r + k];
    }
  }

  /** Agreement outside a path carries over to agreement outside any of its prefixes. */
  lemma OutsideWiden(t: Tree, u: Tree, inner: Path, outer: Path)
    requires Outside(u, inner) == Outside(t, inner)
    requires outer <= inner
    ensures Outside(u, outer) == Outside(t, outer)
  {
    var a, b := Outside(u, inner), Outside(t, inner);
    forall q | !(outer <= q) ensures (q in u <==> q in t) && (q in u ==> u[q] == t[q]) {
      assert !(inner <= q);
      assert q in u <==> q in a;
      if q in u { assert u[q] == a[q]; }
    }
  }

  /** One copy of a fresh visible name: it succeeds exactly when the project has that entry, and keeps `Holds`. */
  lemma CopyStep(base: Tree, u: Tree, done: set<string>, p: string)
    requires Holds(base, u, done)
    requires SimpleName(p) && p !in done
    ensures Run(u, CopyCommand(p)).outcome.Pass? <==> [p] in base
    ensures Run(u, CopyCommand(p)).outcome.Pass? ==> Holds(base, Run(u, CopyCommand(p)).tree, done + {p})
    ensures Run(u, CopyCommand(p)).outcome.Fail? ==> Run(u, CopyCommand(p)).outcome == Fail(ProcessFailed("cp", [p]))
  {
    var A := ArtifactFolder;
    var target := A + [p];
    CopySimple(p);
    assert !(A <= [p]);
    assert [p] in u <==> [p] in base by {
      assert [p] in u <==> [p] in Outside(u, A);
    }
    assert target !in u;
    assert CopyTarget(u, [p], target) == target;
    assert Sub(u, target) == map[] by {
      forall k ensures target + k !in u {
        assert TopName(target + k) == p;
      }
    }
    if [p] in base {
      assert CopySucceeds(u, [p], target);
      var v := Copy(u, [p], target).value;
      CopyFresh(u, [p], target);
      SubBeside(base, u, A, [p]);
      assert Sub(v, target) == Sub(base, [p]);
      OutsideWiden(u, v, target, A);
      assert v[A] == u[A] by {
        assert A in Outside(v, target);
        assert A in Outside(u, target);
      }
      forall q | q in v && A < q ensures Hidden(TopName(q)) || TopName(q) in done + {p} {
        if !(target <= q) {
          assert q in Outside(v, target);
          assert q in u;
        }
      }
      forall q | q in base && A < q && Hidden(TopName(q)) ensures q in v && v[q] == base[q] {
        assert !(target <= q);
        assert q in Outside(u, target);
        assert Outside(u, target)[q] == Outside(v, target)[q];
      }
      forall p' | p' in done + {p} ensures Sub(v, A + [p']) == Sub(base, [p']) {
        if p' != p {
          assert !(target <= A + [p']) && !(A + [p'] <= target) by {
            assert (A + [p'])[1] == p';
            assert target[1] == p;
          }
          SubBeside(u, v, target, A + [p']);
        }
      }
    } else {
      assert !CopySucceeds(u, [p], target);
    }
  }

  /** The `copy()` calls of a list of paths, one after another; the first failure stops the rest. */
  function CopyEach(e: Effect, paths: seq<string>): (r: Effect)
    ensures e.outcome.Fail? ==> r == e
    decreases |paths|
  {
    if paths == [] then e else Then(CopyEach(e, paths[..|paths| - 1]), CopyCommand(paths[|paths| - 1]))
  }

  /** One more copy extends the sequence by one command. */
  lemma CopyEachNext(e: Effect, paths: seq<string>, k: nat)
    requires k < |paths|
    ensures CopyEach(e, paths[..k + 1]) == Then(CopyEach(e, paths[..k]), CopyCommand(paths[k]))
  {
    assert paths[..k + 1][..k] == paths[..k];
  }

  /** Six copies written out one after another, as the builders write them. */
  lemma CopyEachSix(e: Effect, paths: seq<string>)
    requires |paths| == 6
    ensures CopyEach(e, paths) == Then(Then(Then(Then(Then(Then(e,
      CopyCommand(paths[0])), CopyCommand(paths[1])), CopyCommand(paths[2])),
      CopyCommand(paths[3])), CopyCommand(paths[4])), CopyCommand(paths[5]))
  {
    var c2 := Then(Then(e, CopyCommand(paths[0])), CopyCommand(paths[1]));
    var c4 := Then(Then(c2, CopyCommand(paths[2])), CopyCommand(paths[3]));
    var c6 := Then(Then(c4, CopyCommand(paths[4])), CopyCommand(paths[5]));
    assert CopyEach(e, paths[..2]) == c2 by {
      assert paths[..0] == [];
      CopyEachTwo(e, paths, 0);
    }
    assert CopyEach(e, paths[..4]) == c4 by {
      CopyEachTwo(e, paths, 2);
    }
    assert CopyEach(e, paths[..6]) == c6 by {
      CopyEachTwo(e, paths, 4);
    }
    assert paths[..6] == paths;
  }

  /** Two more copies extend the sequence by two commands. */
  lemma CopyEachTwo(e: Effect, paths: seq<string>, k: nat)
    requires k + 2 <= |paths|
    ensures CopyEach(e, paths[..k + 2]) == Then(Then(CopyEach(e, paths[..k]), CopyCommand(paths[k])), CopyCommand(paths[k + 1]))
  {
    CopyEachNext(e, paths, k);
    CopyEachNext(e, paths, k + 1);
  }

  /** The names of a list, collected from its end as the copies are. */
  function NameSet(paths: seq<string>): (r: set<string>)
    ensures forall p :: p in r <==> p in paths
    decreases |paths|
  {
    if paths == [] then {}
    else
      var r := NameSet(paths[..|paths| - 1]);
      assert forall p :: p in paths <==> p in paths[..|paths| - 1] || p == paths[|paths| - 1] by {
        assert paths == paths[..|paths| - 1] + [paths[|paths| - 1]];
      }
      r + {paths[|paths| - 1]}
  }

  /** Distinct fresh visible names. */
  predicate FreshNames(paths: seq<string>, done: set<string>) {
    (forall i :: 0 <= i < |paths| ==> SimpleName(paths[i]) && paths[i] !in done)
    && (forall i, j :: 0 <= i < j < |paths| ==> paths[i] != paths[j])
  }

  /** The last of a list of fresh names is fresh with respect to those before it too. */
  lemma FreshSplit(paths: seq<string>, done: set<string>)
    requires paths != [] && FreshNames(paths, done)
    ensures var n := |paths| - 1;
      FreshNames(paths[..n], done) && SimpleName(paths[n]) && paths[n] !in done && paths[n] !in paths[..n]
  {
    var n := |paths| - 1;
    assert forall i :: 0 <= i < n ==> paths[..n][i] == paths[i];
  }

  /** Every name of a list is in the project exactly when every name before the last is and the last is. */
  lemma AllPresentSplit(paths: seq<string>, base: Tree)
    requires paths != []
    ensures var n := |paths| - 1;
      (forall i :: 0 <= i < |paths| ==> [paths[i]] in base)
      <==> (forall i :: 0 <= i < n ==> [paths[..n][i]] in base) && [paths[n]] in base
  {
    var n := |paths| - 1;
    assert forall i :: 0 <= i < n ==> paths[..n][i] == paths[i];
  }

  /** Copying distinct fresh names succeeds exactly when all of them are in the project, and keeps `Holds`. */
  lemma {:induction false} CopyEachHolds(base: Tree, e: Effect, paths: seq<string>, done: set<string>)
    requires e.outcome.Pass? && Holds(base, e.tree, done)
    requires FreshNames(paths, done)
    ensures CopyEach(e, paths).outcome.Pass? <==> forall i :: 0 <= i < |paths| ==> [paths[i]] in base
    ensures CopyEach(e, paths).outcome.Pass? ==> Holds(base, CopyEach(e, paths).tree, done + NameSet(paths))
    ensures CopyEach(e, paths).outcome.Fail? ==> FirstMissingCopied(base, paths, CopyEach(e, paths).outcome)
    ensures Outside(CopyEach(e, paths).tree, ArtifactFolder) == Outside(base, ArtifactFolder)
    decreases |paths|
  {
    if paths != [] {
      var n := |paths| - 1;
      FreshSplit(paths, done);
      CopyEachHolds(base, e, paths[..n], done);
      assert CopiedAs(base, CopyEach(e, paths[..n]), paths[..n], done);
      if CopyEach(e, paths[..n]).outcome.Pass? {
        CopyEachAfterPass(base, e, paths, done);
      } else {
        CopyEachAfterFail(base, e, paths, done);
      }
      assert CopiedAs(base, CopyEach(e, paths), paths, done);
    }
  }

  /** The four facts `CopyEachHolds` states of the effect `r` of copying `paths`. */
  predicate CopiedAs(base: Tree, r: Effect, paths: seq<string>, done: set<string>) {
    (r.outcome.Pass? <==> forall i :: 0 <= i < |paths| ==> [paths[i]] in base)
    && (r.outcome.Pass? ==> Holds(base, r.tree, done + NameSet(paths)))
    && (r.outcome.Fail? ==> FirstMissingCopied(base, paths, r.outcome))
    && Outside(r.tree, ArtifactFolder) == Outside(base, ArtifactFolder)
  }

  /** The last copy after the earlier ones all succeeded. */
  lemma CopyEachAfterPass(base: Tree, e: Effect, paths: seq<string>, done: set<string>)
    requires paths != [] && FreshNames(paths, done)
    requires CopyEach(e, paths[..|paths| - 1]).outcome.Pass?
    requires CopiedAs(base, CopyEach(e, paths[..|paths| - 1]), paths[..|paths| - 1], done)
    ensures CopiedAs(base, CopyEach(e, paths), paths, done)
  {
    var n := |paths| - 1;
    var front, last := paths[..n], paths[n];
    var prev := CopyEach(e, front);
    FreshSplit(paths, done);
    AllPresentSplit(paths, base);
    var seen := done + NameSet(front);
    CopyStep(base, prev.tree, seen, last);
    assert done + NameSet(paths) == seen + {last};
    if Run(prev.tree, CopyCommand(last)).outcome.Fail? {
      FirstMissingLast(base, paths);
    }
  }

  /** An earlier copy failed: the failure carries through the last one. */
  lemma CopyEachAfterFail(base: Tree, e: Effect, paths: seq<string>, done: set<string>)
    requires paths != []
    requires CopyEach(e, paths[..|paths| - 1]).outcome.Fail?
    requires CopiedAs(base, CopyEach(e, paths[..|paths| - 1]), paths[..|paths| - 1], done)
    ensures CopiedAs(base, CopyEach(e, paths), paths, done)
  {
    var n := |paths| - 1;
    AllPresentSplit(paths, base);
    FirstMissingFront(base, paths, CopyEach(e, paths[..n]).outcome);
  }

  /** The copy of the `i`-th name failed, the project lacking it while it has every name before it. */
  predicate FirstMissingCopied(base: Tree, paths: seq<string>, o: Outcome) {
    exists i :: 0 <= i < |paths| && [paths[i]] !in base && (forall j :: 0 <= j < i ==> [paths[j]] in base)
                && o == Fail(ProcessFailed("cp", [paths[i]]))
  }

  /** Which copy fails depends only on which names the tree has. */
  lemma FirstMissingSame(t: Tree, u: Tree, paths: seq<string>, o: Outcome)
    requires forall i :: 0 <= i < |paths| ==> ([paths[i]] in t <==> [paths[i]] in u)
    requires FirstMissingCopied(t, paths, o)
    ensures FirstMissingCopied(u, paths, o)
  {
    var i :| 0 <= i < |paths| && [paths[i]] !in t && (forall j :: 0 <= j < i ==> [paths[j]] in t)
             && o == Fail(ProcessFailed("cp", [paths[i]]));
  }

  lemma FirstMissingLast(base: Tree, paths: seq<string>)
    requires paths != []
    requires var n := |paths| - 1; (forall i :: 0 <= i < n ==> [paths[..n][i]] in base) && [paths[n]] !in base
    ensures FirstMissingCopied(base, paths, Fail(ProcessFailed("cp", [paths[|paths| - 1]])))
  {
    var n := |paths| - 1;
    assert forall i :: 0 <= i < n ==> paths[..n][i] == paths[i];
  }

  lemma FirstMissingFront(base: Tree, paths: seq<string>, o: Outcome)
    requires paths != [] && FirstMissingCopied(base, paths[..|paths| - 1], o)
    ensures FirstMissingCopied(base, paths, o)
  {
    var n := |paths| - 1;
    var i :| 0 <= i < n && [paths[..n][i]] !in base && (forall j :: 0 <= j < i ==> [paths[..n][j]] in base)
             && o == Fail(ProcessFailed("cp", [paths[..n][i]]));
    assert forall j :: 0 <= j < n ==> paths[..n][j] == paths[j];
  }

  /** One turn of the `foreach` that copies a path only `if (file_exists($file))`. */
  function CopyIfPresent(e: Effect, p: string): Effect {
    if e.outcome.Pass? && FileExists(e.tree, [], p) then Run(e.tree, CopyCommand(p)) else e
  }

  /** The whole `foreach` over `paths`. */
  function CopyPresent(e: Effect, paths: seq<string>): (r: Effect)
    ensures e.outcome.Fail? ==> r == e
    decreases |paths|
  {
    if paths == [] then e else CopyIfPresent(CopyPresent(e, paths[..|paths| - 1]), paths[|paths| - 1])
  }

  lemma CopyPresentNext(e: Effect, paths: seq<string>, k: nat)
    requires k < |paths|
    ensures CopyPresent(e, paths[..k + 1]) == CopyIfPresent(CopyPresent(e, paths[..k]), paths[k])
  {
    assert paths[..k + 1][..k] == paths[..k];
  }

  lemma {:induction false} CopyPresentStops(e: Effect, paths: seq<string>, k: nat)
    requires k <= |paths| && CopyPresent(e, paths[..k]).outcome.Fail?
    ensures CopyPresent(e, paths) == CopyPresent(e, paths[..k])
    decreases |paths|
  {
    if k == |paths| {
      assert paths[..k] == paths;
    } else {
      var n := |paths| - 1;
      assert paths[..n][..k] == paths[..k];
      CopyPresentStops(e, paths[..n], k);
    }
  }

  /**
   * One optional copy of a fresh visible name never fails. It copies the name
   * (and keeps `Holds`) exactly when `file_exists()` finds it in the current
   * tree; when the lookup of the name stays out of the artifact folder, that
   * is exactly when `file_exists()` finds it in the project, through a
   * symbolic link or not.
   */
  lemma PresentStep(base: Tree, e: Effect, done: set<string>, p: string) returns (added: set<string>)
    requires e.outcome.Pass? && Holds(base, e.tree, done)
    requires SimpleName(p) && p !in done
    ensures CopyIfPresent(e, p).outcome.Pass?
    ensures Holds(base, CopyIfPresent(e, p).tree, done + added)
    ensures added <= {p}
    ensures added == {p} <==> FileExists(e.tree, [], p)
    ensures LookupAvoids(base, [p], MaxSymlinkHops, ArtifactFolder) ==> (added == {p} <==> FileExists(base, [], p))
    ensures [p] in base && !IsLink(base, [p]) ==> added == {p}
    ensures added == {p} ==> [p] in base
  {
    assert [p][0] != ArtifactFolder[0];
    OutsideAgree(base, e.tree, ArtifactFolder, [p]);
    FileExistsSimple(e.tree, p);
    LocateSimple([], p);
    assert [] + [p] == [p];
    if LookupAvoids(base, [p], MaxSymlinkHops, ArtifactFolder) {
      ResolveOutside(base, e.tree, [p], MaxSymlinkHops, ArtifactFolder);
    }
    if FileExists(e.tree, [], p) {
      CopyStep(base, e.tree, done, p);
      added := {p};
    } else {
      added := {};
      assert done + added == done;
    }
  }

  /**
   * The optional copies never fail; every name whose entry is there and is
   * not a symbolic link is copied, and no absent name is. A name whose lookup
   * stays out of the artifact folder is copied exactly when `file_exists()`
   * finds it in the project: a link to an entry that is there is copied, a
   * dangling one is not.
   */
  lemma {:induction false} CopyPresentHolds(base: Tree, e: Effect, paths: seq<string>, done: set<string>)
    returns (copied: set<string>)
    requires e.outcome.Pass? && Holds(base, e.tree, done)
    requires FreshNames(paths, done)
    ensures CopyPresent(e, paths).outcome.Pass?
    ensures Holds(base, CopyPresent(e, paths).tree, done + copied)
    ensures forall i :: 0 <= i < |paths| && [paths[i]] in base && !IsLink(base, [paths[i]]) ==> paths[i] in copied
    ensures forall i :: 0 <= i < |paths| && LookupAvoids(base, [paths[i]], MaxSymlinkHops, ArtifactFolder) ==>
              (paths[i] in copied <==> FileExists(base, [], paths[i]))
    ensures forall p :: p in copied ==> p in paths && [p] in base
    decreases |paths|
  {
    if paths == [] {
      copied := {};
    } else {
      var n := |paths| - 1;
      var front, p := paths[..n], paths[n];
      FreshSplit(paths, done);
      var before := CopyPresentHolds(base, e, front, done);
      var added := PresentStep(base, CopyPresent(e, front), done + before, p);
      assert done + before + added == done + (before + added);
      copied := before + added;
      PresentSplit(paths, base, before, added);
      PresentExistsSplit(paths, base, before, added);
    }
  }

  /** The bookkeeping of one more turn: what the earlier turns and the last one copied, over the whole list. */
  lemma PresentSplit(paths: seq<string>, base: Tree, before: set<string>, added: set<string>)
    requires paths != []
    requires var n := |paths| - 1;
      (forall i :: 0 <= i < n && [paths[..n][i]] in base && !IsLink(base, [paths[..n][i]]) ==> paths[..n][i] in before)
      && (forall q :: q in before ==> q in paths[..n] && [q] in base)
    requires var p := paths[|paths| - 1];
      added <= {p} && ([p] in base && !IsLink(base, [p]) ==> added == {p}) && (added == {p} ==> [p] in base)
    ensures forall i :: 0 <= i < |paths| && [paths[i]] in base && !IsLink(base, [paths[i]]) ==> paths[i] in before + added
    ensures forall q :: q in before + added ==> q in paths && [q] in base
  {
    var n := |paths| - 1;
    assert forall i :: 0 <= i < n ==> paths[..n][i] == paths[i];
    assert paths == paths[..n] + [paths[n]];
  }

  /** The same bookkeeping for the names whose lookup stays out of the artifact folder. */
  lemma PresentExistsSplit(paths: seq<string>, base: Tree, before: set<string>, added: set<string>)
    requires paths != [] && paths[|paths| - 1] !in paths[..|paths| - 1]
    requires var n := |paths| - 1;
      (forall i :: 0 <= i < n && LookupAvoids(base, [paths[..n][i]], MaxSymlinkHops, ArtifactFolder) ==>
         (paths[..n][i] in before <==> FileExists(base, [], paths[..n][i])))
      && (forall q :: q in before ==> q in paths[..n])
    requires var p := paths[|paths| - 1];
      added <= {p} && (LookupAvoids(base, [p], MaxSymlinkHops, ArtifactFolder) ==> (added == {p} <==> FileExists(base, [], p)))
    ensures forall i :: 0 <= i < |paths| && LookupAvoids(base, [paths[i]], MaxSymlinkHops, ArtifactFolder) ==>
              (paths[i] in before + added <==> FileExists(base, [], paths[i]))
  {
    var n := |paths| - 1;
    assert forall i :: 0 <= i < n ==> paths[..n][i] == paths[i];
    assert paths[n] !in before;
  }

  /** `file_exists()` of a simple name whose lookup avoids the artifact folder ignores what that folder holds. */
  lemma FileExistsOutside(t: Tree, u: Tree, p: string)
    requires Outside(u, ArtifactFolder) == Outside(t, ArtifactFolder)
    requires SimpleName(p) && LookupAvoids(t, [p], MaxSymlinkHops, ArtifactFolder)
    ensures FileExists(u, [], p) <==> FileExists(t, [], p)
    ensures LookupAvoids(u, [p], MaxSymlinkHops, ArtifactFolder)
  {
    ResolveOutside(t, u, [p], MaxSymlinkHops, ArtifactFolder);
    LocateSimple([], p);
    assert [] + [p] == [p];
  }

  /** A name already copied is an exact copy of the project's entry. */
  lemma HoldsCopied(base: Tree, u: Tree, done: set<string>, p: string)
    requires Holds(base, u, done) && p in done
    ensures Sub(u, ArtifactFolder + [p]) == Sub(base, [p])
  {
  }

  /** Nothing visible of a name not yet copied is in the artifact folder. */
  lemma NotCopiedEmpty(base: Tree, u: Tree, done: set<string>, p: string)
    requires Holds(base, u, done)
    requires SimpleName(p) && p !in done
    ensures Sub(u, ArtifactFolder + [p]) == map[]
  {
    var target := ArtifactFolder + [p];
    forall k ensures target + k !in u {
      assert TopName(target + k) == p;
    }
  }

  /**
   * A name that is a symbolic link to a sibling entry of the project, which
   * is there and is no link itself: its lookup stays out of the artifact
   * folder and `file_exists()` finds it.
   */
  lemma SiblingLinkExists(t: Tree, p: string, target: string)
    requires SimpleName(p) && SimpleName(target)
    requires [p] in t && t[[p]] == Symlink(target)
    requires [target] in t && !IsLink(t, [target])
    ensures LookupAvoids(t, [p], MaxSymlinkHops, ArtifactFolder)
    ensures FileExists(t, [], p)
  {
    LocateSimple([], p);
    LocateSimple([], target);
    assert [] + [p] == [p];
    assert Follow([p], target) == Some([target]) by {
      assert [p][..0] == [];
      assert Locate([], target) == Walk([], Explode(target));
      assert [] + [target] == [target];
    }
    assert Resolve(t, [target], MaxSymlinkHops - 1) == Some([target]);
    assert LookupAvoids(t, [target], MaxSymlinkHops - 1, ArtifactFolder) by {
      assert [target][0] != ArtifactFolder[0];
    }
    assert [p][0] != ArtifactFolder[0];
  }

  /** `file_exists()` of a simple name: there whenever the entry is and is not a link, never when it is not. */
  lemma FileExistsSimple(t: Tree, p: string)
    requires SimpleName(p)
    ensures FileExists(t, [], p) ==> [p] in t
    ensures [p] in t && !IsLink(t, [p]) ==> FileExists(t, [], p)
  {
    LocateSimple([], p);
    assert [] + [p] == [p];
  }

  /** Two trees that agree outside `root` hold the same entry at any path beside it. */
  lemma OutsideAgree(t: Tree, u: Tree, root: Path, q: Path)
    requires Outside(u, root) == Outside(t, root)
    requires !(root <= q)
    ensures q in u <==> q in t
    ensures q in u ==> u[q] == t[q]
  {
    assert q in u <==> q in Outside(u, root);
    assert q in t <==> q in Outside(t, root);
    if q in u {
      assert u[q] == Outside(u, root)[q];
    }
  }

  /** The project's own entries are never the copies' targets: they are untouched by any copy sequence that keeps `Holds`. */
  lemma HoldsKeepsProject(base: Tree, u: Tree, done: set<string>, p: string)
    requires Holds(base, u, done)
    requires SimpleName(p)
    ensures Sub(u, [p]) == Sub(base, [p])
  {
    assert [p][0] != ArtifactFolder[0];
    SubBeside(base, u, ArtifactFolder, [p]);
  }
}
