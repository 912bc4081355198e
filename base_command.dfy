/**
 * The checks every artifact command shares: where the docroot is, whether
 * the command runs from a project root, which branch is checked out, and
 * whether the working copy is clean.
 */
module BaseCommand {
  import opened Outcomes
  import opened Php
  import opened FileTree
  import opened Shell

  /** Where the artifact is assembled, as the commands spell it and as a tree path. */
  const ArtifactFolderName: string := "deploy-artifact"
  const ArtifactFolder: Path := [ArtifactFolderName]

  /** Where the artifact repository is cloned. */
  const RepositoryFolder: string := "deploy-artifact-repository"

  /**
   * What the extra-paths branch of the artifact commands raises: it calls
   * `explode(',')` without the string to split.
   */
  const ExplodeError: Error := ArgumentCountError("explode")

  /** The docroot names tried, in order. */
  const DocrootCandidates: seq<string> := ["docroot", "web"]

  // ---------------------------------------------------------------------
  // Paths given as strings

  /**
   * The tree path a relative path string names from `cwd`; an empty string
   * names nothing, and so does a `..` that climbs above the project root.
   */
  function Locate(cwd: Path, s: string): Option<Path> {
    if s == "" then None else Walk(cwd, Explode(s))
  }

  /** `file_exists($s)` run from `cwd`. */
  predicate FileExists(t: Tree, cwd: Path, s: string) {
    Locate(cwd, s).Some? && Exists(t, Locate(cwd, s).value)
  }

  /** `is_link($s)` run from `cwd`. */
  predicate FileIsLink(t: Tree, cwd: Path, s: string) {
    Locate(cwd, s).Some? && IsLink(t, Locate(cwd, s).value)
  }

  lemma {:induction false} WalkPlain(dir: Path, parts: seq<string>)
    requires forall i :: 0 <= i < |parts| ==> PlainName(parts[i])
    ensures Walk(dir, parts) == Some(dir + parts)
    decreases |parts|
  {
    if parts != [] {
      assert forall i :: 0 <= i < |parts| - 1 ==> parts[1..][i] == parts[i + 1];
      WalkPlain(dir + [parts[0]], parts[1..]);
      assert dir + [parts[0]] + parts[1..] == dir + parts;
    } else {
      assert dir + parts == dir;
    }
  }

  /** A plain relative path names `cwd` followed by its pieces. */
  lemma LocatePlain(cwd: Path, s: string)
    requires s != "" && PlainPath(s)
    ensures Locate(cwd, s) == Some(cwd + Explode(s))
  {
    WalkPlain(cwd, Explode(s));
  }

  // ---------------------------------------------------------------------
  // calculateDocrootFolder()

  /** A docroot candidate qualifies when it exists and is not itself a symbolic link. */
  predicate Qualifies(t: Tree, cwd: Path, name: string) {
    FileExists(t, cwd, name) && !FileIsLink(t, cwd, name)
  }

  /** The first qualifying candidate of the `foreach`. */
  function FirstQualifying(t: Tree, cwd: Path, names: seq<string>): (r: Result<string>)
    ensures r.Ok? ==> exists i :: 0 <= i < |names| && names[i] == r.value && Qualifies(t, cwd, names[i])
                                  && forall j :: 0 <= j < i ==> !Qualifies(t, cwd, names[j])
    ensures r.Err? <==> forall i :: 0 <= i < |names| ==> !Qualifies(t, cwd, names[i])
    ensures r.Err? ==> r.error == DocrootNotFound
  {
    if names == [] then Err(DocrootNotFound)
    else if Qualifies(t, cwd, names[0]) then Ok(names[0])
    else
      var r := FirstQualifying(t, cwd, names[1..]);
      assert forall i :: 1 <= i < |names| ==> names[i] == names[1..][i - 1];
      r
  }

  /** `calculateDocrootFolder()` run from `cwd`. */
  function CalculateDocrootFolder(t: Tree, cwd: Path): (r: Result<string>)
    ensures r.Ok? ==> r.value in DocrootCandidates && FileExists(t, cwd, r.value) && !FileIsLink(t, cwd, r.value)
    ensures r == Ok("web") <==> !Qualifies(t, cwd, "docroot") && Qualifies(t, cwd, "web")
    ensures r == Ok("docroot") <==> Qualifies(t, cwd, "docroot")
    ensures r.Err? <==> !Qualifies(t, cwd, "docroot") && !Qualifies(t, cwd, "web")
    ensures r.Err? ==> r.error == DocrootNotFound
  {
    var r := FirstQualifying(t, cwd, DocrootCandidates);
    assert DocrootCandidates[0] == "docroot" && DocrootCandidates[1] == "web";
    r
  }

  // ---------------------------------------------------------------------
  // assertRootLocation()

  /** The first of `paths` that does not exist from `cwd`, in the order the loop checks them. */
  function FirstMissing(t: Tree, cwd: Path, paths: seq<string>): (r: Option<string>)
    ensures r.None? <==> forall i :: 0 <= i < |paths| ==> FileExists(t, cwd, paths[i])
    ensures r.Some? ==> r.value in paths && !FileExists(t, cwd, r.value)
  {
    if paths == [] then None
    else if !FileExists(t, cwd, paths[0]) then Some(paths[0])
    else
      var r := FirstMissing(t, cwd, paths[1..]);
      assert forall i :: 1 <= i < |paths| ==> paths[i] == paths[1..][i - 1];
      r
  }

  /** `assertRootLocation()` of the commands built on the base command. */
  function AssertRootLocation(t: Tree): (o: Outcome)
    ensures o.Pass? <==> (FileExists(t, [], "docroot") || FileExists(t, [], "web"))
                         && FileExists(t, [], "config") && FileExists(t, [], "composer.json")
    ensures o.Fail? ==> o.error == NotProjectRoot
  {
    if !FileExists(t, [], "docroot") && !FileExists(t, [], "web") then Fail(NotProjectRoot)
    else
      var required := ["config", "composer.json"];
      assert required[0] == "config" && required[1] == "composer.json";
      if FirstMissing(t, [], required).Some? then Fail(NotProjectRoot) else Pass
  }

  // ---------------------------------------------------------------------
  // getCurrentBranch()

  /**
   * What `echo ${GIT_BRANCH:-$(git branch --show-current)}` hands to PHP: the
   * variable when it is set and not empty, else the output of git, in both
   * cases split into words and printed on one line.
   */
  function BranchCommandOutput(env: Option<string>, gitOutput: string): string {
    EchoLine(if env.Some? && env.value != "" then env.value else gitOutput)
  }

  /**
   * `getCurrentBranch()`: `output` is what `shell_exec()` hands back for the
   * command above (`BranchCommandOutput`); the branch is its trimmed form,
   * rejected when PHP's `empty()` holds for it.
   */
  function CurrentBranch(output: string): Result<string> {
    var branch := Trim(output);
    if EmptyString(branch) then Err(BranchNotDetected) else Ok(branch)
  }

  /** A detected branch is never `""` or `"0"` and has nothing `trim()` would strip at either end. */
  lemma CurrentBranchIsUsable(output: string)
    requires CurrentBranch(output).Ok?
    ensures var b := CurrentBranch(output).value;
      b != "" && b != "0" && !IsTrimChar(b[0]) && !IsTrimChar(b[|b| - 1])
  {
    TrimFacts(output);
  }

  /** A name without white space, read from git or from the variable, comes back unchanged. */
  predicate SimpleBranchName(b: string) {
    b != "" && b != "0" && (forall i :: 0 <= i < |b| ==> !IsTrimChar(b[i]))
  }

  lemma SimpleNameWords(b: string)
    requires SimpleBranchName(b)
    ensures NoIfs(b)
  {
    forall i | 0 <= i < |b| ensures !IsIfs(b[i]) {
      assert !IsTrimChar(b[i]);
    }
  }

  /** With `GIT_BRANCH` unset or empty, git's line `b` plus newline is the branch. */
  lemma BranchFromGit(env: Option<string>, b: string)
    requires env.None? || env.value == ""
    requires SimpleBranchName(b)
    ensures CurrentBranch(BranchCommandOutput(env, b + "\n")) == Ok(b)
  {
    SimpleNameWords(b);
    WordsOfWord(b, "\n");
    TrimLine(b);
  }

  /** A non-empty `GIT_BRANCH` wins over whatever git prints. */
  lemma BranchFromEnvironment(b: string, gitOutput: string)
    requires SimpleBranchName(b)
    ensures CurrentBranch(BranchCommandOutput(Some(b), gitOutput)) == Ok(b)
  {
    SimpleNameWords(b);
    WordsOfWord(b, "");
    assert b + "" == b;
    TrimLine(b);
  }

  /** Detached HEAD: git prints nothing, and without `GIT_BRANCH` no branch is detected. */
  lemma DetachedHeadRejected(env: Option<string>)
    requires env.None? || env.value == ""
    ensures CurrentBranch(BranchCommandOutput(env, "")) == Err(BranchNotDetected)
  {
    assert Words("") == [];
    assert EchoLine("") == "\n";
    assert TrimLeft("\n") == "";
  }

  /** A branch literally named `0` is rejected as well, because PHP's `empty("0")` holds. */
  lemma ZeroBranchRejected(env: Option<string>)
    requires env.None? || env.value == ""
    ensures CurrentBranch(BranchCommandOutput(env, "0\n")) == Err(BranchNotDetected)
  {
    var zero := "0";
    assert BranchCommandOutput(env, zero + "\n") == zero + "\n" by {
      assert NoIfs(zero);
      WordsOfWord(zero, "\n");
      assert JoinWords([zero]) == zero;
    }
    assert Trim(zero + "\n") == zero by {
      TrimLine(zero);
    }
    assert zero + "\n" == "0\n";
  }

  lemma TrimLine(b: string)
    requires b != "" && !IsTrimChar(b[0]) && !IsTrimChar(b[|b| - 1])
    ensures Trim(b + "\n") == b
  {
    var s := b + "\n";
    assert TrimLeft(s) == s;
    assert s[..|s| - 1] == b;
    assert TrimRight(s) == TrimRight(b);
    assert TrimRight(b) == b;
  }

  // ---------------------------------------------------------------------
  // assertRepositoryIsClean()

  /**
   * `assertRepositoryIsClean()`: `status` is what
   * `git status --porcelain | grep -v .env | wc -l` prints; the check fails
   * when `(int) trim()` of it is positive.
   */
  function AssertRepositoryIsClean(status: string): (o: Outcome)
    ensures o.Fail? <==> IntCast(Trim(status)) > 0
    ensures o.Fail? ==> o.error == DirtyTree
  {
    if IntCast(Trim(status)) > 0 then Fail(DirtyTree) else Pass
  }

  /** With `n` changed or untracked lines reported, the check fails exactly when `n` is positive. */
  lemma CleanIffNoChanges(n: nat)
    requires n <= IntMax
    ensures AssertRepositoryIsClean(NatToDecimal(n) + "\n").Fail? <==> n > 0
  {
    CountLineRoundTrip(n);
  }

  /** `initialize()` of the base command: the root-location check, then the clean check. */
  function Preflight(t: Tree, status: string): (o: Outcome)
    ensures o.Pass? <==> AssertRootLocation(t).Pass? && AssertRepositoryIsClean(status).Pass?
    ensures AssertRootLocation(t).Fail? ==> o == AssertRootLocation(t)
    ensures AssertRootLocation(t).Pass? ==> o == AssertRepositoryIsClean(status)
    ensures o.Fail? ==> o.error in {NotProjectRoot, DirtyTree}
  {
    if AssertRootLocation(t).Fail? then AssertRootLocation(t) else AssertRepositoryIsClean(status)
  }
}
