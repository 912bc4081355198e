/**
 * The shell commands the artifact builder runs, each modelled by its
 * effect on the file tree. A command that would exit non-zero yields
 * `Err(ProcessFailed(..))`, which is what `runCommand` turns into an
 * exception. Paths are relative to the project root.
 */
module Shell {
  import opened Outcomes
  import opened FileTree

  // ---------------------------------------------------------------------
  // Directories

  /** `mkdir p`: fails when `p` already exists or its parent is missing. */
  function Mkdir(t: Tree, p: Path): (r: Result<Tree>)
    ensures r.Ok? <==> p !in t && ParentIsDir(t, p)
    ensures r.Ok? ==> IsDir(r.value, p) && Outside(r.value, p) == Outside(t, p)
  {
    if p in t || !ParentIsDir(t, p) then Err(ProcessFailed("mkdir", p))
    else Ok(t[p := Dir])
  }

  function Prefixes(p: Path): set<Path> {
    set i | 1 <= i <= |p| :: p[..i]
  }

  /** No prefix of `p` is taken by something other than a directory. */
  predicate DirsAlong(t: Tree, p: Path) {
    forall q :: q in Prefixes(p) && q in t ==> t[q].Dir?
  }

  /** `mkdir -p p`: creates the missing directories along `p`; fails when a file or link is in the way. */
  function MkdirP(t: Tree, p: Path): (r: Result<Tree>)
    ensures r.Ok? <==> DirsAlong(t, p)
    ensures r.Ok? ==> forall q :: q in Prefixes(p) ==> IsDir(r.value, q)
    ensures r.Ok? ==> forall q :: q in t ==> q in r.value && r.value[q] == t[q]
    ensures r.Ok? ==> forall q :: q in r.value && q !in t ==> q in Prefixes(p)
  {
    if !DirsAlong(t, p) then Err(ProcessFailed("mkdir -p", p))
    else Ok(t + map q | q in Prefixes(p) && q !in t :: Dir)
  }

  /** `mkdir -p` of an existing directory whose prefixes are directories changes nothing. */
  lemma MkdirPExisting(t: Tree, p: Path)
    requires forall q :: q in Prefixes(p) ==> IsDir(t, q)
    ensures MkdirP(t, p) == Ok(t)
  {
    var m := map q | q in Prefixes(p) && q !in t :: Dir;
    assert m == map[];
    assert t + m == t;
  }

  // ---------------------------------------------------------------------
  // Copying: `cp -a src dst` and `cp -r src dst`

  /** Where `cp` puts `src`: inside `dst` when `dst` is an existing directory, else at `dst`. */
  function CopyTarget(t: Tree, src: Path, dst: Path): Path
    requires src != []
  {
    if IsDir(t, dst) then dst + [src[|src| - 1]] else dst
  }

  /** Copying `s` onto `target` never replaces a directory by a non-directory or the reverse. */
  predicate Compatible(t: Tree, s: Tree, target: Path) {
    forall k :: k in s && target + k in t ==> t[target + k].Dir? == s[k].Dir?
  }

  /** Whether `cp` of `src` to `dst` exits successfully. */
  predicate CopySucceeds(t: Tree, src: Path, dst: Path) {
    src != [] && src in t &&
    var target := CopyTarget(t, src, dst);
    ParentIsDir(t, target) && !(src <= target) && Compatible(t, Sub(t, src), target)
  }

  /**
   * `cp -a src dst` (or `cp -r`): the entry at `src`, with everything below it and
   * without following links, is merged in at the copy target.
   */
  function Copy(t: Tree, src: Path, dst: Path): (r: Result<Tree>)
    ensures r.Ok? <==> CopySucceeds(t, src, dst)
    ensures r.Ok? ==> Outside(r.value, CopyTarget(t, src, dst)) == Outside(t, CopyTarget(t, src, dst))
    ensures r.Ok? ==> forall k :: k in Sub(t, src) ==>
                        k in Sub(r.value, CopyTarget(t, src, dst)) && Sub(r.value, CopyTarget(t, src, dst))[k] == Sub(t, src)[k]
  {
    if !CopySucceeds(t, src, dst) then Err(ProcessFailed("cp", src))
    else
      var target := CopyTarget(t, src, dst);
      Overlay(t, Sub(t, src), target);
      Ok(t + Graft(Sub(t, src), target))
  }

  /** Copying onto a path with nothing at or below it reproduces the source there exactly. */
  lemma CopyFresh(t: Tree, src: Path, dst: Path)
    requires CopySucceeds(t, src, dst)
    requires Sub(t, dst) == map[]
    ensures CopyTarget(t, src, dst) == dst
    ensures Sub(Copy(t, src, dst).value, dst) == Sub(t, src)
  {
    assert dst[|dst|..] == [];
    GraftFresh(t, Sub(t, src), dst);
  }

  // ---------------------------------------------------------------------
  // Removing

  /** An entry strictly below `root` whose first component below it is matched by the glob `*`. */
  predicate GlobbedBelow(root: Path, q: Path) {
    |q| > |root| && root <= q && !Hidden(q[|root|])
  }

  /** `rm -rf` of every match of the glob `*` inside `root`: the glob skips dot-files, and `rm -f` never fails. */
  function RemoveGlob(t: Tree, root: Path): (u: Tree)
    ensures forall q :: q in u <==> q in t && !GlobbedBelow(root, q)
    ensures forall q :: q in u ==> u[q] == t[q]
  {
    map q | q in t && !GlobbedBelow(root, q) :: t[q]
  }

  /** `rm -rf root`. */
  function RemoveTree(t: Tree, root: Path): (u: Tree)
    ensures u == Outside(t, root)
  {
    Outside(t, root)
  }

  /** An entry `find base -name name -exec rm {} \;` deletes: below `base`, named `name`, not a directory. */
  predicate NamedBelow(t: Tree, base: Path, name: string, q: Path)
    requires q in t
  {
    base < q && q[|q| - 1] == name && !t[q].Dir?
  }

  /**
   * `find base -name name -exec rm {} \;`: `find` exits non-zero only when `base`
   * is missing. A directory of that name makes `rm` fail, which leaves it in
   * place and does not change the exit status of `find`.
   */
  function FindAndRemove(t: Tree, base: Path, name: string): (r: Result<Tree>)
    ensures r.Ok? <==> base == [] || base in t
    ensures r.Ok? ==> r.value == RemoveNamed(t, base, name)
  {
    if base != [] && base !in t then Err(ProcessFailed("find", base)) else Ok(RemoveNamed(t, base, name))
  }

  /** What the removals of `find base -name name -exec rm {} \;` leave. */
  function RemoveNamed(t: Tree, base: Path, name: string): (u: Tree)
    ensures forall q :: q in u <==> q in t && !NamedBelow(t, base, name, q)
    ensures forall q :: q in u ==> u[q] == t[q]
  {
    map q | q in t && !NamedBelow(t, base, name, q) :: t[q]
  }

  /** An entry that one of the `find base -name n -exec rm {} \;` calls for `n` in `names` deletes. */
  predicate PurgedBelow(t: Tree, base: Path, names: set<string>, q: Path)
    requires q in t
  {
    base < q && q[|q| - 1] in names && !t[q].Dir?
  }

  /** What the removals for every name in `names` leave, whatever their order. */
  function Purged(t: Tree, base: Path, names: set<string>): (u: Tree)
    ensures forall q :: q in u <==> q in t && !PurgedBelow(t, base, names, q)
    ensures forall q :: q in u ==> u[q] == t[q]
  {
    map q | q in t && !PurgedBelow(t, base, names, q) :: t[q]
  }

  /** Removing one more name after a purge is the purge of the larger set of names. */
  lemma PurgeStep(t: Tree, base: Path, names: set<string>, name: string)
    ensures RemoveNamed(Purged(t, base, names), base, name) == Purged(t, base, names + {name})
  {
    var u := Purged(t, base, names);
    var l, r := RemoveNamed(u, base, name), Purged(t, base, names + {name});
    assert forall q :: q in l <==> q in r by {
      forall q ensures q in l <==> q in r {
        if q in u {
          assert u[q] == t[q];
        }
      }
    }
  }

  /** A purge removes nothing more when repeated. */
  lemma PurgeIdempotent(t: Tree, base: Path, names: set<string>)
    ensures Purged(Purged(t, base, names), base, names) == Purged(t, base, names)
  {
    var u := Purged(t, base, names);
    var v := Purged(u, base, names);
    assert forall q :: q in v <==> q in u by {
      forall q ensures q in v <==> q in u {
        if q in u {
          assert u[q] == t[q];
        }
      }
    }
  }

  /** Purging nothing leaves the tree as it is. */
  lemma PurgeNothing(t: Tree, base: Path)
    ensures Purged(t, base, {}) == t
  {
  }

  /** An entry at or below `root` with a component named `.git` from `root`'s own name on. */
  predicate GitBelow(root: Path, q: Path) {
    root <= q && ".git" in q[if root == [] then 0 else |root| - 1..]
  }

  /**
   * `find root -name ".git" -exec rm -fr {} +`: `find` exits non-zero when `root`
   * does not exist; otherwise every `.git` entry found is removed with its contents.
   */
  function RemoveGitEntries(t: Tree, root: Path): (r: Result<Tree>)
    ensures r.Ok? <==> root == [] || root in t
    ensures r.Ok? ==> forall q :: q in r.value <==> q in t && !GitBelow(root, q)
    ensures r.Ok? ==> forall q :: q in r.value ==> r.value[q] == t[q]
  {
    if root != [] && root !in t then Err(ProcessFailed("find", root))
    else Ok(map q | q in t && !GitBelow(root, q) :: t[q])
  }

  // ---------------------------------------------------------------------
  // Links and files

  /**
   * `ln -s target link`: when `link` is an existing directory the link is made
   * inside it under the last component of `target`; an occupied name or a
   * missing parent makes `ln` fail.
   */
  function LinkPlace(t: Tree, target: string, link: Path): Option<Path> {
    if IsDir(t, link) then
      (if PathOf(target) == [] then None else Some(link + [PathOf(target)[|PathOf(target)| - 1]]))
    else Some(link)
  }

  function Ln(t: Tree, target: string, link: Path): (r: Result<Tree>)
    ensures r.Ok? <==> LinkPlace(t, target, link).Some? && LinkPlace(t, target, link).value !in t
                       && ParentIsDir(t, LinkPlace(t, target, link).value)
    ensures r.Ok? ==> r.value == t[LinkPlace(t, target, link).value := Symlink(target)]
  {
    match LinkPlace(t, target, link)
    case None => Err(ProcessFailed("ln -s", link))
    case Some(place) =>
      if place in t || !ParentIsDir(t, place) then Err(ProcessFailed("ln -s", link))
      else Ok(t[place := Symlink(target)])
  }

  /** `echo ... > p`: the shell cannot create the file when its directory is missing or `p` is a directory. */
  function WriteFile(t: Tree, p: Path, content: string): (r: Result<Tree>)
    ensures r.Ok? <==> ParentIsDir(t, p) && !IsDir(t, p)
    ensures r.Ok? ==> r.value == t[p := File(content)]
  {
    if !ParentIsDir(t, p) || IsDir(t, p) then Err(ProcessFailed("echo", p))
    else Ok(t[p := File(content)])
  }

  /** `file_put_contents()`: on failure PHP only warns and returns false, so the tree stays as it was. */
  function PutContents(t: Tree, p: Path, content: string): (u: Tree)
    ensures ParentIsDir(t, p) && !IsDir(t, p) ==> u == t[p := File(content)]
    ensures !(ParentIsDir(t, p) && !IsDir(t, p)) ==> u == t
  {
    match WriteFile(t, p, content)
    case Ok(v) => v
    case Err(_) => t
  }

  /**
   * `git clone ... into`: the remote itself is not modelled; `gitDir` is the
   * `.git` directory the clone would produce (its own entry under the key `[]`),
   * or `None` when the clone fails. Git refuses a destination that exists and
   * is not an empty directory.
   */
  function Clone(t: Tree, into: Path, gitDir: Option<Tree>): (r: Result<Tree>)
    requires |into| == 1
    ensures r.Ok? <==> gitDir.Some? && (into in t ==> IsDir(t, into) && !HasChildren(t, into))
    ensures r.Ok? ==> Outside(r.value, into) == Outside(t, into)
    ensures r.Ok? ==> IsDir(r.value, into + [".git"])
    ensures r.Ok? ==> forall k :: k in gitDir.value && k != [] ==>
                        into + [".git"] + k in r.value && r.value[into + [".git"] + k] == gitDir.value[k]
  {
    if gitDir.None? || (into in t && (!IsDir(t, into) || HasChildren(t, into))) then Err(ProcessFailed("git clone", into))
    else
      CloneOutside(t, into, gitDir.value);
      CloneGit(t, into, gitDir.value);
      Ok(Cloned(t, into, gitDir.value))
  }

  /** The tree a successful clone leaves: the folder, its `.git` directory and what git put there. */
  function Cloned(t: Tree, into: Path, gitDir: Tree): Tree {
    t[into := Dir] + Graft(gitDir[[] := Dir], into + [".git"])
  }

  lemma CloneOutside(t: Tree, into: Path, gitDir: Tree)
    requires |into| == 1
    ensures Outside(Cloned(t, into, gitDir), into) == Outside(t, into)
  {
    var grafted := Graft(gitDir[[] := Dir], into + [".git"]);
    var u := Cloned(t, into, gitDir);
    assert forall q :: q in grafted ==> into <= q;
    assert forall q :: q in u && !(into <= q) ==> q in t && u[q] == t[q];
  }

  lemma CloneGit(t: Tree, into: Path, gitDir: Tree)
    requires |into| == 1
    ensures IsDir(Cloned(t, into, gitDir), into + [".git"])
    ensures forall k :: k in gitDir && k != [] ==>
              into + [".git"] + k in Cloned(t, into, gitDir) && Cloned(t, into, gitDir)[into + [".git"] + k] == gitDir[k]
  {
    var g := gitDir[[] := Dir];
    assert (into + [".git"]) + [] == into + [".git"];
    assert forall k :: k in gitDir && k != [] ==> k in g && g[k] == gitDir[k];
  }

  // ---------------------------------------------------------------------
  // `echo` of an unquoted expansion: field splitting on the default IFS

  predicate IsIfs(c: char) { c == ' ' || c == '\t' || c == '\n' }

  predicate NoIfs(w: string) { forall i :: 0 <= i < |w| ==> !IsIfs(w[i]) }

  function WordLength(s: string): (n: nat)
    requires s != [] && !IsIfs(s[0])
    ensures 1 <= n <= |s| && NoIfs(s[..n]) && (n < |s| ==> IsIfs(s[n]))
    decreases |s|
  {
    if |s| == 1 || IsIfs(s[1]) then 1 else 1 + WordLength(s[1..])
  }

  /** The fields an unquoted expansion splits into: maximal runs without IFS characters. */
  function Words(s: string): (w: seq<string>)
    ensures forall i :: 0 <= i < |w| ==> w[i] != "" && NoIfs(w[i])
    decreases |s|
  {
    if s == [] then []
    else if IsIfs(s[0]) then Words(s[1..])
    else
      var n := WordLength(s);
      var rest := Words(s[n..]);
      assert forall i :: 1 <= i < |rest| + 1 ==> ([s[..n]] + rest)[i] == rest[i - 1];
      [s[..n]] + rest
  }

  function JoinWords(w: seq<string>): string {
    if w == [] then "" else if |w| == 1 then w[0] else w[0] + " " + JoinWords(w[1..])
  }

  /** What `echo $x` prints: the fields of `x` separated by single spaces, then a newline. */
  function EchoLine(s: string): string {
    JoinWords(Words(s)) + "\n"
  }

  /** A single word, alone or followed by newlines, splits into exactly itself. */
  lemma {:induction false} WordsOfWord(w: string, tail: string)
    requires w != [] && NoIfs(w)
    requires forall i :: 0 <= i < |tail| ==> tail[i] == '\n'
    ensures Words(w + tail) == [w]
  {
    var s := w + tail;
    WordLengthIs(s, |w|);
    assert s[..|w|] == w;
    assert s[|w|..] == tail;
    NewlinesHaveNoWords(tail);
  }

  /** The first word of `s` is its first `m` characters when they hold no IFS character and one follows. */
  lemma {:induction false} WordLengthIs(s: string, m: nat)
    requires 1 <= m <= |s|
    requires forall i :: 0 <= i < m ==> !IsIfs(s[i])
    requires m < |s| ==> IsIfs(s[m])
    ensures WordLength(s) == m
    decreases |s|
  {
    if m > 1 {
      WordLengthIs(s[1..], m - 1);
    }
  }

  lemma {:induction false} NewlinesHaveNoWords(s: string)
    requires forall i :: 0 <= i < |s| ==> s[i] == '\n'
    ensures Words(s) == []
    decreases |s|
  {
    if s != [] {
      NewlinesHaveNoWords(s[1..]);
    }
  }

  // ---------------------------------------------------------------------
  // Running a command line

  /** The command lines the builder hands to the shell, with their operands already resolved to tree paths. */
  datatype Command =
    | MakeDir(path: Path)                        // mkdir path
    | MakeDirs(path: Path)                       // mkdir -p path
    | BadOperand(utility: string, operand: string) // an operand naming nothing in the tree: empty, or above the root
    | CopyArchive(src: Path, dst: Path)          // cp -a src dst, cp -r src dst
    | RemoveMatches(dir: Path)                   // rm -rf dir/<glob *>
    | RemoveRecursive(path: Path)                // rm -rf path
    | SymLink(target: string, link: Path)        // ln -s target link
    | FindRemove(base: Path, name: string)       // find base -name name -exec rm {} \;
    | FindRemoveGit(root: Path)                  // find root -name ".git" -exec rm -fr {} +
    | EchoTo(text: string, path: Path)           // echo text > path
    | GitClone(into: string, gitDir: Option<Tree>) // git clone <url> into -b <branch>

  /** The effect of one command line: the new tree, or the failure `runCommand` raises. */
  function Exec(t: Tree, c: Command): Result<Tree> {
    match c
    case MakeDir(p) => Mkdir(t, p)
    case MakeDirs(p) => MkdirP(t, p)
    case BadOperand(u, operand) => Err(ProcessFailed(u, [operand]))
    case CopyArchive(src, dst) => Copy(t, src, dst)
    case RemoveMatches(dir) => Ok(RemoveGlob(t, dir))
    case RemoveRecursive(p) => Ok(RemoveTree(t, p))
    case SymLink(target, link) => Ln(t, target, link)
    case FindRemove(base, name) => FindAndRemove(t, base, name)
    case FindRemoveGit(root) => RemoveGitEntries(t, root)
    case EchoTo(text, p) => WriteFile(t, p, EchoLine(text))
    case GitClone(into, gitDir) => if into == "" then Err(ProcessFailed("git clone", [])) else Clone(t, [into], gitDir)
  }

  /** How a step ended and the tree it left: a failed step leaves the tree as it found it. */
  datatype Effect = Effect(outcome: Outcome, tree: Tree)

  function Run(t: Tree, c: Command): (e: Effect)
    ensures e.outcome.Fail? ==> e.tree == t
  {
    match Exec(t, c)
    case Ok(u) => Effect(Pass, u)
    case Err(err) => Effect(Fail(err), t)
  }

  /** The next command, unless an earlier one already failed. */
  function Then(e: Effect, c: Command): Effect {
    if e.outcome.Fail? then e else Run(e.tree, c)
  }

  /** Command lines run one after another; the first failure stops the rest. */
  function RunAll(t: Tree, cs: seq<Command>): (e: Effect)
    decreases |cs|
  {
    if cs == [] then Effect(Pass, t) else Then(RunAll(t, cs[..|cs| - 1]), cs[|cs| - 1])
  }

  /** The file system the commands act on. */
  class Disk {
    var tree: Tree

    constructor (t: Tree)
      ensures tree == t
    {
      tree := t;
    }

    /** `runCommand()`: the command line runs; a non-zero exit status becomes the returned failure. */
    method RunCommand(c: Command) returns (o: Outcome)
      modifies this
      ensures Effect(o, tree) == Run(old(tree), c)
    {
      match Exec(tree, c)
      case Ok(u) =>
        tree := u;
        o := Pass;
      case Err(e) =>
        o := Fail(e);
    }

    /** `file_put_contents()`, whose failure is not checked. */
    method PutFile(p: Path, content: string)
      modifies this
      ensures tree == PutContents(old(tree), p, content)
    {
      tree := PutContents(tree, p, content);
    }
  }
}
