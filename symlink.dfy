/**
 * The symbolic link `generateArtifact()` of the build command places inside
 * the artifact folder, pointing at the copy of the docroot. Both command
 * lines run with the artifact folder as working directory.
 */
module BuildSymlink {
  import opened Outcomes
  import opened FileTree
  import opened Shell
  import opened BaseCommand

  // ---------------------------------------------------------------------
  // The two command lines

  /** `mkdir -p <s>` run inside the artifact folder. */
  function MakeDirsIn(t: Tree, s: string): (e: Effect)
    ensures e.outcome.Fail? ==> e.tree == t
    ensures forall q :: q in t ==> q in e.tree && e.tree[q] == t[q]
  {
    match Locate(ArtifactFolder, s)
    case None => Effect(Fail(ProcessFailed("mkdir -p", [s])), t)
    case Some(p) =>
      match MkdirP(t, p)
      case Err(x) => Effect(Fail(x), t)
      case Ok(u) => Effect(Pass, u)
  }

  /** `ln -s <target> <s>` run inside the artifact folder. */
  function LinkIn(t: Tree, target: string, s: string): (e: Effect)
    ensures e.outcome.Fail? ==> e.tree == t
    ensures forall q :: q in t ==> q in e.tree && e.tree[q] == t[q]
  {
    match Locate(ArtifactFolder, s)
    case None => Effect(Fail(ProcessFailed("ln -s", [s])), t)
    case Some(l) =>
      match Ln(t, target, l)
      case Err(x) => Effect(Fail(x), t)
      case Ok(u) => Effect(Pass, u)
  }

  /** The command line `mkdir -p <s>` hands to the shell from inside the artifact folder. */
  function MakeDirsCommand(s: string): Command {
    match Locate(ArtifactFolder, s)
    case None => BadOperand("mkdir -p", s)
    case Some(p) => MakeDirs(p)
  }

  /** The command line `ln -s <target> <s>` hands to the shell from inside the artifact folder. */
  function LinkCommand(target: string, s: string): Command {
    match Locate(ArtifactFolder, s)
    case None => BadOperand("ln -s", s)
    case Some(l) => SymLink(target, l)
  }

  lemma RunMakeDirs(t: Tree, s: string)
    ensures Run(t, MakeDirsCommand(s)) == MakeDirsIn(t, s)
  {
  }

  lemma RunLink(t: Tree, target: string, s: string)
    ensures Run(t, LinkCommand(target, s)) == LinkIn(t, target, s)
  {
  }

  /** The pieces of the link path without the last one: the folders `mkdir -p` creates. */
  function LinkParent(symlink: string): string {
    var parts := Explode(symlink);
    Implode(parts[..|parts| - 1])
  }

  // ---------------------------------------------------------------------
  // The link as the code writes it

  /** The link text as written: one `../` for every piece in front of the last, then the docroot. */
  function TargetAsWritten(docroot: string, symlink: string): string {
    Repeat("../", |Explode(symlink)| - 1) + docroot
  }

  /**
   * The symlink step as written: with a slash in the option, `mkdir -p` of
   * the pieces before the last and `ln -s <../ per piece><docroot> <symlink>`;
   * without one, `ln -s <docroot> <symlink>`.
   */
  function SymlinkAsWritten(t: Tree, docroot: string, symlink: string): Effect {
    if |Explode(symlink)| > 1 then
      var e := MakeDirsIn(t, LinkParent(symlink));
      if e.outcome.Fail? then e else LinkIn(e.tree, TargetAsWritten(docroot, symlink), symlink)
    else LinkIn(t, docroot, symlink)
  }

  /**
   * With `./<name>` the code counts two pieces and writes `../<docroot>`,
   * although the link lands directly in the artifact folder: the link
   * points at the project's own docroot, outside the artifact.
   */
  lemma DotPrefixEscapes(name: string, docroot: string)
    requires PlainName(name) && '/' !in name
    requires PlainName(docroot) && '/' !in docroot
    ensures Locate(ArtifactFolder, "./" + name) == Some(ArtifactFolder + [name])
    ensures TargetAsWritten(docroot, "./" + name) == "../" + docroot
    ensures Follow(ArtifactFolder + [name], TargetAsWritten(docroot, "./" + name)) == Some([docroot])
  {
    ExplodeDot(name);
    LocateDot(name);
    assert Repeat("../", 1) == "../";
    FollowUp(name, docroot);
  }

  lemma ExplodeDot(name: string)
    requires '/' !in name
    ensures Explode("./" + name) == [".", name]
  {
    calc {
      Explode("./" + name);
      { assert "./" + name == "." + "/" + name; }
      Explode("." + "/" + name);
      { ExplodeConcat(".", name); }
      Explode(".") + Explode(name);
      { ExplodeWord("."); ExplodeWord(name); }
      [".", name];
    }
  }

  lemma LocateDot(name: string)
    requires PlainName(name) && '/' !in name
    ensures Locate(ArtifactFolder, "./" + name) == Some(ArtifactFolder + [name])
  {
    ExplodeDot(name);
    var parts := [".", name];
    assert parts[1..] == [name];
    assert Walk(ArtifactFolder, parts) == Walk(ArtifactFolder, [name]);
    assert [name][1..] == [];
  }

  lemma FollowUp(name: string, docroot: string)
    requires PlainName(docroot) && '/' !in docroot
    ensures Follow(ArtifactFolder + [name], "../" + docroot) == Some([docroot])
  {
    ExplodeParent(docroot);
    ExplodeWord(docroot);
    assert ".." + "/" + docroot == "../" + docroot;
    var parts := ["..", docroot];
    var link := ArtifactFolder + [name];
    assert link[..|link| - 1] == ArtifactFolder;
    assert ("../" + docroot)[0] == '.';
    assert parts[1..] == [docroot];
    assert ArtifactFolder[..|ArtifactFolder| - 1] == [];
    assert Walk(ArtifactFolder, parts) == Walk([], [docroot]);
    assert [docroot][1..] == [];
    var root: Path := [];
    assert root + [docroot] == [docroot];
    assert Walk(root, [docroot]) == Walk([docroot], []);
  }

  /** The default link name written `./public_html`: the link leads to `web` of the project, not of the artifact. */
  lemma AsWrittenEscapes()
    ensures Follow(ArtifactFolder + ["public_html"], TargetAsWritten("web", "./" + "public_html")) == Some(["web"])
    ensures Locate(ArtifactFolder, "./" + "public_html") == Some(ArtifactFolder + ["public_html"])
  {
    DotPrefixEscapes("public_html", "web");
  }

  lemma ExplodeWord(s: string)
    requires '/' !in s
    ensures Explode(s) == [s]
  {
    assert LastIndexOf('/', s) < 0;
  }

  // ---------------------------------------------------------------------
  // The link as intended

  /** How deep below the artifact folder the link's own folder lies. */
  function LinkDepth(symlink: string): nat {
    match Locate(ArtifactFolder, symlink)
    case Some(l) => if |l| >= 2 then |l| - 2 else 0
    case None => 0
  }

  /** The link text that climbs from the link's folder back to the artifact folder, then the docroot. */
  function LinkTarget(docroot: string, symlink: string): string {
    Repeat("../", LinkDepth(symlink)) + docroot
  }

  /**
   * The symlink step with the climb counted on the path the link lands at;
   * whatever the outcome, it only adds entries.
   */
  function MakeSymlink(t: Tree, docroot: string, symlink: string): (e: Effect)
    ensures forall q :: q in t ==> q in e.tree && e.tree[q] == t[q]
  {
    if |Explode(symlink)| > 1 then
      var e := MakeDirsIn(t, LinkParent(symlink));
      if e.outcome.Fail? then e else LinkIn(e.tree, LinkTarget(docroot, symlink), symlink)
    else LinkIn(t, docroot, symlink)
  }

  /** `..` repeated `k` times, as path pieces. */
  function Ups(k: nat): (r: seq<string>)
    ensures |r| == k
    ensures forall i :: 0 <= i < k ==> r[i] == ".."
  {
    Pieces("..", k)
  }

  /** The piece `w`, `k` times. */
  function Pieces(w: string, k: nat): (r: seq<string>)
    ensures |r| == k
    ensures forall i :: 0 <= i < k ==> r[i] == w
  {
    if k == 0 then [] else Pieces(w, k - 1) + [w]
  }

  /** `../` written `k` times in front of a path falls apart into `k` pieces `..` and the path's pieces. */
  lemma ExplodeUp(k: nat, d: string)
    ensures Explode(Repeat("../", k) + d) == Ups(k) + Explode(d)
  {
    var w := "..";
    assert w + "/" == "../";
    assert '/' !in w;
    ExplodeRepeat(k, w, d);
  }

  /** A slash-free piece `w` followed by a slash, `k` times, then `d`: `k` pieces `w`, then `d`'s pieces. */
  lemma {:induction false} ExplodeRepeat(k: nat, w: string, d: string)
    requires '/' !in w
    ensures Explode(Repeat(w + "/", k) + d) == Pieces(w, k) + Explode(d)
    decreases k
  {
    if k == 0 {
      assert Repeat(w + "/", 0) + d == d;
      assert Pieces(w, 0) + Explode(d) == Explode(d);
    } else {
      ExplodeRepeat(k - 1, w, w + "/" + d);
      ExplodeRepeatStep(k, w, d);
    }
  }

  /** One more `w/` in front adds one piece `w` in front. */
  lemma ExplodeRepeatStep(k: nat, w: string, d: string)
    requires '/' !in w && k > 0
    requires Explode(Repeat(w + "/", k - 1) + (w + "/" + d)) == Pieces(w, k - 1) + Explode(w + "/" + d)
    ensures Explode(Repeat(w + "/", k) + d) == Pieces(w, k) + Explode(d)
  {
    var front := Repeat(w + "/", k - 1);
    assert Repeat(w + "/", k) + d == front + (w + "/" + d) by {
      assert Repeat(w + "/", k) == front + (w + "/");
      assert front + (w + "/") + d == front + (w + "/" + d);
    }
    assert Explode(w + "/" + d) == [w] + Explode(d) by {
      ExplodeConcat(w, d);
      ExplodeWord(w);
    }
    assert Pieces(w, k) == Pieces(w, k - 1) + [w];
    assert Pieces(w, k - 1) + ([w] + Explode(d)) == Pieces(w, k) + Explode(d);
  }

  lemma ExplodeParent(d: string)
    ensures Explode(".." + "/" + d) == [".."] + Explode(d)
  {
    ExplodeConcat("..", d);
    ExplodeWord("..");
  }

  /** Climbing `k` times from `dir` and then walking `rest` walks `rest` from `k` levels up. */
  lemma {:induction false} WalkUp(dir: Path, k: nat, rest: seq<string>)
    requires k <= |dir|
    ensures Walk(dir, Ups(k) + rest) == Walk(dir[..|dir| - k], rest)
    decreases k
  {
    if k == 0 {
      assert Ups(0) + rest == rest;
      assert dir[..|dir|] == dir;
    } else {
      var parts := Ups(k) + rest;
      assert parts[0] == "..";
      assert parts[1..] == Ups(k - 1) + rest;
      var up := dir[..|dir| - 1];
      WalkUp(up, k - 1, rest);
      assert up[..|up| - (k - 1)] == dir[..|dir| - k];
    }
  }

  /**
   * Wherever the link lands below the artifact folder, its text leads from
   * the link's folder back to the copy of the docroot, `deploy-artifact/<docroot>`.
   */
  lemma LinkTargetResolves(docroot: string, symlink: string, l: Path)
    requires docroot != "" && PlainPath(docroot)
    requires Locate(ArtifactFolder, symlink) == Some(l) && ArtifactFolder < l
    ensures Follow(l, LinkTarget(docroot, symlink)) == Some(ArtifactFolder + Explode(docroot))
  {
    var k := |l| - 2;
    var target := LinkTarget(docroot, symlink);
    assert target == Repeat("../", k) + docroot;
    ExplodeUp(k, docroot);
    assert target[0] != '/' by {
      if k == 0 {
        var parts := Explode(docroot);
        assert PlainName(parts[0]);
        FirstPieceLeads(docroot);
      } else {
        assert Repeat("../", k) == Repeat("../", k - 1) + "../";
        RepeatStart(k);
      }
    }
    var dir := l[..|l| - 1];
    WalkUp(dir, k, Explode(docroot));
    assert dir[..|dir| - k] == ArtifactFolder by {
      assert l[..1] == ArtifactFolder;
    }
    WalkPlain(ArtifactFolder, Explode(docroot));
  }

  /** A path whose first piece is not empty does not start with a slash. */
  lemma FirstPieceLeads(s: string)
    requires s != "" && Explode(s)[0] != ""
    ensures s[0] != '/'
  {
    var j := LastIndexOf('/', s);
    if s[0] == '/' {
      assert j >= 0;
      FirstPieceEmpty(s);
    }
  }

  lemma {:induction false} FirstPieceEmpty(s: string)
    requires s != "" && s[0] == '/'
    ensures Explode(s)[0] == ""
    decreases |s|
  {
    var j := LastIndexOf('/', s);
    if j > 0 {
      assert s[..j][0] == '/';
      FirstPieceEmpty(s[..j]);
    } else {
      assert j == 0;
      assert s[..0] == "";
      ExplodeWord("");
    }
  }

  lemma RepeatStart(k: nat)
    requires k >= 1
    ensures |Repeat("../", k)| >= 1 && Repeat("../", k)[0] == '.'
  {
    if k > 1 {
      RepeatStart(k - 1);
    }
  }

  // ---------------------------------------------------------------------
  // Both agree on plain paths

  /** For a path made of plain names the code's count is the intended one. */
  lemma PlainLinkAgrees(t: Tree, docroot: string, symlink: string)
    requires symlink != "" && PlainPath(symlink)
    ensures TargetAsWritten(docroot, symlink) == LinkTarget(docroot, symlink)
    ensures SymlinkAsWritten(t, docroot, symlink) == MakeSymlink(t, docroot, symlink)
  {
    LocatePlain(ArtifactFolder, symlink);
  }

  /** The number of `../` the code writes is the number of slashes in the option. */
  lemma LevelsAreSlashes(symlink: string)
    ensures |Explode(symlink)| - 1 == Count('/', symlink)
  {
    ExplodeLength(symlink);
  }

  /** Joining pieces without slashes and splitting again gives the pieces back. */
  lemma {:induction false} ExplodeImplode(parts: seq<string>)
    requires parts != [] && forall i :: 0 <= i < |parts| ==> '/' !in parts[i]
    ensures Explode(Implode(parts)) == parts
    decreases |parts|
  {
    var n := |parts| - 1;
    if n == 0 {
      ExplodeWord(parts[0]);
    } else {
      ExplodeImplode(parts[..n]);
      ExplodeConcat(Implode(parts[..n]), parts[n]);
      ExplodeWord(parts[n]);
      assert parts[..n] + [parts[n]] == parts;
    }
  }

  /** For a plain path with a slash, `mkdir -p` names exactly the folder the link lands in. */
  lemma LinkParentLocated(symlink: string)
    requires symlink != "" && PlainPath(symlink) && |Explode(symlink)| > 1
    ensures var parts := Explode(symlink);
      Locate(ArtifactFolder, LinkParent(symlink)) == Some(ArtifactFolder + parts[..|parts| - 1])
  {
    var parts := Explode(symlink);
    var front := parts[..|parts| - 1];
    ExplodeImplode(front);
    assert forall i :: 0 <= i < |Explode(Implode(front))| ==> PlainName(Explode(Implode(front))[i]);
    assert Implode(front) != "" by {
      if Implode(front) == "" {
        ExplodeWord("");
      }
    }
    LocatePlain(ArtifactFolder, Implode(front));
  }

  /**
   * On a plain link path whose folders can be made and whose own place is
   * free, the step succeeds, keeps every entry it found, and leaves a link
   * that leads to the copy of the docroot.
   */
  lemma MakeSymlinkPlain(t: Tree, docroot: string, symlink: string)
    requires docroot != "" && PlainPath(docroot)
    requires symlink != "" && PlainPath(symlink)
    requires IsDir(t, ArtifactFolder)
    requires var l := ArtifactFolder + Explode(symlink); l !in t && DirsAlong(t, l[..|l| - 1])
    ensures var l := ArtifactFolder + Explode(symlink); var e := MakeSymlink(t, docroot, symlink);
      e.outcome.Pass? && l in e.tree && e.tree[l] == Symlink(LinkTarget(docroot, symlink))
      && Follow(l, LinkTarget(docroot, symlink)) == Some(ArtifactFolder + Explode(docroot))
  {
    var l := ArtifactFolder + Explode(symlink);
    LocatePlain(ArtifactFolder, symlink);
    LinkTargetResolves(docroot, symlink, l);
    if |Explode(symlink)| > 1 {
      MakeSymlinkNested(t, docroot, symlink, l);
    } else {
      assert LinkTarget(docroot, symlink) == docroot by {
        assert Repeat("../", 0) + docroot == docroot;
      }
      assert l[..|l| - 1] == ArtifactFolder;
      LinkInAt(t, docroot, symlink, l);
    }
  }

  /** The case with folders to make: `mkdir -p` of the parent, then the link inside it. */
  lemma MakeSymlinkNested(t: Tree, docroot: string, symlink: string, l: Path)
    requires PlainPath(symlink) && |Explode(symlink)| > 1
    requires l == ArtifactFolder + Explode(symlink) && Locate(ArtifactFolder, symlink) == Some(l)
    requires l !in t && DirsAlong(t, l[..|l| - 1])
    ensures MakeSymlink(t, docroot, symlink) == Effect(Pass, MkdirP(t, l[..|l| - 1]).value[l := Symlink(LinkTarget(docroot, symlink))])
  {
    var parts := Explode(symlink);
    var parent := l[..|l| - 1];
    LinkParentLocated(symlink);
    assert parent == ArtifactFolder + parts[..|parts| - 1];
    MakeDirsInAt(t, LinkParent(symlink), parent);
    var u := MkdirP(t, parent).value;
    assert IsDir(u, parent) by {
      assert parent[..|parent|] == parent;
      assert parent in Prefixes(parent);
    }
    assert l !in u by {
      forall q | q in Prefixes(parent) ensures q != l { }
    }
    LinkInAt(u, LinkTarget(docroot, symlink), symlink, l);
  }

  /** `mkdir -p` inside the artifact folder of a located path whose prefixes allow it. */
  lemma MakeDirsInAt(t: Tree, s: string, p: Path)
    requires Locate(ArtifactFolder, s) == Some(p) && DirsAlong(t, p)
    ensures MakeDirsIn(t, s) == Effect(Pass, MkdirP(t, p).value)
  {
  }

  /** `ln -s` inside the artifact folder at a located free place whose parent is a directory. */
  lemma LinkInAt(t: Tree, target: string, s: string, l: Path)
    requires |l| >= 2 && Locate(ArtifactFolder, s) == Some(l) && l !in t && IsDir(t, l[..|l| - 1])
    ensures LinkIn(t, target, s) == Effect(Pass, t[l := Symlink(target)])
  {
    assert LinkPlace(t, target, l) == Some(l);
  }

  // ---------------------------------------------------------------------
  // The loop that builds the climb

  /** The `for` loop appending `../` once per level. */
  method DirectoryLevels(levels: nat) returns (s: string)
    ensures s == Repeat("../", levels)
    ensures |s| == 3 * levels
  {
    s := "";
    var i := 0;
    while i < levels
      invariant 0 <= i <= levels
      invariant s == Repeat("../", i)
      invariant |s| == 3 * i
    {
      s := s + "../";
      i := i + 1;
    }
  }
}
