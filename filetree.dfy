/**
 * The abstract file system every shell command of the artifact builder
 * acts on: a map from a path, relative to the project root, to what is
 * stored there. A path is a sequence of components; the project root
 * itself is the empty path and is never a key.
 */
module FileTree {
  import opened Outcomes

  datatype Entry = File(content: string) | Dir | Symlink(target: string)

  type Path = seq<string>

  type Tree = map<Path, Entry>

  // ---------------------------------------------------------------------
  // Strings and paths: `explode('/')`, `implode('/')`

  function Count(c: char, s: string): nat {
    if s == [] then 0 else Count(c, s[..|s| - 1]) + (if s[|s| - 1] == c then 1 else 0)
  }

  /** Index of the last `c` in `s`, or -1. */
  function LastIndexOf(c: char, s: string): (r: int)
    ensures -1 <= r < |s|
    ensures r >= 0 ==> s[r] == c && c !in s[r + 1..]
    ensures r < 0 <==> c !in s
  {
    if s == [] then -1
    else if s[|s| - 1] == c then |s| - 1
    else
      var r := LastIndexOf(c, s[..|s| - 1]);
      assert r >= 0 ==> s[r + 1..] == s[..|s| - 1][r + 1..] + [s[|s| - 1]];
      assert s == s[..|s| - 1] + [s[|s| - 1]];
      r
  }

  /** `explode('/', $s)`: the pieces between the slashes, always at least one. */
  function Explode(s: string): (parts: seq<string>)
    ensures |parts| >= 1
    ensures forall i :: 0 <= i < |parts| ==> '/' !in parts[i]
    decreases |s|
  {
    var j := LastIndexOf('/', s);
    if j < 0 then [s]
    else
      var front := Explode(s[..j]);
      var last := s[j + 1..];
      assert forall i :: 0 <= i < |front| + 1 ==> (front + [last])[i] == if i < |front| then front[i] else last;
      front + [last]
  }

  /** `implode('/', $parts)`. */
  function Implode(parts: seq<string>): string {
    if parts == [] then ""
    else if |parts| == 1 then parts[0]
    else Implode(parts[..|parts| - 1]) + "/" + parts[|parts| - 1]
  }

  /** `s` repeated `n` times, built by appending as a loop would. */
  function Repeat(s: string, n: nat): string {
    if n == 0 then "" else Repeat(s, n - 1) + s
  }

  lemma {:induction false} ImplodeExplode(s: string)
    ensures Implode(Explode(s)) == s
    decreases |s|
  {
    var j := LastIndexOf('/', s);
    if j >= 0 {
      ImplodeExplode(s[..j]);
      var p := Explode(s[..j]);
      assert Explode(s)[..|Explode(s)| - 1] == p;
      assert s == s[..j] + "/" + s[j + 1..];
    }
  }

  /** One more piece than there are slashes. */
  lemma {:induction false} ExplodeLength(s: string)
    ensures |Explode(s)| == Count('/', s) + 1
    decreases |s|
  {
    var j := LastIndexOf('/', s);
    ExplodeSplit(s);
    if j < 0 {
      NoOccurrenceCountsZero('/', s);
    } else {
      assert Count('/', s) == Count('/', s[..j]) + 1 by {
        assert s == s[..j] + ("/" + s[j + 1..]);
        CountSplit('/', s[..j], "/" + s[j + 1..]);
        CountSplit('/', "/", s[j + 1..]);
        NoOccurrenceCountsZero('/', s[j + 1..]);
      }
      ExplodeLength(s[..j]);
    }
  }

  lemma {:induction false} NoOccurrenceCountsZero(c: char, s: string)
    requires c !in s
    ensures Count(c, s) == 0
    decreases |s|
  {
    if s != [] {
      assert s == s[..|s| - 1] + [s[|s| - 1]];
      NoOccurrenceCountsZero(c, s[..|s| - 1]);
    }
  }

  lemma {:induction false} CountSplit(c: char, a: string, b: string)
    ensures Count(c, a + b) == Count(c, a) + Count(c, b)
    decreases |b|
  {
    if b == [] {
      assert a + b == a;
    } else {
      CountSplit(c, a, b[..|b| - 1]);
      assert (a + b)[..|a + b| - 1] == a + b[..|b| - 1];
      assert (a + b)[|a + b| - 1] == b[|b| - 1];
    }
  }

  /** Splitting at a slash splits the pieces. */
  lemma {:induction false} ExplodeConcat(a: string, b: string)
    ensures Explode(a + "/" + b) == Explode(a) + Explode(b)
    decreases |b|
  {
    var jb := LastIndexOf('/', b);
    if jb < 0 {
      ExplodeConcatLast(a, b);
      ExplodeSplit(b);
    } else {
      var b1, b2 := b[..jb], b[jb + 1..];
      assert b == b1 + "/" + b2;
      assert a + "/" + b == (a + "/" + b1) + "/" + b2;
      calc {
        Explode(a + "/" + b);
        { ExplodeConcatLast(a + "/" + b1, b2); }
        Explode(a + "/" + b1) + [b2];
        { ExplodeConcat(a, b1); }
        Explode(a) + Explode(b1) + [b2];
        { ExplodeSplit(b); }
        Explode(a) + Explode(b);
      }
    }
  }

  /** A last piece without a slash is the last piece. */
  lemma ExplodeConcatLast(a: string, b: string)
    requires '/' !in b
    ensures Explode(a + "/" + b) == Explode(a) + [b]
  {
    var s := a + "/" + b;
    assert LastIndexOf('/', s) == |a| by {
      LastIndexOfAppend('/', a + "/", b);
      assert LastIndexOf('/', a + "/") == |a|;
    }
    assert s[..|a|] == a && s[|a| + 1..] == b;
    ExplodeSplit(s);
  }

  /** One unfolding of `Explode`: the pieces before the last slash, then what follows it. */
  lemma ExplodeSplit(s: string)
    ensures LastIndexOf('/', s) < 0 ==> Explode(s) == [s]
    ensures LastIndexOf('/', s) >= 0 ==> Explode(s) == Explode(s[..LastIndexOf('/', s)]) + [s[LastIndexOf('/', s) + 1..]]
  {
  }

  lemma {:induction false} LastIndexOfAppend(c: char, x: string, y: string)
    ensures LastIndexOf(c, x + y) == if c in y then |x| + LastIndexOf(c, y) else LastIndexOf(c, x)
    decreases |y|
  {
    var s := x + y;
    if y == [] {
      assert s == x;
    } else {
      assert s[..|s| - 1] == x + y[..|y| - 1];
      assert s[|s| - 1] == y[|y| - 1];
      assert y == y[..|y| - 1] + [y[|y| - 1]];
      if y[|y| - 1] != c {
        LastIndexOfAppend(c, x, y[..|y| - 1]);
      }
    }
  }

  // ---------------------------------------------------------------------
  // Paths of the tree

  /** The path a command-line string names: empty and `.` components are dropped. */
  function PathOf(s: string): (p: Path)
    ensures forall i :: 0 <= i < |p| ==> p[i] != "" && p[i] != "."
  {
    Clean(Explode(s))
  }

  function Clean(parts: seq<string>): (p: Path)
    ensures forall i :: 0 <= i < |p| ==> p[i] != "" && p[i] != "."
    ensures |p| <= |parts|
  {
    if parts == [] then []
    else
      var rest := Clean(parts[1..]);
      if parts[0] == "" || parts[0] == "." then rest else [parts[0]] + rest
  }

  /** A component an option string may safely use: not empty, not `.`, not `..`. */
  predicate PlainName(c: string) { c != "" && c != "." && c != ".." }

  /** A relative path string whose pieces are all plain names. */
  predicate PlainPath(s: string) {
    forall i :: 0 <= i < |Explode(s)| ==> PlainName(Explode(s)[i])
  }

  lemma {:induction false} CleanKeepsPlain(parts: seq<string>)
    requires forall i :: 0 <= i < |parts| ==> PlainName(parts[i])
    ensures Clean(parts) == parts
    decreases |parts|
  {
    if parts != [] {
      CleanKeepsPlain(parts[1..]);
    }
  }

  /** A component whose name starts with a dot, which the shell glob `*` skips. */
  predicate Hidden(name: string) { |name| > 0 && name[0] == '.' }

  predicate IsDir(t: Tree, p: Path) { p in t && t[p].Dir? }

  /** `is_link()`: the entry itself is a symbolic link (not followed). */
  predicate IsLink(t: Tree, p: Path) { p in t && t[p].Symlink? }

  /** The parent of `p` is the project root or a directory. */
  predicate ParentIsDir(t: Tree, p: Path) {
    |p| >= 1 && (|p| == 1 || IsDir(t, p[..|p| - 1]))
  }

  /** Whether some entry sits directly inside `p`. */
  predicate HasChildren(t: Tree, p: Path) {
    exists q :: q in t && |q| == |p| + 1 && p < q
  }

  // ---------------------------------------------------------------------
  // Symbolic links and `file_exists()`

  /** Linux gives up after this many symbolic links on one lookup (ELOOP). */
  const MaxSymlinkHops: nat := 40

  /** Walks `parts` from directory `dir`; `..` above the project root leaves the modelled tree. */
  function Walk(dir: Path, parts: seq<string>): Option<Path>
    decreases |parts|
  {
    if parts == [] then Some(dir)
    else if parts[0] == "" || parts[0] == "." then Walk(dir, parts[1..])
    else if parts[0] == ".." then (if dir == [] then None else Walk(dir[..|dir| - 1], parts[1..]))
    else Walk(dir + [parts[0]], parts[1..])
  }

  /** Where a link at `link` with text `target` points; absolute targets lie outside the modelled tree. */
  function Follow(link: Path, target: string): Option<Path>
    requires |link| >= 1
  {
    if |target| > 0 && target[0] == '/' then None
    else Walk(link[..|link| - 1], Explode(target))
  }

  function Resolve(t: Tree, p: Path, hops: nat): Option<Path>
    decreases hops
  {
    if p == [] then Some([])
    else if p !in t then None
    else match t[p]
      case Symlink(target) =>
        if hops == 0 then None
        else (match Follow(p, target)
              case None => None
              case Some(q) => Resolve(t, q, hops - 1))
      case _ => Some(p)
  }

  /** `file_exists()`: the path is there, following symbolic links. */
  predicate Exists(t: Tree, p: Path) {
    Resolve(t, p, MaxSymlinkHops).Some?
  }

  /** No path the lookup of `p` visits, the links it follows included, lies at or below `root`. */
  predicate LookupAvoids(t: Tree, p: Path, hops: nat, root: Path)
    decreases hops
  {
    !(root <= p)
    && (p != [] && p in t && t[p].Symlink? && hops > 0 && Follow(p, t[p].target).Some? ==>
          LookupAvoids(t, Follow(p, t[p].target).value, hops - 1, root))
  }

  /**
   * A lookup that never visits `root` or anything below it finds the same
   * thing in every tree that agrees outside `root`, and avoids `root` there too.
   */
  lemma {:induction false} ResolveOutside(t: Tree, u: Tree, p: Path, hops: nat, root: Path)
    requires Outside(u, root) == Outside(t, root)
    requires LookupAvoids(t, p, hops, root)
    ensures Resolve(u, p, hops) == Resolve(t, p, hops)
    ensures LookupAvoids(u, p, hops, root)
    decreases hops
  {
    if p != [] {
      assert p in u <==> p in Outside(u, root);
      assert p in t <==> p in Outside(t, root);
      if p in t {
        assert u[p] == Outside(u, root)[p] == t[p];
        if t[p].Symlink? && hops > 0 && Follow(p, t[p].target).Some? {
          ResolveOutside(t, u, Follow(p, t[p].target).value, hops - 1, root);
        }
      }
    }
  }

  // ---------------------------------------------------------------------
  // Sub-trees

  /** The entries at and below `root`, keyed relative to it (`root` itself is the key `[]`). */
  function Sub(t: Tree, root: Path): (s: Tree)
    ensures forall k :: k in s <==> root + k in t
    ensures forall k :: k in s ==> s[k] == t[root + k]
    ensures forall q :: q in t && root <= q ==> q[|root|..] in s
  {
    PrefixSplit(root);
    var keys := set q | q in t && root <= q :: q[|root|..];
    assert forall k :: root + k in t ==> k in keys by {
      forall k | root + k in t ensures k in keys {
        assert (root + k)[|root|..] == k;
      }
    }
    map k | k in keys :: t[root + k]
  }

  /** A relative tree placed under `root`. */
  function Graft(s: Tree, root: Path): (g: Tree)
    ensures forall k :: k in s ==> root + k in g && g[root + k] == s[k]
    ensures forall q :: q in g ==> root <= q && q[|root|..] in s && s[q[|root|..]] == g[q]
  {
    AppendCancel(root);
    var keys := set k | k in s :: root + k;
    map q | q in keys :: s[q[|root|..]]
  }

  /** Laying `s` over `t` at `root` changes nothing outside `root` and puts `s` there. */
  lemma Overlay(t: Tree, s: Tree, root: Path)
    ensures Outside(t + Graft(s, root), root) == Outside(t, root)
    ensures forall k :: k in s ==> k in Sub(t + Graft(s, root), root) && Sub(t + Graft(s, root), root)[k] == s[k]
  {
    var u := t + Graft(s, root);
    assert forall q :: q in u && !(root <= q) ==> q in t && u[q] == t[q];
  }

  /** Grafting onto a place where nothing is yet reproduces the grafted tree exactly. */
  lemma GraftFresh(t: Tree, s: Tree, root: Path)
    requires Sub(t, root) == map[]
    ensures Sub(t + Graft(s, root), root) == s
  {
    var u := t + Graft(s, root);
    Overlay(t, s, root);
    forall k | k in Sub(u, root) ensures k in s {
      assert (root + k)[|root|..] == k;
    }
  }

  lemma AppendCancel(root: Path)
    ensures forall k :: (root + k)[|root|..] == k
    ensures forall k1, k2 :: root + k1 == root + k2 ==> k1 == k2
  {
    forall k1, k2 | root + k1 == root + k2 ensures k1 == k2 {
      assert (root + k1)[|root|..] == k1;
    }
  }

  lemma PrefixSplit(root: Path)
    ensures forall q :: root <= q ==> q == root + q[|root|..]
  {
  }

  /** The part of the tree outside `root`. */
  function Outside(t: Tree, root: Path): (o: Tree)
    ensures forall q :: q in o <==> q in t && !(root <= q)
    ensures forall q :: q in o ==> o[q] == t[q]
  {
    map q | q in t && !(root <= q) :: t[q]
  }

  /** `t` and `u` hold the same entries everywhere except at and below `root`. */
  predicate SameOutside(t: Tree, u: Tree, root: Path) {
    Outside(t, root) == Outside(u, root)
  }
}
