/** Slash-separated paths: the subset of `filepath.Join`, `filepath.Dir` and
    `filepath.Clean` that xplor relies on, for clean components. */
module Paths {
  import opened Wrappers

  const Slash: char := '/'

  /** A single clean path component, as a directory listing yields it. */
  predicate IsComponent(n: string)
  {
    n != "" && Slash !in n && n != "." && n != ".."
  }

  /** `Clean`'s removal of one trailing slash (the root "/" keeps it). */
  function TrimSlash(s: string): (r: string)
    ensures |s| > 1 && s[|s| - 1] == Slash ==> r + [Slash] == s
    ensures !(|s| > 1 && s[|s| - 1] == Slash) ==> r == s
  {
    if |s| > 1 && s[|s| - 1] == Slash then s[..|s| - 1] else s
  }

  /** Drops a trailing slash, the root "/" included, before a separator is added. */
  function DropSlash(s: string): (r: string)
    ensures s != [] && s[|s| - 1] == Slash ==> r + [Slash] == s
    ensures !(s != [] && s[|s| - 1] == Slash) ==> r == s
  {
    if s != [] && s[|s| - 1] == Slash then s[..|s| - 1] else s
  }

  /** `filepath.Join(a, b)` for operands that are clean apart from at most one
      trailing slash: empty operands are skipped and exactly one separator
      stands between the two. */
  function Join(a: string, b: string): string
  {
    if a == "" then TrimSlash(b)
    else if b == "" then TrimSlash(a)
    else TrimSlash(DropSlash(a) + [Slash] + b)
  }

  /** Joining a parent and a clean component puts exactly one slash between them. */
  lemma JoinComponent(p: string, n: string)
    requires p != ""
    requires IsComponent(n)
    ensures Join(p, n) == DropSlash(p) + [Slash] + n
  {
    var s := DropSlash(p) + [Slash] + n;
    assert s[|s| - 1] == n[|n| - 1];
    assert n[|n| - 1] in n;
  }

  /** Index of the last slash in `s`. */
  function LastSlash(s: string): (r: Option<nat>)
    ensures r.Some? ==> r.value < |s| && s[r.value] == Slash
    ensures r.Some? ==> forall i :: r.value < i < |s| ==> s[i] != Slash
    ensures r.None? ==> Slash !in s
  {
    if s == [] then None
    else if s[|s| - 1] == Slash then Some(|s| - 1)
    else
      var r := LastSlash(s[..|s| - 1]);
      assert r.None? ==> forall i :: 0 <= i < |s| ==> s[i] != Slash by {
        if r.None? {
          forall i | 0 <= i < |s| ensures s[i] != Slash {
            if i < |s| - 1 {
              assert s[i] == s[..|s| - 1][i];
            }
          }
        }
      }
      r
  }

  /** `filepath.Dir` for a clean path: everything before the last slash,
      "/" for a top-level entry and "." when there is no slash at all. */
  function Dir(path: string): string
  {
    match LastSlash(path)
    case None => "."
    case Some(i) => if i == 0 then "/" else path[..i]
  }

  /** `filepath.Join(root, "..")` for a clean root. A relative root whose
      parent has no name (empty, ".", or ending in "..") gains one more
      "..". An absolute root goes to its parent directory, and "/" stays
      where it is. */
  function Up(root: string): (r: string)
    ensures root == "/" ==> r == "/"
    ensures IsCleanAbs(root) && root != "/" ==>
      r != [] && r[0] == Slash && |r| < |root| && (r == "/" || (root[..|r|] == r && root[|r|] == Slash))
  {
    if root == "" || root == "." then ".."
    else if root[0] != Slash && (root == ".." || (|root| >= 3 && root[|root| - 3..] == "/..")) then
      root + "/.."
    else Dir(root)
  }

  /** A clean absolute path: "/" or slash-led components with no trailing slash. */
  predicate IsCleanAbs(p: string)
  {
    p != [] && p[0] == Slash && (p == "/" || p[|p| - 1] != Slash)
  }

  /** `filepath.Base` for a clean path: everything after the last slash. */
  function Base(path: string): string
  {
    if path == "" then "."
    else match LastSlash(path)
      case None => path
      case Some(i) => if i == |path| - 1 then "/" else path[i + 1..]
  }

  /** The last slash of a child entry's path is the one `Join` put in. */
  lemma LastSlashOfJoin(p: string, n: string)
    requires IsCleanAbs(p)
    requires IsComponent(n)
    ensures LastSlash(Join(p, n)) == Some(|DropSlash(p)|)
  {
    JoinComponent(p, n);
    var s := DropSlash(p) + [Slash] + n;
    var k := |DropSlash(p)|;
    assert s[k] == Slash;
    forall i | k < i < |s| ensures s[i] != Slash {
      assert s[i] == n[i - k - 1];
    }
    var r := LastSlash(s);
    assert Slash in s by { assert s[k] == Slash; }
    assert r.Some?;
  }

  /** A child entry's path splits back into its directory and its name. */
  lemma DirBaseOfJoin(p: string, n: string)
    requires IsCleanAbs(p)
    requires IsComponent(n)
    ensures Dir(Join(p, n)) == p
    ensures Base(Join(p, n)) == n
  {
    JoinComponent(p, n);
    LastSlashOfJoin(p, n);
    var s := DropSlash(p) + [Slash] + n;
    var k := |DropSlash(p)|;
    assert s[k + 1..] == n;
    if k == 0 {
      assert p == "/";
    } else {
      assert s[..k] == DropSlash(p);
    }
  }

  /** Going up from a child entry gives back its directory. */
  lemma UpOfJoin(p: string, n: string)
    requires IsCleanAbs(p)
    requires IsComponent(n)
    ensures Up(Join(p, n)) == p
  {
    DirBaseOfJoin(p, n);
  }

  /** The path of an entry reached from `root` through the components `comps`,
      built the way the projector builds it: one `Join` per level. */
  function PathOf(root: string, comps: seq<string>): string
  {
    if comps == [] then root
    else Join(PathOf(root, comps[..|comps| - 1]), comps[|comps| - 1])
  }

  /** Below a clean absolute root every entry path is clean and absolute. */
  lemma {:induction false} PathOfClean(root: string, comps: seq<string>)
    requires IsCleanAbs(root)
    requires forall i :: 0 <= i < |comps| ==> IsComponent(comps[i])
    ensures IsCleanAbs(PathOf(root, comps))
  {
    if comps != [] {
      var init := comps[..|comps| - 1];
      var n := comps[|comps| - 1];
      PathOfClean(root, init);
      var q := PathOf(root, init);
      JoinComponent(q, n);
      var s := DropSlash(q) + [Slash] + n;
      assert s[|s| - 1] == n[|n| - 1];
      assert n[|n| - 1] in n;
      if DropSlash(q) == "" {
        assert s[0] == Slash;
      } else {
        assert s[0] == q[0];
      }
    }
  }

  /** Components separated by single slashes. */
  function JoinAll(comps: seq<string>): string
    requires comps != []
  {
    if |comps| == 1 then comps[0] else comps[0] + [Slash] + JoinAll(comps[1..])
  }

  predicate AllComponents(comps: seq<string>)
  {
    forall i :: 0 <= i < |comps| ==> IsComponent(comps[i])
  }

  lemma {:induction false} JoinAllShape(comps: seq<string>)
    requires comps != []
    requires AllComponents(comps)
    ensures JoinAll(comps) != ""
    ensures JoinAll(comps)[|JoinAll(comps)| - 1] != Slash
    ensures JoinAll(comps) != "/"
  {
    var last := comps[|comps| - 1];
    if |comps| == 1 {
      assert last[|last| - 1] in last;
    } else {
      assert comps[1..][|comps| - 2] == last;
      JoinAllShape(comps[1..]);
    }
  }

  lemma {:induction false} JoinAllSnoc(comps: seq<string>, n: string)
    requires comps != []
    ensures JoinAll(comps + [n]) == JoinAll(comps) + [Slash] + n
  {
    if |comps| > 1 {
      assert (comps + [n])[1..] == comps[1..] + [n];
      JoinAllSnoc(comps[1..], n);
    }
  }

  /** The level-by-level path equals the root followed by all components in
      order, one slash apart. */
  lemma {:induction false} PathOfFlat(root: string, comps: seq<string>)
    requires root != ""
    requires comps != []
    requires AllComponents(comps)
    ensures PathOf(root, comps) == DropSlash(root) + [Slash] + JoinAll(comps)
    decreases |comps|
  {
    var init := comps[..|comps| - 1];
    var n := comps[|comps| - 1];
    assert init + [n] == comps;
    assert PathOf(root, comps) == Join(PathOf(root, init), n);
    if init == [] {
      JoinComponent(root, n);
    } else {
      assert AllComponents(init) by {
        forall i | 0 <= i < |init| ensures IsComponent(init[i]) {
          assert init[i] == comps[i];
        }
      }
      PathOfFlat(root, init);
      FlatStep(DropSlash(root), init, n);
    }
  }

  lemma FlatStep(r: string, init: seq<string>, n: string)
    requires init != []
    requires AllComponents(init)
    requires IsComponent(n)
    ensures Join(r + [Slash] + JoinAll(init), n) == r + [Slash] + JoinAll(init + [n])
  {
    JoinAllShape(init);
    var q := JoinAll(init);
    var p := r + [Slash] + q;
    assert p[|p| - 1] == q[|q| - 1];
    assert DropSlash(p) == p;
    JoinComponent(p, n);
    JoinAllSnoc(init, n);
  }

  /** `Clean` only looks at the end of the string. */
  lemma TrimSlashAppend(p: string, q: string)
    requires q != "" && q != "/"
    ensures TrimSlash(p + q) == p + TrimSlash(q)
  {
    var s := p + q;
    assert s[|s| - 1] == q[|q| - 1];
    if |q| == 1 {
      assert q == [q[0]];
    } else if q[|q| - 1] == Slash {
      assert s[..|s| - 1] == p + q[..|q| - 1];
    }
  }

  /** Joining a directory name as written (trailing slash) with a relative path. */
  lemma JoinUnderDir(n: string, dir: string)
    requires IsComponent(n)
    requires dir != "" && dir != "/"
    ensures Join(n + [Slash], dir) == n + [Slash] + TrimSlash(dir)
  {
    assert DropSlash(n + [Slash]) == n;
    TrimSlashAppend(n + [Slash], dir);
  }

  lemma JoinAllFrom(c: seq<string>, from: nat)
    requires from + 1 < |c|
    ensures JoinAll(c[from..]) == c[from] + [Slash] + JoinAll(c[from + 1..])
  {
    assert c[from..][0] == c[from] && c[from..][1..] == c[from + 1..];
  }
}
