/** `abspath`: from one line of the buffer back to the path it shows, by
    looking for the nearest earlier line one level less indented, level by
    level. The editor's address evaluation is modelled as searches over the
    buffer's lines; an address is the index of the line it falls in. */
module Resolver {
  import opened Wrappers
  import opened Errors
  import opened Text
  import opened Paths
  import opened FileTree
  import opened Codec
  import opened Projector

  /** The path and depth `abspath` returns. */
  datatype Resolved = Resolved(path: string, depth: nat)

  /** The last line in [lo, hi) matching the level-`k` pattern. */
  function LastMatch(lines: seq<string>, lo: nat, hi: nat, k: nat): (r: Option<nat>)
    requires lo <= hi <= |lines|
    ensures r.Some? ==> lo <= r.value < hi && MatchesLevel(lines[r.value], k)
    ensures r.Some? ==> forall j :: r.value < j < hi ==> !MatchesLevel(lines[j], k)
    ensures r.None? ==> forall j :: lo <= j < hi ==> !MatchesLevel(lines[j], k)
    decreases hi - lo
  {
    if lo == hi then None
    else if MatchesLevel(lines[hi - 1], k) then Some(hi - 1)
    else LastMatch(lines, lo, hi - 1, k)
  }

  /** `addr-/^..\t{k}[^\t]/`: the nearest line before line `at` that matches;
      when there is none the search wraps round and takes the last match
      after `at`. */
  function SearchBack(lines: seq<string>, at: nat, k: nat): (r: Option<nat>)
    requires at < |lines|
    ensures r.Some? ==> r.value < |lines| && r.value != at && MatchesLevel(lines[r.value], k)
    ensures r.Some? && r.value < at ==> forall j :: r.value < j < at ==> !MatchesLevel(lines[j], k)
    ensures r.Some? && r.value > at ==>
      (forall j :: 0 <= j < at ==> !MatchesLevel(lines[j], k)) &&
      (forall j :: r.value < j < |lines| ==> !MatchesLevel(lines[j], k))
    ensures r.None? ==> forall j :: 0 <= j < |lines| && j != at ==> !MatchesLevel(lines[j], k)
  {
    match LastMatch(lines, 0, at, k)
    case Some(j) => Some(j)
    case None => LastMatch(lines, at + 1, |lines|, k)
  }

  /** The loop of `abspath` from `level` down to 1: each round prepends the
      name on the matching line one level up. It can only fail for want of a
      line at some level above the start (`ClimbFails` names that level). */
  function Climb(lines: seq<string>, at: nat, level: nat, dir: string): Result<string, Error>
    requires at < |lines|
    decreases level
  {
    if level == 0 then Ok(dir)
    else match SearchBack(lines, at, level - 1)
      case None => Failure(NoMatch(level - 1))
      case Some(j) => Climb(lines, at, level - 1, Join(Decode(lines[j]).name, dir))
  }

  /** `abspath(addr)` with `addr` in line `at`. A line that carries no name
      (the blank last line) yields the empty path with no error. The depth
      returned is the indentation of the clicked line; a failure is an
      address outside the buffer or a level with no line above it. */
  function Resolve(lines: seq<string>, at: nat, root: string): (r: Result<Resolved, Error>)
    ensures at >= |lines| ==> r == Failure(AddressOutOfRange(at))
    ensures at < |lines| && Decode(lines[at]).name == "" ==> r == Ok(Resolved("", 0))
    ensures at < |lines| && r.Ok? && Decode(lines[at]).name != "" ==> r.value.depth == Decode(lines[at]).depth
    ensures at < |lines| && r.Failure? ==>
      r.error.NoMatch? && r.error.level < Decode(lines[at]).depth && SearchBack(lines, at, r.error.level).None?
  {
    if at >= |lines| then Failure(AddressOutOfRange(at))
    else
      var d := Decode(lines[at]);
      if d.name == "" then Ok(Resolved("", 0))
      else match Climb(lines, at, d.depth, d.name)
        case Failure(e) => ClimbFails(lines, at, d.depth, d.name); Failure(e)
        case Ok(dir) => Ok(Resolved(Join(root, dir), d.depth))
  }

  /** When the climb fails, it names a level above the start at which no
      other line of the buffer matches. */
  lemma {:induction false} ClimbFails(lines: seq<string>, at: nat, level: nat, dir: string)
    requires at < |lines|
    requires Climb(lines, at, level, dir).Failure?
    ensures var e := Climb(lines, at, level, dir).error;
      e.NoMatch? && e.level < level && SearchBack(lines, at, e.level).None?
    decreases level
  {
    var j := SearchBack(lines, at, level - 1);
    if j.Some? {
      ClimbFails(lines, at, level - 1, Join(Decode(lines[j.value]).name, dir));
    }
  }

  /** How `Resolve` continues from a line that carries a name: the climb
      from the line's own depth and name, joined onto the root. */
  lemma ResolveNamed(lines: seq<string>, at: nat, root: string)
    requires at < |lines| && Decode(lines[at]).name != ""
    ensures var d := Decode(lines[at]);
      Resolve(lines, at, root) ==
        match Climb(lines, at, d.depth, d.name)
        case Failure(e) => Failure(e)
        case Ok(dir) => Ok(Resolved(Join(root, dir), d.depth))
  {
  }

  /** The buffer after `printRoot`: the entry lines and the blank line the
      final newline leaves. */
  function Buffer(rows: seq<Row>): seq<string>
  {
    RowLines(rows) + [""]
  }

  // Resolution on a projection.

  /** In linked rows that start at depth 0, as a projection's do, for every
      level `k` above row `i` the nearest earlier row at depth `k` is the
      directory that is `i`'s ancestor at that level,
      and every row in between is deeper than `k`. */
  lemma {:induction false} AncestorRow(rows: seq<Row>, i: nat, k: nat) returns (j: nat)
    requires Linked(rows) && rows != [] && rows[0].depth == 0
    requires i < |rows| && k < rows[i].depth
    ensures j < i && rows[j].depth == k && rows[j].isDir
    ensures |rows[i].comps| > k && rows[j].comps == rows[i].comps[..k + 1]
    ensures forall m :: j < m < i ==> rows[m].depth > k
    decreases i
  {
    assert i > 0;
    assert LinkedAt(rows, i);
    var p := i - 1;
    FollowsAncestor(rows[p], rows[i], k);
    if rows[p].depth == k {
      j := p;
      assert rows[p].comps == rows[p].comps[..k + 1];
    } else {
      j := AncestorRow(rows, p, k);
    }
  }

  /** The row before one at depth > k shares its ancestors down to level k. */
  lemma FollowsAncestor(prev: Row, cur: Row, k: nat)
    requires Follows(prev, cur) && k < cur.depth
    ensures prev.depth >= k && |prev.comps| > k && |cur.comps| > k
    ensures prev.comps[..k + 1] == cur.comps[..k + 1]
    ensures prev.depth == k ==> prev.isDir
  {
    assert prev.comps[..k + 1] == prev.comps[..cur.depth][..k + 1];
    assert cur.comps[..k + 1] == cur.comps[..cur.depth][..k + 1];
  }

  /** A row's line matches the level-`k` pattern exactly when its depth is `k`. */
  lemma RowMatches(r: Row, root: string, k: nat)
    requires RowOk(r, root)
    ensures MatchesLevel(Line(r), k) <==> r.depth == k
  {
    assert ValidName(r.comps[r.depth]);
    MatchesLevelEncoded(r.flag, r.depth, Display(r), k);
  }

  /** A row's line decodes to its displayed name and its depth. */
  lemma RowDecodes(r: Row, root: string)
    requires RowOk(r, root)
    ensures Decode(Line(r)) == Decoded(Display(r), r.depth)
  {
    assert ValidName(r.comps[r.depth]);
    DecodeEncode(r.flag, r.depth, Display(r));
  }

  /** The search of `abspath` for level `k` lands on the ancestor row. */
  lemma SearchFindsAncestor(rows: seq<Row>, root: string, i: nat, k: nat) returns (j: nat)
    requires Projection(rows, root)
    requires i < |rows| && k < rows[i].depth
    ensures SearchBack(Buffer(rows), i, k) == Some(j)
    ensures j < i && rows[j].isDir && rows[j].depth == k
    ensures |rows[i].comps| > k && rows[j].comps == rows[i].comps[..k + 1]
  {
    j := AncestorRow(rows, i, k);
    forall m | j <= m < i ensures RowOk(rows[m], root) {
      assert Under(rows[m], [], root);
    }
    LastMatchIsAncestor(rows, root, i, k, j);
  }

  /** Among rows that are all well formed, the last line before row `i`
      matching level `k` is row `j` when `j` is at depth `k` and every row
      in between is deeper. */
  lemma LastMatchIsAncestor(rows: seq<Row>, root: string, i: nat, k: nat, j: nat)
    requires j < i <= |rows|
    requires forall m :: j <= m < i ==> RowOk(rows[m], root)
    requires rows[j].depth == k && forall m :: j < m < i ==> rows[m].depth > k
    ensures LastMatch(Buffer(rows), 0, i, k) == Some(j)
  {
    var lines := Buffer(rows);
    RowMatches(rows[j], root, k);
    assert lines[j] == Line(rows[j]);
    forall m | j < m < i ensures !MatchesLevel(lines[m], k) {
      RowMatches(rows[m], root, k);
      assert lines[m] == Line(rows[m]);
    }
    var r := LastMatch(lines, 0, i, k);
    assert r.Some?;
    assert r.value == j;
  }

  lemma ValidTail(c: seq<string>, from: nat)
    requires ValidNames(c) && from < |c|
    ensures c[from..] != [] && AllComponents(c[from..])
  {
    forall m | 0 <= m < |c[from..]| ensures IsComponent(c[from..][m]) {
      assert c[from..][m] == c[from + m];
      assert ValidName(c[from + m]);
    }
  }

  lemma ClimbStep(lines: seq<string>, at: nat, level: nat, dir: string, j: nat)
    requires at < |lines| && level > 0
    requires SearchBack(lines, at, level - 1) == Some(j)
    ensures Climb(lines, at, level, dir) == Climb(lines, at, level - 1, Join(Decode(lines[j]).name, dir))
  {
  }

  /** The line `abspath` reads at level `level` names the row's ancestor
      there, written as a directory. */
  lemma ParentLine(rows: seq<Row>, root: string, i: nat, level: nat) returns (j: nat)
    requires Projection(rows, root)
    requires i < |rows| && 0 < level <= rows[i].depth
    ensures SearchBack(Buffer(rows), i, level - 1) == Some(j)
    ensures Decode(Buffer(rows)[j]).name == rows[i].comps[level - 1] + [Slash]
  {
    j := SearchFindsAncestor(rows, root, i, level - 1);
    assert Under(rows[j], [], root);
    AncestorLineName(rows, root, i, level, j);
  }

  /** The line of the ancestor row at depth `level - 1` names that ancestor,
      written as a directory. */
  lemma AncestorLineName(rows: seq<Row>, root: string, i: nat, level: nat, j: nat)
    requires i < |rows| && 0 < level && |rows[i].comps| >= level
    requires j < |rows| && RowOk(rows[j], root) && rows[j].isDir
    requires rows[j].depth == level - 1 && rows[j].comps == rows[i].comps[..level]
    ensures Decode(Buffer(rows)[j]).name == rows[i].comps[level - 1] + [Slash]
  {
    var r := rows[j];
    RowDecodes(r, root);
    assert Buffer(rows)[j] == Line(r);
    assert r.name == rows[i].comps[..level][level - 1];
  }

  /** Each round of the loop of `abspath` extends the rebuilt relative path by
      the ancestor's name, so that from level `level` it ends up as all of
      the row's components, slash-separated. */
  lemma {:induction false} ClimbProjection(rows: seq<Row>, root: string, i: nat, level: nat, dir: string)
    returns (v: string)
    requires Projection(rows, root)
    requires i < |rows| && level <= rows[i].depth
    requires dir != "" && dir != "/"
    requires TrimSlash(dir) == JoinAll(rows[i].comps[level..])
    ensures Climb(Buffer(rows), i, level, dir) == Ok(v)
    ensures v != "" && v != "/" && TrimSlash(v) == JoinAll(rows[i].comps)
    decreases level
  {
    var c := rows[i].comps;
    if level == 0 {
      v := dir;
      ClimbDone(Buffer(rows), i, dir, c);
    } else {
      var next := ClimbRound(rows, root, i, level, dir);
      v := ClimbProjection(rows, root, i, level - 1, next);
      assert Climb(Buffer(rows), i, level, dir) == Ok(v);
    }
  }

  lemma ClimbDone(lines: seq<string>, at: nat, dir: string, c: seq<string>)
    requires at < |lines| && c != []
    requires TrimSlash(dir) == JoinAll(c[0..])
    ensures Climb(lines, at, 0, dir) == Ok(dir) && TrimSlash(dir) == JoinAll(c)
  {
    assert c[0..] == c;
  }

  /** One round of that loop on a projection. */
  lemma ClimbRound(rows: seq<Row>, root: string, i: nat, level: nat, dir: string)
    returns (next: string)
    requires Projection(rows, root)
    requires i < |rows| && 0 < level <= rows[i].depth
    requires dir != "" && dir != "/"
    requires TrimSlash(dir) == JoinAll(rows[i].comps[level..])
    ensures Climb(Buffer(rows), i, level, dir) == Climb(Buffer(rows), i, level - 1, next)
    ensures next != "" && next != "/" && TrimSlash(next) == JoinAll(rows[i].comps[level - 1..])
  {
    var j := ParentLine(rows, root, i, level);
    next := Join(Decode(Buffer(rows)[j]).name, dir);
    ClimbStep(Buffer(rows), i, level, dir, j);
    assert Under(rows[i], [], root);
    NextDir(rows[i].comps, level, dir);
  }

  /** Prefixing the ancestor's name extends the relative path by one
      component. */
  lemma NextDir(c: seq<string>, level: nat, dir: string)
    requires ValidNames(c) && 0 < level < |c|
    requires dir != "" && dir != "/"
    requires TrimSlash(dir) == JoinAll(c[level..])
    ensures var next := Join(c[level - 1] + [Slash], dir);
      next != "" && next != "/" && TrimSlash(next) == JoinAll(c[level - 1..])
  {
    ValidTail(c, level - 1);
    var n := c[level - 1];
    assert IsComponent(n) by { assert c[level - 1..][0] == n; }
    JoinUnderDir(n, dir);
    var next := n + [Slash] + TrimSlash(dir);
    JoinAllFrom(c, level - 1);
    JoinAllShape(c[level - 1..]);
    assert TrimSlash(next) == next;
  }

  /** Resolving any entry line of a rendered projection gives back the path
      the projector joined for that entry, and its depth. */
  lemma ResolveProjection(rows: seq<Row>, root: string, i: nat)
    requires Projection(rows, root)
    requires root != ""
    requires i < |rows|
    ensures Resolve(Buffer(rows), i, root) == Ok(Resolved(rows[i].path, rows[i].depth))
  {
    var r := rows[i];
    assert Under(r, [], root);
    var c := r.comps;
    RowDecodes(r, root);
    assert Buffer(rows)[i] == Line(r);
    var disp := Display(r);
    LeafDisplay(r, root);
    var v := ClimbProjection(rows, root, i, r.depth, disp);
    RootJoin(root, v, c);
  }

  lemma LeafDisplay(r: Row, root: string)
    requires RowOk(r, root)
    ensures Display(r) != "" && Display(r) != "/"
    ensures TrimSlash(Display(r)) == JoinAll(r.comps[r.depth..])
  {
    assert ValidName(r.comps[r.depth]);
    var disp := Display(r);
    assert disp[0] == r.name[0];
    assert r.name[0] in r.name;
    assert r.comps[r.depth..] == [r.name];
    if !r.isDir {
      assert r.name[|r.name| - 1] in r.name;
    }
  }

  lemma RootJoin(root: string, v: string, c: seq<string>)
    requires root != "" && v != "" && v != "/"
    requires c != [] && ValidNames(c)
    requires TrimSlash(v) == JoinAll(c)
    ensures Join(root, v) == PathOf(root, c)
  {
    TrimSlashAppend(DropSlash(root) + [Slash], v);
    ValidTail(c, 0);
    assert c[0..] == c;
    PathOfFlat(root, c);
  }

  /** What `draw` leaves in the body after a successful render: every entry
      line resolves to the path the projector joined for it, and its depth. */
  lemma DrawnLineResolves(l: Listing, root: string, open: map<string, bool>, all: bool, i: nat)
    requires ListingNamed(l) && root != ""
    requires RootOut(l, root, open, all).err.None?
    requires i < |RootOut(l, root, open, all).rows|
    ensures var r := RootOut(l, root, open, all).rows[i];
      Resolve(Lines(RootText(l, root, open, all)), i, root) == Ok(Resolved(r.path, r.depth))
  {
    var rows := RootOut(l, root, open, all).rows;
    RootTextLines(l, root, open, all);
    assert Lines(RootText(l, root, open, all)) == Buffer(rows);
    RootProjection(l, root, open, all);
    ResolveProjection(rows, root, i);
  }

  /** The blank line after the last entry resolves to the empty path, with
      no error. */
  lemma ResolveTerminator(rows: seq<Row>, root: string)
    ensures Resolve(Buffer(rows), |rows|, root) == Ok(Resolved("", 0))
  {
    assert Buffer(rows)[|rows|] == "";
  }
}
