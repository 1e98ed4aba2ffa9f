/** The inverse direction: from a path to the editor address that selects its
    line (`split`, `selectEntry`), and the range an expanded entry occupies
    (`selectEntryRegion`). */
module Address {
  import opened Wrappers
  import opened Text
  import opened Paths
  import opened FileTree
  import opened Codec
  import opened Projector
  import opened Resolver

  // Quoting of names for use inside a pattern.

  /** The characters `regexp.QuoteMeta` escapes. */
  predicate IsMeta(c: char)
  {
    c in "\\.+*?()|[]{}^$"
  }

  /** `regexp.QuoteMeta`: a backslash before every special character. */
  function QuoteMeta(s: string): (q: string)
    ensures |q| >= |s|
  {
    if s == [] then ""
    else (if IsMeta(s[0]) then ['\\', s[0]] else [s[0]]) + QuoteMeta(s[1..])
  }

  /** Reading a quoted pattern literally: a backslash stands for the
      character after it. */
  function Unquote(q: string): string
    decreases |q|
  {
    if q == [] then ""
    else if q[0] == '\\' && |q| > 1 then [q[1]] + Unquote(q[2..])
    else [q[0]] + Unquote(q[1..])
  }

  /** Quoting loses nothing: the pattern denotes exactly the name. */
  lemma {:induction false} UnquoteQuote(s: string)
    ensures Unquote(QuoteMeta(s)) == s
  {
    if s != [] {
      var head := if IsMeta(s[0]) then ['\\', s[0]] else [s[0]];
      var q := head + QuoteMeta(s[1..]);
      if IsMeta(s[0]) {
        assert q[0] == '\\' && q[1] == s[0] && q[2..] == QuoteMeta(s[1..]);
      } else {
        assert s[0] != '\\' by { assert "\\"[0] == '\\'; }
        assert q[0] == s[0] && q[1..] == QuoteMeta(s[1..]);
      }
      UnquoteQuote(s[1..]);
    }
  }

  /** Every character of a quoted name that could act as an operator comes
      out preceded by a backslash: `j` is its place in the quoted name. */
  lemma {:induction false} QuoteEscapes(s: string, i: nat) returns (j: nat)
    requires i < |s| && IsMeta(s[i])
    ensures 0 < j < |QuoteMeta(s)|
    ensures QuoteMeta(s)[j] == s[i] && QuoteMeta(s)[j - 1] == '\\'
  {
    var head := if IsMeta(s[0]) then ['\\', s[0]] else [s[0]];
    var q := head + QuoteMeta(s[1..]);
    if i == 0 {
      j := 1;
      assert q[1] == s[0] && q[0] == '\\';
    } else {
      var j' := QuoteEscapes(s[1..], i - 1);
      j := |head| + j';
      assert q[j] == QuoteMeta(s[1..])[j'];
      assert q[j - 1] == QuoteMeta(s[1..])[j' - 1];
    }
  }

  // Path components.

  /** `split` as written: the path less the prefix `root + "/"`, cut at each
      slash; the root itself has no components. */
  function SplitAsWritten(path: string, root: string): (cs: seq<string>)
    ensures path == root ==> cs == []
    ensures path != root ==> |cs| >= 1
  {
    if path == root then [] else Split(TrimPrefix(path, root + [Slash]), Slash)
  }

  /** At the root "/" the prefix `root + "/"` is "//", which no path below the
      root starts with, so every component list starts with an empty
      component and every later component is one level too deep. */
  lemma SplitAsWrittenAtSlashRoot()
    ensures SplitAsWritten("/usr", "/") == ["", "usr"]
    ensures PathOf("/", ["usr"]) == "/usr"
  {
    assert "/usr"[1] != Slash;
    assert !HasPrefix("/usr", "//");
    assert "/usr"[0] == Slash;
    assert IndexOf("/usr", Slash) == Some(0);
    assert "/usr"[1..] == "usr";
    assert Slash !in "usr";
    assert IndexOf("usr", Slash) == None;
    JoinComponent("/", "usr");
  }

  /** The prefix `split` means to strip: the root and one slash, without
      doubling the slash of the root "/". */
  function RootPrefix(root: string): string
  {
    DropSlash(root) + [Slash]
  }

  /** `split` corrected: the components of `path` below `root`. */
  function SplitPath(path: string, root: string): (cs: seq<string>)
    ensures path == root ==> cs == []
    ensures path != root ==> |cs| >= 1
  {
    if path == root then [] else Split(TrimPrefix(path, RootPrefix(root)), Slash)
  }

  /** The corrected and the written `split` differ only at the root "/". */
  lemma SplitAgreesBelowOtherRoots(path: string, root: string)
    requires root != "/"
    requires root == "" || root[|root| - 1] != Slash
    ensures SplitPath(path, root) == SplitAsWritten(path, root)
  {
  }

  lemma JoinAllIsJoinWith(cs: seq<string>)
    requires cs != []
    ensures JoinAll(cs) == JoinWith(cs, Slash)
  {
  }

  /** `split` recovers the components of every entry path the projector
      builds, and gives none for the root itself. */
  lemma {:induction false} SplitPathOf(root: string, comps: seq<string>)
    requires IsCleanAbs(root)
    requires AllComponents(comps)
    ensures SplitPath(PathOf(root, comps), root) == comps
  {
    if comps != [] {
      PathOfFlat(root, comps);
      var j := JoinAll(comps);
      var path := RootPrefix(root) + j;
      assert PathOf(root, comps) == path;
      JoinAllShape(comps);
      assert path != root by {
        if root != "/" { assert |path| > |root|; }
      }
      assert HasPrefix(path, RootPrefix(root));
      assert TrimPrefix(path, RootPrefix(root)) == j;
      JoinAllIsJoinWith(comps);
      SplitJoin(comps, Slash);
    }
  }

  // The address built by `selectEntry`.

  /** The search step for component `name` at depth `depth`: the next line
      with any two runes, `depth` tabs, then the quoted name. */
  function Step(depth: nat, name: string): string
  {
    "+/^.." + Tabs(depth) + QuoteMeta(name) + "/"
  }

  /** The steps for all components, the i-th at depth i. */
  function Steps(cs: seq<string>): string
  {
    if cs == [] then "" else Steps(cs[..|cs| - 1]) + Step(|cs| - 1, cs[|cs| - 1])
  }

  /** One more component adds one more step, at the depth of its index. */
  lemma StepsSnoc(cs: seq<string>, i: nat)
    requires i < |cs|
    ensures Steps(cs[..i + 1]) == Steps(cs[..i]) + Step(i, cs[i])
  {
    assert cs[..i + 1][..i] == cs[..i];
  }

  /** The whole address of `selectEntry`: the beginning of the buffer, then
      one step per component. */
  function EntryAddress(cs: seq<string>): string
  {
    "0" + Steps(cs)
  }

  /** The address is made of exactly one step per component, the i-th step
      carrying i tabs and the i-th component quoted: `post` is what follows
      the i-th step. */
  lemma EntryAddressSteps(cs: seq<string>, i: nat) returns (post: string)
    requires i < |cs|
    ensures EntryAddress(cs) == "0" + Steps(cs[..i]) + Step(i, cs[i]) + post
  {
    post := StepsHas(cs, i);
  }

  lemma {:induction false} StepsHas(cs: seq<string>, i: nat) returns (post: string)
    requires i < |cs|
    ensures Steps(cs) == Steps(cs[..i]) + Step(i, cs[i]) + post
    decreases |cs|
  {
    var init := cs[..|cs| - 1];
    var last := Step(|cs| - 1, cs[|cs| - 1]);
    assert Steps(cs) == Steps(init) + last;
    if i == |cs| - 1 {
      post := "";
      assert init == cs[..i];
      assert Steps(cs) + post == Steps(cs);
    } else {
      var post0 := StepsHas(init, i);
      assert init[i] == cs[i] && init[..i] == cs[..i];
      post := post0 + last;
      AppendAssoc(Steps(cs[..i]) + Step(i, cs[i]), post0, last);
    }
  }

  // The range `selectEntryRegion` selects.

  /** One alternative of the end pattern: a line with exactly `k` tabs. */
  function LevelAlternative(k: nat): string
  {
    "|^.." + Tabs(k) + "[^\t]"
  }

  /** `^$` followed by one alternative for each tab count 0..n-1. */
  function EndPatternUpTo(n: nat): string
  {
    if n == 0 then "^$" else EndPatternUpTo(n - 1) + LevelAlternative(n - 1)
  }

  /** The end pattern of `selectEntryRegion(addr, depth)`: the blank line or a
      line with at most `depth` tabs. */
  function EndPattern(depth: nat): string
  {
    EndPatternUpTo(depth + 1)
  }

  /** The address `selectEntryRegion` hands to the editor: from the start of
      the addressed line to the start of the next line the end pattern
      matches. */
  function RegionAddress(addr: string, depth: nat): string
  {
    addr + "-/^/+/^/," + addr + "+/" + EndPattern(depth) + "/-/^/"
  }

  /** The pattern holds, after `^$`, the alternative for k tabs for every
      k < n, in increasing order: `post` is what follows it. */
  lemma {:induction false} EndPatternHas(n: nat, k: nat) returns (post: string)
    requires k < n
    ensures EndPatternUpTo(n) == EndPatternUpTo(k) + LevelAlternative(k) + post
    decreases n
  {
    if k == n - 1 {
      post := "";
    } else {
      var post0 := EndPatternHas(n - 1, k);
      post := post0 + LevelAlternative(n - 1);
    }
  }

  /** Nothing else is in the pattern: its length is that of `^$` and of the
      n alternatives. */
  lemma {:induction false} EndPatternLength(n: nat)
    ensures |EndPatternUpTo(n)| == 2 + Sum(n)
  {
    if n > 0 {
      EndPatternLength(n - 1);
    }
  }

  /** The total length of the alternatives for 0..n-1 tabs. */
  function Sum(n: nat): nat
  {
    if n == 0 then 0 else Sum(n - 1) + |LevelAlternative(n - 1)|
  }

  /** What the end pattern matches: the blank line, or a line with some level
      k <= depth. */
  predicate EndMatches(line: string, depth: nat)
  {
    line == "" || exists k :: 0 <= k <= depth && MatchesLevel(line, k)
  }

  /** The end pattern matches a line exactly when it is blank or, after its
      first two runes, has at most `depth` tabs followed by a non-tab. */
  lemma EndMatchesCount(line: string, depth: nat)
    ensures EndMatches(line, depth) <==>
      line == "" ||
      (|line| > 2 && LeadingTabs(line[2..]) <= depth && LeadingTabs(line[2..]) < |line| - 2)
  {
    if |line| > 2 {
      var n := LeadingTabs(line[2..]);
      if n <= depth && n < |line| - 2 {
        assert line[2 + n] == line[2..][n];
        forall t | 2 <= t < 2 + n ensures line[t] == Tab {
          assert line[t] == line[2..][t - 2];
        }
        assert MatchesLevel(line, n);
      }
      forall k | 0 <= k <= depth && MatchesLevel(line, k) ensures n == k {
        LevelIsLeadingTabs(line, k);
      }
    }
  }

  /** A line at level k has exactly k leading tabs after its first two runes. */
  lemma LevelIsLeadingTabs(line: string, k: nat)
    requires MatchesLevel(line, k)
    ensures LeadingTabs(line[2..]) == k
  {
    var s := line[2..];
    assert s[k] == line[2 + k];
    forall t | 0 <= t < k ensures s[t] == Tab {
      assert s[t] == line[2 + t];
    }
    LeadingTabsExact(s, k);
  }

  lemma {:induction false} LeadingTabsExact(s: string, k: nat)
    requires k < |s| && s[k] != Tab
    requires forall t :: 0 <= t < k ==> s[t] == Tab
    ensures LeadingTabs(s) == k
  {
    if k > 0 {
      LeadingTabsExact(s[1..], k - 1);
    }
  }

  /** The first line from `from` on that the end pattern matches. The search
      does not wrap round: in a buffer `printRoot` wrote, the blank last line
      always matches. */
  function FirstEndAfter(lines: seq<string>, from: nat, depth: nat): (r: Option<nat>)
    requires from <= |lines|
    ensures r.Some? ==> from <= r.value < |lines| && EndMatches(lines[r.value], depth)
    ensures r.Some? ==> forall j :: from <= j < r.value ==> !EndMatches(lines[j], depth)
    ensures r.None? ==> forall j :: from <= j < |lines| ==> !EndMatches(lines[j], depth)
    decreases |lines| - from
  {
    if from == |lines| then None
    else if EndMatches(lines[from], depth) then Some(from)
    else FirstEndAfter(lines, from + 1, depth)
  }

  /** On a projection, the region of an entry at row `i` ends at the first
      later row that is not deeper than it, or at the blank last line: the
      rows in between are exactly its descendants as displayed. */
  lemma RegionOfRow(rows: seq<Row>, root: string, i: nat) returns (j: nat)
    requires Projection(rows, root)
    requires i < |rows|
    ensures FirstEndAfter(Buffer(rows), i + 1, rows[i].depth) == Some(j)
    ensures i < j <= |rows|
    ensures forall m :: i < m < j ==> rows[m].depth > rows[i].depth
    ensures j < |rows| ==> rows[j].depth <= rows[i].depth
    ensures forall m :: i < m < j ==>
      |rows[m].comps| > |rows[i].comps| && rows[m].comps[..|rows[i].comps|] == rows[i].comps
  {
    var lines := Buffer(rows);
    var d := rows[i].depth;
    forall m | i < m < |rows| ensures EndMatches(lines[m], d) <==> rows[m].depth <= d {
      assert Under(rows[m], [], root);
      assert lines[m] == Line(rows[m]);
      RowEnd(rows[m], root, d);
    }
    assert EndMatches(lines[|rows|], d);
    var r := FirstEndAfter(lines, i + 1, d);
    j := r.value;
    assert Under(rows[i], [], root);
    RegionDescendants(rows, i, j);
  }

  /** When no two rows stand for the same entry, as in every buffer
      `printRoot` writes (`Projector.RootDistinct`), the region of row `i`
      holds exactly its displayed descendants: a later row lies below row
      `i` if and only if it comes before the region's end. */
  lemma RegionExactly(rows: seq<Row>, root: string, i: nat) returns (j: nat)
    requires Projection(rows, root) && DistinctRows(rows)
    requires i < |rows|
    ensures FirstEndAfter(Buffer(rows), i + 1, rows[i].depth) == Some(j)
    ensures forall m :: i < m < |rows| ==>
      (m < j <==> |rows[m].comps| > |rows[i].comps| && rows[m].comps[..|rows[i].comps|] == rows[i].comps)
  {
    j := RegionOfRow(rows, root, i);
    forall m | j <= m < |rows|
      ensures !(|rows[m].comps| > |rows[i].comps| && rows[m].comps[..|rows[i].comps|] == rows[i].comps)
    {
      NotBelowAfter(rows, root, i, j, m);
    }
  }

  /** Past the end of row `i`'s region no row lies below it: to get below it
      again the rows would have to pass through a second row for the same
      entry. */
  lemma {:induction false} NotBelowAfter(rows: seq<Row>, root: string, i: nat, j: nat, m: nat)
    requires Projection(rows, root) && DistinctRows(rows)
    requires i < j <= m < |rows| && rows[j].depth <= rows[i].depth
    ensures !(|rows[m].comps| > |rows[i].comps| && rows[m].comps[..|rows[i].comps|] == rows[i].comps)
    decreases m - j
  {
    var c := rows[i].comps;
    assert Under(rows[i], [], root) && Under(rows[m], [], root);
    if m > j {
      NotBelowAfter(rows, root, i, j, m - 1);
      var p := rows[m - 1].comps;
      var q := rows[m].comps;
      assert Under(rows[m - 1], [], root);
      assert LinkedAt(rows, m);
      assert |q| > |c| ==> |p| >= |c|;
      assert |q| > |c| ==> p[..|c|] == q[..|c|] by {
        if |q| > |c| {
          assert |c| <= rows[m].depth;
          assert q[..rows[m].depth][..|c|] == q[..|c|];
          assert p[..rows[m].depth][..|c|] == p[..|c|];
        }
      }
      assert |p| == |c| && p[..|c|] == c ==> p == c;
      assert p != c;
    }
  }

  lemma RegionDescendants(rows: seq<Row>, i: nat, j: nat)
    requires Linked(rows) && rows != [] && rows[0].depth == 0
    requires i < j <= |rows| && |rows[i].comps| == rows[i].depth + 1
    requires forall x :: i < x < j ==> rows[x].depth > rows[i].depth
    ensures forall m :: i < m < j ==>
      |rows[m].comps| > |rows[i].comps| && rows[m].comps[..|rows[i].comps|] == rows[i].comps
  {
    forall m | i < m < j
      ensures |rows[m].comps| > |rows[i].comps| && rows[m].comps[..|rows[i].comps|] == rows[i].comps
    {
      RegionDescendant(rows, i, m);
    }
  }

  /** A row reached from row `i` through rows all deeper than `i` lies below
      `i`: its components extend those of `i`. */
  lemma RegionDescendant(rows: seq<Row>, i: nat, m: nat)
    requires Linked(rows) && rows != [] && rows[0].depth == 0
    requires i < m < |rows| && |rows[i].comps| == rows[i].depth + 1
    requires forall x :: i < x <= m ==> rows[x].depth > rows[i].depth
    ensures |rows[m].comps| > |rows[i].comps| && rows[m].comps[..|rows[i].comps|] == rows[i].comps
  {
    var k := rows[i].depth;
    var a := AncestorRow(rows, m, k);
    assert a == i;
    assert LinkedAt(rows, m);
    assert |rows[m].comps| == rows[m].depth + 1;
  }

  /** A row's line matches the end pattern for `d` exactly when the row is at
      most `d` deep. */
  lemma RowEnd(r: Row, root: string, d: nat)
    requires RowOk(r, root)
    ensures EndMatches(Line(r), d) <==> r.depth <= d
  {
    if r.depth <= d {
      RowMatches(r, root, r.depth);
    } else {
      forall k | 0 <= k <= d ensures !MatchesLevel(Line(r), k) {
        RowMatches(r, root, k);
      }
    }
  }
}
