/** What `printRoot`, `printContents` and `printEntry` write, as functions of
    the filesystem tree, the expanded set and the dotfile switch, and the
    shape every such projection has. */
module Projector {
  import opened Wrappers
  import opened Errors
  import opened Text
  import opened Paths
  import opened FileTree
  import opened Codec

  /** `open[path]` on a Go map of bools: an absent path reads as false. */
  predicate IsOpen(open: map<string, bool>, path: string)
  {
    path in open && open[path]
  }

  /** One rendered entry. `path` is the path the projector joined for it and
      `comps` the components leading to it from the root (the entry's own name
      last); neither is written to the buffer. */
  datatype Row = Row(flag: char, depth: nat, name: string, isDir: bool, path: string, comps: seq<string>)

  /** The name as written: directories get a trailing slash. */
  function Display(r: Row): string
  {
    if r.isDir then r.name + [Slash] else r.name
  }

  /** The line written for a row, newline excluded. */
  function Line(r: Row): string
  {
    EncodeLine(r.flag, r.depth, Display(r))
  }

  function RowLines(rows: seq<Row>): (ls: seq<string>)
    ensures |ls| == |rows|
    ensures forall i :: 0 <= i < |rows| ==> ls[i] == Line(rows[i])
  {
    seq(|rows|, i requires 0 <= i < |rows| => Line(rows[i]))
  }

  lemma RowLinesAppend(a: seq<Row>, b: seq<Row>)
    ensures RowLines(a + b) == RowLines(a) + RowLines(b)
  {
  }

  /** The rows written before the render stopped, and the error that stopped
      it, if any. */
  datatype Out = Out(rows: seq<Row>, err: Option<Error>)

  /** An error the render can stop with: a directory that cannot be read or
      an entry that cannot be stat-ed. */
  predicate FsError(err: Option<Error>)
  {
    err.None? || err.value.ReadDirFailed? || err.value.StatFailed?
  }

  /** `printContents(w, dir, depth)` on a directory whose listing is `l`: it
      fails only on the filesystem. */
  function ContentsOut(l: Listing, dir: string, comps: seq<string>, depth: nat,
                       open: map<string, bool>, all: bool): (o: Out)
    ensures FsError(o.err)
    decreases l, 2
  {
    match l
    case Unreadable => Out([], Some(ReadDirFailed(dir)))
    case Entries(es) => EntriesOut(es, dir, comps, depth, open, all)
  }

  /** The loop of `printContents` over the listed entries, in order, stopping
      at the first error. */
  function EntriesOut(es: seq<Node>, dir: string, comps: seq<string>, depth: nat,
                      open: map<string, bool>, all: bool): (o: Out)
    ensures FsError(o.err)
    decreases es, 1
  {
    if es == [] then Out([], None)
    else
      var a := EntryOut(es[0], dir, comps, depth, open, all);
      if a.err.Some? then a
      else
        var b := EntriesOut(es[1..], dir, comps, depth, open, all);
        Out(a.rows + b.rows, b.err)
  }

  /** One iteration of that loop: the symlink check of `printContents`
      followed by `printEntry`. */
  function EntryOut(e: Node, dir: string, comps: seq<string>, depth: nat,
                    open: map<string, bool>, all: bool): (o: Out)
    ensures FsError(o.err)
    decreases e, 0
  {
    var path := Join(dir, e.name);
    match e
    case Dangling(n) => Out([], Some(StatFailed(path)))
    case File(n) =>
      if Hidden(n) && !all then Out([], None)
      else Out([Row(FlagFile, depth, n, false, path, comps + [n])], None)
    case Dir(n, l) =>
      if Hidden(n) && !all then Out([], None)
      else if IsOpen(open, path) then
        var c := ContentsOut(l, path, comps + [n], depth + 1, open, all);
        Out([Row(FlagMore, depth, n, true, path, comps + [n])] + c.rows, c.err)
      else Out([Row(FlagLess, depth, n, true, path, comps + [n])], None)
  }

  /** `printRoot`: the depth-0 contents of the root. An unreadable root
      writes nothing and reports that it could not be read. */
  function RootOut(l: Listing, root: string, open: map<string, bool>, all: bool): (o: Out)
    ensures FsError(o.err)
    ensures l.Unreadable? ==> o == Out([], Some(ReadDirFailed(root)))
  {
    ContentsOut(l, root, [], 0, open, all)
  }

  /** The bytes `printRoot` writes: the entry lines, then one more newline
      when the render succeeded. */
  function RootText(l: Listing, root: string, open: map<string, bool>, all: bool): (t: string)
    ensures RootOut(l, root, open, all).err.None? ==> t != [] && t[|t| - 1] == Newline
    ensures RootOut(l, root, open, all).err.Some? ==> t == OutText(RootOut(l, root, open, all))
  {
    var o := RootOut(l, root, open, all);
    Unlines(RowLines(o.rows)) + (if o.err.None? then [Newline] else [])
  }

  /** The loop of `printContents` over the outputs of its rounds, taken as
      values: the rows of each round in order, up to the first error. */
  function Chain(outs: seq<Out>): Out
  {
    if outs == [] then Out([], None)
    else if outs[0].err.Some? then outs[0]
    else
      var b := Chain(outs[1..]);
      Out(outs[0].rows + b.rows, b.err)
  }

  /** The output of each round on its own. */
  function EntryOuts(es: seq<Node>, dir: string, comps: seq<string>, depth: nat,
                     open: map<string, bool>, all: bool): (outs: seq<Out>)
    ensures |outs| == |es|
    ensures forall i :: 0 <= i < |es| ==> outs[i] == EntryOut(es[i], dir, comps, depth, open, all)
  {
    seq(|es|, i requires 0 <= i < |es| => EntryOut(es[i], dir, comps, depth, open, all))
  }

  lemma {:induction false} EntriesChain(es: seq<Node>, dir: string, comps: seq<string>,
                                        depth: nat, open: map<string, bool>, all: bool)
    ensures EntriesOut(es, dir, comps, depth, open, all) == Chain(EntryOuts(es, dir, comps, depth, open, all))
  {
    if es != [] {
      var outs := EntryOuts(es, dir, comps, depth, open, all);
      assert outs[1..] == EntryOuts(es[1..], dir, comps, depth, open, all);
      EntriesChain(es[1..], dir, comps, depth, open, all);
    }
  }

  lemma {:induction false} ChainSnoc(outs: seq<Out>, b: Out)
    requires Chain(outs).err.None?
    ensures Chain(outs + [b]) == Out(Chain(outs).rows + b.rows, b.err)
  {
    if outs == [] {
      assert [b][1..] == [];
    } else {
      assert (outs + [b])[1..] == outs[1..] + [b];
      ChainSnoc(outs[1..], b);
      var a0 := outs[0].rows;
      assert a0 + (Chain(outs[1..]).rows + b.rows) == (a0 + Chain(outs[1..]).rows) + b.rows;
    }
  }

  lemma {:induction false} ChainStops(outs: seq<Out>, i: nat)
    requires i < |outs|
    requires Chain(outs[..i]).err.None? && outs[i].err.Some?
    ensures Chain(outs) == Out(Chain(outs[..i]).rows + outs[i].rows, outs[i].err)
  {
    if i == 0 {
      assert Chain(outs[..0]).rows == [];
    } else {
      assert outs[..i][1..] == outs[1..][..i - 1];
      ChainStops(outs[1..], i - 1);
    }
  }

  /** Appending one more entry to the loop of `printContents`. */
  lemma EntriesOutSnoc(es: seq<Node>, e: Node, dir: string, comps: seq<string>,
                       depth: nat, open: map<string, bool>, all: bool)
    requires EntriesOut(es, dir, comps, depth, open, all).err.None?
    ensures EntriesOut(es + [e], dir, comps, depth, open, all)
         == var a := EntriesOut(es, dir, comps, depth, open, all);
            var b := EntryOut(e, dir, comps, depth, open, all);
            Out(a.rows + b.rows, b.err)
  {
    var outs := EntryOuts(es, dir, comps, depth, open, all);
    var b := EntryOut(e, dir, comps, depth, open, all);
    EntriesChain(es, dir, comps, depth, open, all);
    EntriesChain(es + [e], dir, comps, depth, open, all);
    assert EntryOuts(es + [e], dir, comps, depth, open, all) == outs + [b];
    ChainSnoc(outs, b);
  }

  /** The loop of `printContents` stops at the first entry that fails: what
      was written before it, what it wrote, and its error. */
  lemma EntriesOutStops(es: seq<Node>, i: nat, dir: string, comps: seq<string>,
                        depth: nat, open: map<string, bool>, all: bool)
    requires i < |es|
    requires EntriesOut(es[..i], dir, comps, depth, open, all).err.None?
    requires EntryOut(es[i], dir, comps, depth, open, all).err.Some?
    ensures EntriesOut(es, dir, comps, depth, open, all)
         == var a := EntriesOut(es[..i], dir, comps, depth, open, all);
            var b := EntryOut(es[i], dir, comps, depth, open, all);
            Out(a.rows + b.rows, b.err)
  {
    var outs := EntryOuts(es, dir, comps, depth, open, all);
    EntriesChain(es, dir, comps, depth, open, all);
    EntriesChain(es[..i], dir, comps, depth, open, all);
    assert EntryOuts(es[..i], dir, comps, depth, open, all) == outs[..i];
    ChainStops(outs, i);
  }

  /** The text written for the rows of an output, one line each. */
  function OutText(o: Out): string
  {
    Unlines(RowLines(o.rows))
  }

  /** One round of the loop of `printContents`: the text written so far
      grows by the entry's text, and the loop goes on or stops with the
      entry's error. */
  lemma EntriesRound(es: seq<Node>, i: nat, dir: string, comps: seq<string>,
                     depth: nat, open: map<string, bool>, all: bool)
    requires i < |es|
    requires EntriesOut(es[..i], dir, comps, depth, open, all).err.None?
    ensures var a := EntriesOut(es[..i], dir, comps, depth, open, all);
            var b := EntryOut(es[i], dir, comps, depth, open, all);
            && (b.err.None? ==>
                  var c := EntriesOut(es[..i + 1], dir, comps, depth, open, all);
                  c.err.None? && OutText(c) == OutText(a) + OutText(b))
            && (b.err.Some? ==>
                  var c := EntriesOut(es, dir, comps, depth, open, all);
                  c.err == b.err && OutText(c) == OutText(a) + OutText(b))
  {
    var a := EntriesOut(es[..i], dir, comps, depth, open, all);
    var b := EntryOut(es[i], dir, comps, depth, open, all);
    RowLinesAppend(a.rows, b.rows);
    UnlinesAppend(RowLines(a.rows), RowLines(b.rows));
    if b.err.None? {
      EntriesOutSnoc(es[..i], es[i], dir, comps, depth, open, all);
      assert es[..i + 1] == es[..i] + [es[i]];
    } else {
      EntriesOutStops(es, i, dir, comps, depth, open, all);
    }
  }

  /** The same round, said of a writer whose text so far is `text`, after
      `before` was written ahead of the loop. */
  lemma EntriesRoundWritten(es: seq<Node>, i: nat, dir: string, comps: seq<string>,
                            depth: nat, open: map<string, bool>, all: bool, before: string, text: string)
    requires i < |es|
    requires EntriesOut(es[..i], dir, comps, depth, open, all).err.None?
    requires text == before + OutText(EntriesOut(es[..i], dir, comps, depth, open, all))
    ensures es[i].Dangling? ==>
      var c := EntriesOut(es, dir, comps, depth, open, all);
      c.err == Some(StatFailed(Join(dir, es[i].name))) && text == before + OutText(c)
    ensures var b := EntryOut(es[i], dir, comps, depth, open, all);
      && (b.err.None? ==>
            var c := EntriesOut(es[..i + 1], dir, comps, depth, open, all);
            c.err.None? && text + OutText(b) == before + OutText(c))
      && (b.err.Some? ==>
            var c := EntriesOut(es, dir, comps, depth, open, all);
            c.err == b.err && text + OutText(b) == before + OutText(c))
  {
    var a := EntriesOut(es[..i], dir, comps, depth, open, all);
    var b := EntryOut(es[i], dir, comps, depth, open, all);
    EntriesRound(es, i, dir, comps, depth, open, all);
    AppendAssoc(before, OutText(a), OutText(b));
    if es[i].Dangling? {
      assert b.rows == [];
      assert OutText(b) == "";
      assert text + OutText(b) == text;
    }
  }

  /** The loop of `printContents` over all entries is the whole listing. */
  lemma EntriesAll(es: seq<Node>, dir: string, comps: seq<string>,
                   depth: nat, open: map<string, bool>, all: bool)
    ensures EntriesOut(es[..|es|], dir, comps, depth, open, all) == ContentsOut(Entries(es), dir, comps, depth, open, all)
    ensures OutText(EntriesOut([], dir, comps, depth, open, all)) == ""
    ensures OutText(Out([], None)) == "" && OutText(Out([], Some(ReadDirFailed(dir)))) == ""
  {
    assert es[..|es|] == es;
    assert RowLines([]) == [];
  }

  /** What `printEntry` writes for an entry that exists and is not skipped:
      its line, then for an expanded directory the text of its contents. */
  lemma EntryText(e: Node, dir: string, comps: seq<string>, depth: nat,
                  open: map<string, bool>, all: bool)
    requires !e.Dangling? && !(Hidden(e.name) && !all)
    ensures var path := Join(dir, e.name);
      var flag := if e.File? then FlagFile else if IsOpen(open, path) then FlagMore else FlagLess;
      var line := EncodeLine(flag, depth, if e.Dir? then e.name + [Slash] else e.name) + [Newline];
      var o := EntryOut(e, dir, comps, depth, open, all);
      if flag == FlagMore then
        var c := ContentsOut(e.listing, path, comps + [e.name], depth + 1, open, all);
        o.err == c.err && OutText(o) == line + OutText(c)
      else
        o.err.None? && OutText(o) == line
  {
    var path := Join(dir, e.name);
    var flag := if e.File? then FlagFile else if IsOpen(open, path) then FlagMore else FlagLess;
    var r := Row(flag, depth, e.name, e.Dir?, path, comps + [e.name]);
    if flag == FlagMore {
      var c := ContentsOut(e.listing, path, comps + [e.name], depth + 1, open, all);
      UnlinesCons(r, c.rows);
    } else {
      UnlinesCons(r, []);
      assert [r] + [] == [r];
      assert RowLines([]) == [];
    }
  }

  /** The text of a row followed by more rows. */
  lemma UnlinesCons(r: Row, rows: seq<Row>)
    ensures Unlines(RowLines([r] + rows)) == Line(r) + [Newline] + Unlines(RowLines(rows))
  {
    RowLinesAppend([r], rows);
    assert RowLines([r]) == [Line(r)];
    UnlinesPrepend(Line(r), RowLines(rows));
  }

  // The shape of a projection.

  /** A row is what `printEntry` writes for a valid name reached through
      `comps` from `root`. */
  predicate RowOk(r: Row, root: string)
  {
    && IsFlag(r.flag)
    && (r.flag == FlagFile <==> !r.isDir)
    && |r.comps| == r.depth + 1
    && r.comps[r.depth] == r.name
    && ValidNames(r.comps)
    && r.path == PathOf(root, r.comps)
  }

  /** `cur` follows `prev` in a projection: it is at most one level deeper,
      shares the ancestors of `prev` down to its own level, and if it is
      deeper then `prev` is a directory shown expanded. */
  predicate Follows(prev: Row, cur: Row)
  {
    && cur.depth <= prev.depth + 1
    && |cur.comps| == cur.depth + 1
    && |prev.comps| == prev.depth + 1
    && cur.comps[..cur.depth] == prev.comps[..cur.depth]
    && (cur.depth == prev.depth + 1 ==> prev.isDir && prev.flag == FlagMore)
  }

  predicate LinkedAt(rows: seq<Row>, i: int)
  {
    0 < i < |rows| && Follows(rows[i - 1], rows[i])
  }

  predicate Linked(rows: seq<Row>)
  {
    forall i :: 0 < i < |rows| ==> LinkedAt(rows, i)
  }

  /** A row below the directory reached through `p`. */
  predicate Under(r: Row, p: seq<string>, root: string)
  {
    RowOk(r, root) && r.depth >= |p| && |r.comps| >= |p| && r.comps[..|p|] == p
  }

  /** The rows `printContents` writes for a directory reached through `p`:
      all below `p`, the first at depth |p|, linked. */
  predicate Block(rows: seq<Row>, p: seq<string>, root: string)
  {
    && (forall i :: 0 <= i < |rows| ==> Under(rows[i], p, root))
    && (|rows| > 0 ==> rows[0].depth == |p|)
    && Linked(rows)
  }

  /** A whole projection: the rows of the root's contents. */
  predicate Projection(rows: seq<Row>, root: string)
  {
    Block(rows, [], root)
  }

  lemma BlockAppend(a: seq<Row>, b: seq<Row>, p: seq<string>, root: string)
    requires Block(a, p, root) && Block(b, p, root)
    ensures Block(a + b, p, root)
  {
    AppendUnder(a, b, p, root);
    if a != [] && b != [] {
      assert Under(a[|a| - 1], p, root) && Under(b[0], p, root);
      Junction(a[|a| - 1], b[0], p, root);
    }
    AppendLinked(a, b);
  }

  lemma AppendUnder(a: seq<Row>, b: seq<Row>, p: seq<string>, root: string)
    requires forall i :: 0 <= i < |a| ==> Under(a[i], p, root)
    requires forall i :: 0 <= i < |b| ==> Under(b[i], p, root)
    ensures forall i :: 0 <= i < |a + b| ==> Under((a + b)[i], p, root)
  {
    var c := a + b;
    forall i | 0 <= i < |c| ensures Under(c[i], p, root) {
      if i < |a| {
        assert c[i] == a[i];
      } else {
        assert c[i] == b[i - |a|];
      }
    }
  }

  lemma AppendLinked(a: seq<Row>, b: seq<Row>)
    requires Linked(a) && Linked(b)
    requires a != [] && b != [] ==> Follows(a[|a| - 1], b[0])
    ensures Linked(a + b)
  {
    var c := a + b;
    forall i | 0 < i < |c| ensures LinkedAt(c, i) {
      if i == |a| {
        assert c[i] == b[0] && c[i - 1] == a[|a| - 1];
      } else if i < |a| {
        assert LinkedAt(a, i);
        assert c[i] == a[i] && c[i - 1] == a[i - 1];
      } else {
        assert LinkedAt(b, i - |a|);
        assert c[i] == b[i - |a|] && c[i - 1] == b[i - 1 - |a|];
      }
    }
  }

  /** Any row below `p` may be followed by a row at depth |p| below `p`. */
  lemma Junction(prev: Row, cur: Row, p: seq<string>, root: string)
    requires Under(prev, p, root) && Under(cur, p, root) && cur.depth == |p|
    ensures Follows(prev, cur)
  {
  }

  /** A row for an entry followed by the block of its children. */
  lemma BlockCons(r: Row, kids: seq<Row>, p: seq<string>, root: string)
    requires RowOk(r, root) && r.depth == |p| && r.comps[..|p|] == p
    requires Block(kids, r.comps, root)
    requires kids != [] ==> r.isDir && r.flag == FlagMore
    ensures Block([r] + kids, p, root)
  {
    var c := [r] + kids;
    forall i | 0 <= i < |c| ensures Under(c[i], p, root) {
      if i > 0 {
        assert Under(kids[i - 1], r.comps, root);
        assert c[i] == kids[i - 1];
        assert c[i].comps[..|p|] == c[i].comps[..|p| + 1][..|p|];
      }
    }
    forall i | 0 < i < |c| ensures LinkedAt(c, i) {
      if i == 1 {
        assert Under(kids[0], r.comps, root);
        assert c[1] == kids[0];
        assert r.comps[..r.depth + 1] == r.comps;
      } else {
        assert LinkedAt(kids, i - 1);
      }
    }
  }

  lemma {:induction false} ContentsBlock(l: Listing, dir: string, comps: seq<string>, depth: nat,
                                         open: map<string, bool>, all: bool, root: string)
    requires ListingNamed(l)
    requires ValidNames(comps)
    requires depth == |comps| && dir == PathOf(root, comps)
    ensures Block(ContentsOut(l, dir, comps, depth, open, all).rows, comps, root)
    decreases l, 2
  {
    match l
    case Unreadable =>
    case Entries(es) => EntriesBlock(es, dir, comps, depth, open, all, root);
  }

  lemma {:induction false} EntriesBlock(es: seq<Node>, dir: string, comps: seq<string>, depth: nat,
                                        open: map<string, bool>, all: bool, root: string)
    requires forall i :: 0 <= i < |es| ==> NodeNamed(es[i])
    requires ValidNames(comps)
    requires depth == |comps| && dir == PathOf(root, comps)
    ensures Block(EntriesOut(es, dir, comps, depth, open, all).rows, comps, root)
    decreases es, 1
  {
    if es != [] {
      EntryBlock(es[0], dir, comps, depth, open, all, root);
      var a := EntryOut(es[0], dir, comps, depth, open, all);
      if a.err.None? {
        EntriesBlock(es[1..], dir, comps, depth, open, all, root);
        BlockAppend(a.rows, EntriesOut(es[1..], dir, comps, depth, open, all).rows, comps, root);
      }
    }
  }

  lemma {:induction false} EntryBlock(e: Node, dir: string, comps: seq<string>, depth: nat,
                                      open: map<string, bool>, all: bool, root: string)
    requires NodeNamed(e)
    requires ValidNames(comps)
    requires depth == |comps| && dir == PathOf(root, comps)
    ensures Block(EntryOut(e, dir, comps, depth, open, all).rows, comps, root)
    decreases e, 0
  {
    var path := Join(dir, e.name);
    var cs := comps + [e.name];
    assert cs[..|comps|] == comps;
    assert PathOf(root, cs) == path;
    assert ValidNames(cs) by {
      forall m | 0 <= m < |cs| ensures ValidName(cs[m]) {
        if m < |comps| { assert cs[m] == comps[m]; }
      }
    }
    match e
    case Dangling(n) =>
    case File(n) =>
      if !(Hidden(n) && !all) {
        var r := Row(FlagFile, depth, n, false, path, cs);
        BlockCons(r, [], comps, root);
        assert [r] + [] == [r];
      }
    case Dir(n, l) =>
      if !(Hidden(n) && !all) {
        if IsOpen(open, path) {
          var r := Row(FlagMore, depth, n, true, path, cs);
          ContentsBlock(l, path, cs, depth + 1, open, all, root);
          BlockCons(r, ContentsOut(l, path, cs, depth + 1, open, all).rows, comps, root);
        } else {
          var r := Row(FlagLess, depth, n, true, path, cs);
          BlockCons(r, [], comps, root);
          assert [r] + [] == [r];
        }
      }
  }

  /** The first line of a projection is at depth 0, and every line is at
      most one level deeper than the one before it. */
  lemma ProjectionDepths(rows: seq<Row>, root: string)
    requires Projection(rows, root)
    ensures |rows| > 0 ==> rows[0].depth == 0
    ensures forall i :: 0 < i < |rows| ==> rows[i].depth <= rows[i - 1].depth + 1
  {
    forall i | 0 < i < |rows| ensures rows[i].depth <= rows[i - 1].depth + 1 {
      assert LinkedAt(rows, i);
    }
  }

  /** Whatever `printRoot` writes, up to an error, is a projection of the
      root. */
  lemma RootProjection(l: Listing, root: string, open: map<string, bool>, all: bool)
    requires ListingNamed(l)
    ensures Projection(RootOut(l, root, open, all).rows, root)
  {
    ContentsBlock(l, root, [], 0, open, all, root);
  }

  // No path is drawn twice.

  /** No two rows stand for the same entry. */
  predicate DistinctRows(rows: seq<Row>)
  {
    forall a, b :: 0 <= a < b < |rows| ==> rows[a].comps != rows[b].comps
  }

  /** The names of a listing's entries. */
  function NamesOf(es: seq<Node>): set<string>
  {
    set x | 0 <= x < |es| :: es[x].name
  }

  /** Because `printRoot` visits every listed entry once and no directory
      lists a name twice, the rows it writes stand for different entries. */
  lemma RootDistinct(l: Listing, root: string, open: map<string, bool>, all: bool)
    requires ListingNamed(l)
    ensures DistinctRows(RootOut(l, root, open, all).rows)
  {
    ContentsDistinct(l, root, [], 0, open, all);
  }

  lemma {:induction false} ContentsDistinct(l: Listing, dir: string, comps: seq<string>, depth: nat,
                                            open: map<string, bool>, all: bool)
    requires ListingNamed(l)
    ensures var rows := ContentsOut(l, dir, comps, depth, open, all).rows;
      && DistinctRows(rows)
      && forall k :: 0 <= k < |rows| ==>
           |rows[k].comps| > |comps| && rows[k].comps[..|comps|] == comps
    decreases l, 2
  {
    match l
    case Unreadable =>
    case Entries(es) => EntriesDistinct(es, dir, comps, depth, open, all);
  }

  lemma {:induction false} EntriesDistinct(es: seq<Node>, dir: string, comps: seq<string>, depth: nat,
                                           open: map<string, bool>, all: bool)
    requires forall i :: 0 <= i < |es| ==> NodeNamed(es[i])
    requires DistinctNames(es)
    ensures var rows := EntriesOut(es, dir, comps, depth, open, all).rows;
      && DistinctRows(rows)
      && forall k :: 0 <= k < |rows| ==>
           && |rows[k].comps| > |comps| && rows[k].comps[..|comps|] == comps
           && rows[k].comps[|comps|] in NamesOf(es)
    decreases es, 1
  {
    if es != [] {
      var a := EntryOut(es[0], dir, comps, depth, open, all);
      EntryDistinct(es[0], dir, comps, depth, open, all);
      assert es[0].name in NamesOf(es);
      if a.err.None? {
        var rest := es[1..];
        assert DistinctNames(rest) by {
          forall x, y | 0 <= x < y < |rest| ensures rest[x].name != rest[y].name {
            assert rest[x] == es[x + 1] && rest[y] == es[y + 1];
          }
        }
        assert forall i :: 0 <= i < |rest| ==> NodeNamed(rest[i]) by {
          forall i | 0 <= i < |rest| ensures NodeNamed(rest[i]) { assert rest[i] == es[i + 1]; }
        }
        EntriesDistinct(rest, dir, comps, depth, open, all);
        var b := EntriesOut(rest, dir, comps, depth, open, all);
        assert NamesOf(rest) <= NamesOf(es) by {
          forall n | n in NamesOf(rest) ensures n in NamesOf(es) {
            var x :| 0 <= x < |rest| && rest[x].name == n;
            assert es[x + 1].name == n;
          }
        }
        assert es[0].name !in NamesOf(rest) by {
          forall x | 0 <= x < |rest| ensures rest[x].name != es[0].name {
            assert rest[x] == es[x + 1];
          }
        }
        RowsJoinDistinct(a.rows, b.rows, |comps|, es[0].name);
      }
    }
  }

  /** Rows that all name `n` at position `p` and rows that never do stand for
      different entries. */
  lemma RowsJoinDistinct(a: seq<Row>, b: seq<Row>, p: nat, n: string)
    requires DistinctRows(a) && DistinctRows(b)
    requires forall k :: 0 <= k < |a| ==> |a[k].comps| > p && a[k].comps[p] == n
    requires forall k :: 0 <= k < |b| ==> |b[k].comps| > p && b[k].comps[p] != n
    ensures DistinctRows(a + b)
  {
    var c := a + b;
    forall x, y | 0 <= x < y < |c| ensures c[x].comps != c[y].comps {
      if y < |a| {
        assert c[x] == a[x] && c[y] == a[y];
      } else if x >= |a| {
        assert c[x] == b[x - |a|] && c[y] == b[y - |a|];
      } else {
        assert c[x] == a[x] && c[y] == b[y - |a|];
        assert c[x].comps[p] != c[y].comps[p];
      }
    }
  }

  lemma {:induction false} EntryDistinct(e: Node, dir: string, comps: seq<string>, depth: nat,
                                         open: map<string, bool>, all: bool)
    requires NodeNamed(e)
    ensures var rows := EntryOut(e, dir, comps, depth, open, all).rows;
      && DistinctRows(rows)
      && forall k :: 0 <= k < |rows| ==>
           && |rows[k].comps| > |comps| && rows[k].comps[..|comps|] == comps
           && rows[k].comps[|comps|] == e.name
    decreases e, 0
  {
    var path := Join(dir, e.name);
    var cs := comps + [e.name];
    assert cs[..|comps|] == comps && cs[|comps|] == e.name;
    match e
    case Dangling(n) =>
    case File(n) =>
    case Dir(n, l) =>
      if !(Hidden(n) && !all) && IsOpen(open, path) {
        var r := Row(FlagMore, depth, n, true, path, cs);
        var kids := ContentsOut(l, path, cs, depth + 1, open, all).rows;
        ContentsDistinct(l, path, cs, depth + 1, open, all);
        var rows := [r] + kids;
        assert EntryOut(e, dir, comps, depth, open, all).rows == rows;
        forall k | 0 <= k < |rows|
          ensures |rows[k].comps| > |comps| && rows[k].comps[..|comps|] == comps
          ensures rows[k].comps[|comps|] == e.name
        {
          if k > 0 {
            var c := rows[k].comps;
            assert c == kids[k - 1].comps && c[..|cs|] == cs;
            assert c[..|comps|] == cs[..|comps|];
            assert c[|comps|] == cs[|comps|];
          }
        }
        forall x, y | 0 <= x < y < |rows| ensures rows[x].comps != rows[y].comps {
          if x == 0 {
            assert |rows[y].comps| > |cs|;
          } else {
            assert rows[x] == kids[x - 1] && rows[y] == kids[y - 1];
          }
        }
      }
  }

  // What the flags and the dotfile switch select.

  /** A row is drawn as the state asks: a directory is `FlagMore` exactly when
      it is expanded, and without `all` no dotfile is drawn. */
  predicate Shown(r: Row, open: map<string, bool>, all: bool)
  {
    && (r.isDir ==> (r.flag == FlagMore <==> IsOpen(open, r.path)))
    && (!all ==> !Hidden(r.name))
  }

  predicate AllShown(rows: seq<Row>, open: map<string, bool>, all: bool)
  {
    forall i :: 0 <= i < |rows| ==> Shown(rows[i], open, all)
  }

  lemma {:induction false} ContentsShown(l: Listing, dir: string, comps: seq<string>, depth: nat,
                                         open: map<string, bool>, all: bool)
    ensures AllShown(ContentsOut(l, dir, comps, depth, open, all).rows, open, all)
    decreases l, 2
  {
    match l
    case Unreadable =>
    case Entries(es) => EntriesShown(es, dir, comps, depth, open, all);
  }

  lemma {:induction false} EntriesShown(es: seq<Node>, dir: string, comps: seq<string>, depth: nat,
                                        open: map<string, bool>, all: bool)
    ensures AllShown(EntriesOut(es, dir, comps, depth, open, all).rows, open, all)
    decreases es, 1
  {
    if es != [] {
      EntryShown(es[0], dir, comps, depth, open, all);
      var a := EntryOut(es[0], dir, comps, depth, open, all);
      if a.err.None? {
        EntriesShown(es[1..], dir, comps, depth, open, all);
        var b := EntriesOut(es[1..], dir, comps, depth, open, all);
        assert forall i :: 0 <= i < |a.rows + b.rows| ==>
          (a.rows + b.rows)[i] == (if i < |a.rows| then a.rows[i] else b.rows[i - |a.rows|]);
      }
    }
  }

  lemma {:induction false} EntryShown(e: Node, dir: string, comps: seq<string>, depth: nat,
                                      open: map<string, bool>, all: bool)
    ensures AllShown(EntryOut(e, dir, comps, depth, open, all).rows, open, all)
    decreases e, 0
  {
    var path := Join(dir, e.name);
    match e
    case Dangling(n) =>
    case File(n) =>
    case Dir(n, l) =>
      if !(Hidden(n) && !all) && IsOpen(open, path) {
        var c := ContentsOut(l, path, comps + [n], depth + 1, open, all);
        ContentsShown(l, path, comps + [n], depth + 1, open, all);
        var r := Row(FlagMore, depth, n, true, path, comps + [n]);
        assert forall i :: 0 < i < |[r] + c.rows| ==> ([r] + c.rows)[i] == c.rows[i - 1];
      }
  }

  /** A dotfile is skipped without `all`: it writes nothing and reports
      nothing. Any other entry that exists writes at least its own line. */
  lemma HiddenSkipped(e: Node, dir: string, comps: seq<string>, depth: nat,
                      open: map<string, bool>, all: bool)
    requires !e.Dangling?
    ensures Hidden(e.name) && !all ==> EntryOut(e, dir, comps, depth, open, all) == Out([], None)
    ensures !(Hidden(e.name) && !all) ==>
      var o := EntryOut(e, dir, comps, depth, open, all);
      |o.rows| >= 1 && o.rows[0].name == e.name && o.rows[0].depth == depth
  {
  }

  // The text `printRoot` writes.

  /** No entry line holds a newline, so each is one line of the buffer. */
  lemma LineNoNewline(r: Row, root: string)
    requires RowOk(r, root)
    ensures Newline !in Line(r)
  {
    assert ValidName(r.name);
    var d := Display(r);
    assert Newline !in d by {
      if r.isDir { assert d == r.name + [Slash]; }
    }
    var t := Tabs(r.depth);
    assert Line(r) == [r.flag, Space] + t + d;
    assert Newline !in t;
  }

  /** When the render succeeds, the buffer's lines are the entry lines and
      the blank line after the final newline. */
  lemma RootTextLines(l: Listing, root: string, open: map<string, bool>, all: bool)
    requires ListingNamed(l)
    requires RootOut(l, root, open, all).err.None?
    ensures Lines(RootText(l, root, open, all)) == RowLines(RootOut(l, root, open, all).rows) + [""]
  {
    var rows := RootOut(l, root, open, all).rows;
    RootProjection(l, root, open, all);
    var ls := RowLines(rows) + [""];
    forall i | 0 <= i < |ls| ensures Newline !in ls[i] {
      if i < |rows| {
        assert Under(rows[i], [], root);
        LineNoNewline(rows[i], root);
      }
    }
    UnlinesAppend(RowLines(rows), [""]);
    assert Unlines([""]) == [Newline];
    LinesOfUnlines(ls);
  }
}
