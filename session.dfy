/** The program's state — the expanded directories, the root and the dotfile
    switch — and the operations that read and change it: drawing, resolving a
    click, toggling an entry, and moving the root. The filesystem enters as
    parameters: the listing of the root (or of the entry being redrawn) and
    what `os.Stat` finds. */
module Session {
  import opened Wrappers
  import opened Errors
  import opened Text
  import opened Paths
  import opened FileTree
  import opened Codec
  import opened Projector
  import opened Resolver
  import opened Address
  import opened Events

  /** A `bytes.Buffer` the printers write into. */
  class Writer {
    var text: string

    constructor()
      ensures text == ""
    {
      text := "";
    }

    method Write(s: string)
      modifies this
      ensures text == old(text) + s
    {
      text := text + s;
    }
  }

  /** The editor window: its name and its body, as lines. */
  class Window {
    var name: string
    var lines: seq<string>

    constructor()
      ensures name == "" && lines == []
    {
      name := "";
      lines := [];
    }
  }

  /** `open[path] = !open[path]`. */
  function Toggle(open: map<string, bool>, path: string): (m: map<string, bool>)
    ensures IsOpen(m, path) == !IsOpen(open, path)
    ensures forall q :: q != path ==> IsOpen(m, q) == IsOpen(open, q)
  {
    open[path := !IsOpen(open, path)]
  }

  /** Toggling the same path twice leaves every path as open as it was. */
  lemma ToggleTwice(open: map<string, bool>, path: string)
    ensures forall q :: IsOpen(Toggle(Toggle(open, path), path), q) == IsOpen(open, q)
  {
  }

  /** What `look` did with a click. */
  datatype LookOutcome =
    | LookFailed(err: Error)
    | Sent(path: string)
    | Toggled(path: string, region: string, focus: string)

  /** `selectEntryRegion(addr, depth)`: the address handed to the editor. */
  method SelectEntryRegion(addr: string, depth: nat) returns (region: string)
    ensures region == RegionAddress(addr, depth)
  {
    var end := "^$";
    for i := 0 to depth + 1
      invariant end == EndPatternUpTo(i)
    {
      end := end + "|^.." + Tabs(i) + "[^\t]";
    }
    region := addr + "-/^/+/^/," + addr + "+/" + end + "/-/^/";
  }

  class Session {
    /** The directories shown expanded; an absent path is collapsed. */
    var open: map<string, bool>
    var root: string
    /** Whether dotfiles are shown (the `-a` flag, toggled by `All`). */
    var all: bool

    constructor(root: string, all: bool)
      ensures this.root == root && this.all == all && open == map[]
    {
      this.root := root;
      this.all := all;
      open := map[];
    }

    // Printing.

    /** `printRoot`. */
    method PrintRoot(w: Writer, l: Listing) returns (err: Option<Error>)
      modifies w
      ensures err == RootOut(l, root, open, all).err
      ensures w.text == old(w.text) + RootText(l, root, open, all)
    {
      err := PrintContents(w, l, root, [], 0);
      if err.None? {
        w.Write([Newline]);
      }
    }

    /** `printContents(w, dir, depth)` on a directory whose listing is `l`. */
    method PrintContents(w: Writer, l: Listing, dir: string, ghost comps: seq<string>, depth: nat)
      returns (err: Option<Error>)
      modifies w
      ensures var o := ContentsOut(l, dir, comps, depth, open, all);
        err == o.err && w.text == old(w.text) + OutText(o)
      decreases l, 2
    {
      if l.Unreadable? {
        EntriesAll([], dir, comps, depth, open, all);
        return Some(ReadDirFailed(dir));
      }
      var es := l.entries;
      EntriesAll(es, dir, comps, depth, open, all);
      assert es[..|es|] == es;
      var i := 0;
      ghost var done := EntriesOut(es[..0], dir, comps, depth, open, all);
      while i < |es|
        invariant 0 <= i <= |es|
        invariant done == EntriesOut(es[..i], dir, comps, depth, open, all)
        invariant done.err.None? && w.text == old(w.text) + OutText(done)
      {
        var e := es[i];
        EntriesRoundWritten(es, i, dir, comps, depth, open, all, old(w.text), w.text);
        if e.Dangling? {
          return Some(StatFailed(Join(dir, e.name)));
        }
        assert e in es;
        err := PrintEntry(w, e, dir, comps, depth);
        if err.Some? {
          return;
        }
        done := EntriesOut(es[..i + 1], dir, comps, depth, open, all);
        i := i + 1;
      }
      return None;
    }

    /** `printEntry` for an entry that exists: its line, and for an expanded
        directory the contents below it. */
    method PrintEntry(w: Writer, e: Node, dir: string, ghost comps: seq<string>, depth: nat)
      returns (err: Option<Error>)
      requires !e.Dangling?
      modifies w
      ensures var o := EntryOut(e, dir, comps, depth, open, all);
        err == o.err && w.text == old(w.text) + OutText(o)
      decreases e, 0
    {
      var path := Join(dir, e.name);
      if Hidden(e.name) && !all {
        EntriesAll([], dir, comps, depth, open, all);
        return None;
      }
      var flag := FlagFile;
      var name := e.name;
      if e.Dir? {
        name := name + [Slash];
        flag := FlagLess;
        if IsOpen(open, path) {
          flag := FlagMore;
        }
      }
      var line := EncodeLine(flag, depth, name) + [Newline];
      EntryText(e, dir, comps, depth, open, all);
      w.Write(line);
      if flag == FlagMore {
        err := PrintContents(w, e.listing, path, comps + [e.name], depth + 1);
        AppendAssoc(old(w.text), line, OutText(ContentsOut(e.listing, path, comps + [e.name], depth + 1, open, all)));
      } else {
        err := None;
      }
    }

    // Reading the buffer back.

    /** `abspath`: the path and depth of the entry on line `at`, climbing one
        level per round. */
    method Abspath(lines: seq<string>, at: nat) returns (r: Result<Resolved, Error>)
      ensures r == Resolve(lines, at, root)
    {
      if at >= |lines| {
        return Failure(AddressOutOfRange(at));
      }
      var d := Decode(lines[at]);
      if d.name == "" {
        return Ok(Resolved("", 0));
      }
      ResolveNamed(lines, at, root);
      var dir := d.name;
      var level: nat := d.depth;
      while level > 0
        invariant level <= d.depth
        invariant Climb(lines, at, level, dir) == Climb(lines, at, d.depth, d.name)
      {
        var parent := SearchBack(lines, at, level - 1);
        if parent.None? {
          return Failure(NoMatch(level - 1));
        }
        var next := Join(Decode(lines[parent.value]).name, dir);
        ClimbStep(lines, at, level, dir, parent.value);
        dir, level := next, level - 1;
      }
      assert Climb(lines, at, 0, dir) == Ok(dir);
      return Ok(Resolved(Join(root, dir), d.depth));
    }

    /** `selectEntry(path)`: the address that finds `path`'s line from the
        top, one search per component. */
    method SelectEntry(path: string) returns (addr: string)
      ensures addr == EntryAddress(SplitPath(path, root))
    {
      var cs := SplitPath(path, root);
      addr := "0";
      for i := 0 to |cs|
        invariant addr == "0" + Steps(cs[..i])
      {
        var step := "+/^.." + Tabs(i) + QuoteMeta(cs[i]) + "/";
        StepsSnoc(cs, i);
        AppendAssoc("0", Steps(cs[..i]), step);
        addr := addr + step;
      }
      assert cs[..|cs|] == cs;
    }

    // Drawing the window.

    /** `draw` into a window with an empty body: name it after the root,
        write the projection, and select the first line. When printing fails
        nothing is written and the body stays empty. */
    method Draw(win: Window, l: Listing) returns (err: Option<Error>, focus: string)
      requires win.lines == []
      modifies win
      ensures win.name == WindowName(root)
      ensures err == RootOut(l, root, open, all).err
      ensures err.None? ==> win.lines == Lines(RootText(l, root, open, all)) && focus == "0"
      ensures err.Some? ==> win.lines == []
    {
      win.name := WindowName(root);
      var b := new Writer();
      err := PrintRoot(b, l);
      assert b.text == RootText(l, root, open, all) by {
        assert "" + RootText(l, root, open, all) == RootText(l, root, open, all);
      }
      if err.Some? {
        return err, "";
      }
      win.lines := Lines(b.text);
      focus := SelectEntry(root);
      assert Steps([]) == "";
    }

    /** `redraw`: clear the body, then draw. */
    method Redraw(win: Window, l: Listing) returns (err: Option<Error>, focus: string)
      modifies win
      ensures win.name == WindowName(root)
      ensures err == RootOut(l, root, open, all).err
      ensures err.None? ==> win.lines == Lines(RootText(l, root, open, all)) && focus == "0"
      ensures err.Some? ==> win.lines == []
    {
      win.lines := [];
      err, focus := Draw(win, l);
    }

    /** `toggleAll`: flip the dotfile switch and redraw from the listing of
        the root. */
    method ToggleAll(win: Window, l: Listing) returns (err: Option<Error>, focus: string)
      modifies this, win
      ensures all == !old(all) && root == old(root) && open == old(open)
      ensures win.name == WindowName(root)
      ensures err == RootOut(l, root, open, all).err
      ensures err.None? ==> win.lines == Lines(RootText(l, root, open, all)) && focus == "0"
      ensures err.Some? ==> win.lines == []
    {
      all := !all;
      err, focus := Redraw(win, l);
    }

    /** `goUp`: the root becomes its parent; `l` lists the new root. */
    method GoUp(win: Window, l: Listing) returns (err: Option<Error>, focus: string)
      modifies this, win
      ensures root == Up(old(root)) && all == old(all) && open == old(open)
      ensures win.name == WindowName(root)
      ensures err == RootOut(l, root, open, all).err
      ensures err.None? ==> win.lines == Lines(RootText(l, root, open, all)) && focus == "0"
      ensures err.Some? ==> win.lines == []
    {
      root := Up(root);
      err, focus := Redraw(win, l);
    }

    /** `cd(dir)`: the root becomes `dir`; `l` lists it. */
    method Cd(dir: string, win: Window, l: Listing) returns (err: Option<Error>, focus: string)
      modifies this, win
      ensures root == dir && all == old(all) && open == old(open)
      ensures win.name == WindowName(root)
      ensures err == RootOut(l, root, open, all).err
      ensures err.None? ==> win.lines == Lines(RootText(l, root, open, all)) && focus == "0"
      ensures err.Some? ==> win.lines == []
    {
      root := dir;
      err, focus := Redraw(win, l);
    }

    // Acting on a click.

    /** `look(addr)` where the editor places `addr` in line `at`. `found` is
        what `os.Stat` finds at the resolved path (`None` when it fails); for
        a directory it also holds the listing `printEntry` reads below it.
        A file is sent to the plumber; a directory is toggled, and its region
        of the body is replaced by what `printEntry` writes for it now. */
    method Look(win: Window, addr: string, at: nat, found: Option<Node>) returns (outcome: LookOutcome)
      modifies this, win
      ensures root == old(root) && all == old(all) && win.name == old(win.name)
      ensures var r := Resolve(old(win.lines), at, root);
        && (r.Failure? ==> outcome == LookFailed(r.error))
        && (r.Ok? && (r.value.path == "" || found.None? || found.value.Dangling?) ==>
              outcome == LookFailed(StatFailed(r.value.path)))
        && (r.Ok? && r.value.path != "" && found.Some? && found.value.File? ==>
              outcome == Sent(r.value.path))
        && (outcome.Toggled? ==> r.Ok? && outcome.path == r.value.path && found.Some? && found.value.Dir?)
      ensures outcome.LookFailed? || outcome.Sent? ==> win.lines == old(win.lines)
      ensures outcome.Sent? ==> open == old(open)
      ensures open == old(open) ||
        var r := Resolve(old(win.lines), at, root);
        r.Ok? && r.value.path != "" && found.Some? && found.value.Dir? && open == Toggle(old(open), r.value.path)
      ensures var r := Resolve(old(win.lines), at, root);
        r.Ok? && r.value.path != "" && found.Some? && found.value.Dir? ==>
          var d := r.value.depth;
          var e := found.value.(name := Base(r.value.path));
          var o := EntryOut(e, Paths.Dir(r.value.path), [], d, open, all);
          var end := FirstEndAfter(old(win.lines), at + 1, d);
          && open == Toggle(old(open), r.value.path)
          && (end.None? ==> outcome == LookFailed(NoRegionEnd(at)))
          && (end.Some? && o.err.Some? ==> outcome == LookFailed(o.err.value))
          && (end.Some? && o.err.None? ==> outcome.Toggled?)
      ensures outcome.Toggled? ==>
        var d := Resolve(old(win.lines), at, root).value.depth;
        var e := found.value.(name := Base(outcome.path));
        var end := FirstEndAfter(old(win.lines), at + 1, d);
        && open == Toggle(old(open), outcome.path)
        && outcome.region == RegionAddress(addr, d)
        && outcome.focus == EntryAddress(SplitPath(outcome.path, root))
        && end.Some?
        && win.lines == old(win.lines)[..at]
                        + Lines(OutText(EntryOut(e, Paths.Dir(outcome.path), [], d, open, all)))
                        + old(win.lines)[end.value..]
    {
      var r := Abspath(win.lines, at);
      if r.Failure? {
        return LookFailed(r.error);
      }
      var path := r.value.path;
      var depth := r.value.depth;
      if path == "" || found.None? || found.value.Dangling? {
        return LookFailed(StatFailed(path));
      }
      var node := found.value;
      if node.File? {
        return Sent(path);
      }
      open := Toggle(open, path);
      var err, region := RedrawEntry(win, node.(name := Base(path)), Paths.Dir(path), addr, at, depth);
      if err.Some? {
        return LookFailed(err.value);
      }
      var focus := SelectEntry(path);
      return Toggled(path, region, focus);
    }

    /** `redrawEntry`: the directory `e` inside `dir` is on line `at` at
        `depth`; its region — that line and the deeper lines after it, up to
        the first line no deeper than `depth` or the blank line — is replaced
        by what `printEntry` writes for it now. `look` calls it only once
        `abspath` has found line `at`. */
    method RedrawEntry(win: Window, e: Node, dir: string, addr: string, at: nat, depth: nat)
      returns (err: Option<Error>, region: string)
      requires at < |win.lines| && !e.Dangling?
      modifies win
      ensures win.name == old(win.name)
      ensures region == RegionAddress(addr, depth)
      ensures var end := FirstEndAfter(old(win.lines), at + 1, depth);
        var o := EntryOut(e, dir, [], depth, open, all);
        && (end.None? ==> err == Some(NoRegionEnd(at)) && win.lines == old(win.lines))
        && (end.Some? && o.err.Some? ==> err == o.err && win.lines == old(win.lines))
        && (end.Some? && o.err.None? ==>
              err.None? && win.lines == old(win.lines)[..at] + Lines(OutText(o)) + old(win.lines)[end.value..])
    {
      region := SelectEntryRegion(addr, depth);
      var end := FirstEndAfter(win.lines, at + 1, depth);
      if end.None? {
        return Some(NoRegionEnd(at)), region;
      }
      var b := new Writer();
      err := PrintEntry(b, e, dir, [], depth);
      ghost var text := OutText(EntryOut(e, dir, [], depth, open, all));
      assert b.text == text by {
        assert "" + text == text;
      }
      if err.None? {
        win.lines := win.lines[..at] + Lines(b.text) + win.lines[end.value..];
      }
    }

    /** The `Cd` command: `loc` finds the directory a chorded argument points
        at (the editor places its address in line `at`, and `isDir` is what
        `os.Stat` says of the resolved path), then `cd` moves there. Without a
        usable argument `loc` yields the empty path and no error, and the
        root becomes "". */
    method ChangeDir(e: Event, win: Window, at: nat, isDir: Option<bool>, l: Listing)
      returns (err: Option<Error>, focus: string)
      modifies this, win
      ensures all == old(all) && open == old(open)
      ensures LocAddress(e, old(root)).None? ==> root == "" && err == RootOut(l, "", open, all).err
      ensures LocAddress(e, old(root)).Some? ==>
        var r := Resolve(old(win.lines), at, old(root));
        && (r.Failure? ==>
              err == Some(r.error) && root == old(root) && win.name == old(win.name) && win.lines == old(win.lines))
        && (r.Ok? && (r.value.path == "" || isDir.None?) ==>
              && err == Some(StatFailed(r.value.path)) && root == old(root)
              && win.name == old(win.name) && win.lines == old(win.lines))
        && (r.Ok? && r.value.path != "" && isDir.Some? ==>
              root == (if isDir.value then r.value.path else Paths.Dir(r.value.path))
              && err == RootOut(l, root, open, all).err)
      ensures var moved := LocAddress(e, old(root)).None? ||
          var r := Resolve(old(win.lines), at, old(root));
          r.Ok? && r.value.path != "" && isDir.Some?;
        moved ==>
          && win.name == WindowName(root)
          && win.lines == (if err.None? then Lines(RootText(l, root, open, all)) else [])
          && (err.None? ==> focus == "0")
    {
      var a := LocAddress(e, root);
      var dir := "";
      if a.Some? {
        var r := Abspath(win.lines, at);
        if r.Failure? {
          return Some(r.error), "";
        }
        var p := r.value.path;
        if p == "" || isDir.None? {
          return Some(StatFailed(p)), "";
        }
        dir := if isDir.value then p else Paths.Dir(p);
      }
      err, focus := Cd(dir, win, l);
    }
  }
}
