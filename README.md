# xplor, modelled in Dafny

xplor is a file explorer for the acme editor. It renders a directory tree into
the window body, one entry per line. Each line is a flag rune, a space, one tab
per level of depth, then the entry's name. Directories get a trailing `/`.
Their flag is `▸` when collapsed and `▾` when expanded. Files get the flag
U+2002 (EN SPACE). A click is turned back into a path by reading the clicked
line and climbing the indentation: for each level, the nearest earlier line
with exactly one tab less names the parent. No tree is kept in memory; the
buffer text plus the set of expanded directories is the whole state.

The model covers this core of `xplor.go`:

- the projector (`printRoot`, `printContents`, `printEntry`) as functions of an
  abstract filesystem tree, and as methods that append to a writer;
- the line decoder (the string part of `entry`);
- the resolver (`abspath`), with acme's backward search as a function over the
  buffer's lines;
- the address builders (`split`, `selectEntry`, `selectEntryRegion`) and
  `regexp.QuoteMeta`;
- the session state `open` / `root` / `all`, as a class whose methods are
  `draw`, `redraw`, `toggleAll`, `goUp`, `cd`, `look` (with `redrawEntry`) and
  the `Cd` command (`loc` followed by `cd`);
- the event predicates `isComplex` and `q`, and the prefix and comma logic of
  `loc`.

Modules, one file each: `Wrappers`/`Errors` (wrappers.dfy), `Text`, `Paths`,
`FileTree` (the filesystem as a datatype), `Codec` (line format), `Projector`,
`Resolver`, `Address` (split and editor addresses), `Events` and `Session`.

The main theorems:

- `Resolver.ResolveProjection`: in any rendered projection, resolving a line
  gives back the path the projector joined for that entry, and its depth.
  `Resolver.SearchFindsAncestor` is the step behind it: the nearest earlier
  line with k tabs is the depth-k ancestor.
- `Projector.RootProjection`: whatever `printRoot` writes is a projection.
  `Projector.ProjectionDepths`: every line is at most one level deeper than the
  one before it.
- `Address.SplitPathOf`: the corrected `split` recovers the components of every entry path.
- `Address.RegionExactly`: the region `selectEntryRegion` selects is the entry
  and exactly its displayed descendants, given that no directory lists a name
  twice (`Projector.RootDistinct`).

The file flag looks like a space but is U+2002 (EN SPACE, xplor.go:29). `entry`
splits at the first ASCII space, so a file's line splits after its flag, as a
directory's does, and a file name decodes without a leading space
(`Codec.DecodeEncode` holds for all three flags).

## Model

| member | source | states |
|---|---|---|
| Codec.EncodeLine | xplor.go:198-199 | A line is the flag, one space, exactly `depth` tabs, then the name; its length is 2 + depth + the name's length. |
| Codec.Decode | xplor.go:294-300 | The decoded name never begins with a tab, because all leading tabs were counted into the depth. |
| Codec.DecodeParts | xplor.go:295-300 | A line with no space decodes to ("", 0). Otherwise the name is a suffix of the line, the `depth` runes before it are tabs, and the rune before those is the line's first space. |
| Codec.DecodeEncode | xplor.go:294-300 | Decoding an encoded line gives back the written name (a directory's includes its `/`) and the depth, for every flag that is not an ASCII space. |
| Codec.MatchesLevelEncoded | xplor.go:316 | An entry line matches `^..\t{k}[^\t]` exactly when its depth is k. |
| Projector.RootOut | xplor.go:157-159 | `printRoot`'s render fails only on the filesystem; an unreadable root writes nothing and fails with the root's read error. |
| Projector.RootText | xplor.go:157-163 | On success the text ends with the newline `printRoot` adds; on failure it is the text of the rows written before the error. |
| Projector.ContentsOut | xplor.go:165-183 | `printContents` fails only on the filesystem: a directory it cannot read, or an entry whose link it cannot stat. |
| Projector.EntriesOut | xplor.go:170-181 | The entry loop fails only on the filesystem. |
| Projector.EntryOut | xplor.go:172-205 | One entry (its symlink check and `printEntry`) fails only on the filesystem. |
| Projector.HiddenSkipped | xplor.go:186-189 | Without `all`, a dotfile writes nothing and reports no error. Any other existing entry writes its own line first, at its depth. |
| Projector.EntryText | xplor.go:190-205 | The text `printEntry` writes is its line (flag by type and `open[path]`, `/` after a directory name), then for an expanded directory only the contents below it; its error is that of the contents. |
| Projector.EntriesOutSnoc | xplor.go:170-181 | When the entries so far raised no error, one more entry appends its rows, and its error becomes the loop's error. |
| Projector.EntriesOutStops | xplor.go:176-180 | The loop stops at the first entry that fails; the output is the rows written before it and by it, with its error. |
| Projector.EntriesRound | xplor.go:170-181 | One loop round: the text written grows by the entry's text, and the loop either goes on without error or stops with the entry's error. |
| Projector.BlockAppend | xplor.go:170-181 | Blocks of sibling rows under the same directory concatenate into one block. |
| Projector.BlockCons | xplor.go:199-204 | An entry's row followed by the block of its children is a block at the entry's level; only an expanded directory may have children below it. |
| Projector.ContentsBlock | xplor.go:165-183 | The rows `printContents` writes for a directory form a block: every row lies below that directory, the first at depth `|comps|`, and each row follows the one before it. |
| Projector.EntriesBlock | xplor.go:170-181 | The rows the entry loop writes form such a block. |
| Projector.EntryBlock | xplor.go:185-205 | The rows `printEntry` writes form such a block. |
| Projector.RootProjection | xplor.go:157-159 | Whatever `printRoot` writes, up to an error, is a projection of the root. |
| Projector.ProjectionDepths | xplor.go:157-205 | In a projection the first row is at depth 0 and every row is at most one level deeper than the row before it. |
| Projector.ContentsShown | xplor.go:165-183 | Every row written shows the state: a directory has flag `▾` exactly when `open[path]` is true, and without `all` no dotfile appears. |
| Projector.EntriesShown | xplor.go:170-181 | The same for the rows of the entry loop. |
| Projector.EntryShown | xplor.go:185-205 | The same for the rows of one entry. |
| Projector.LineNoNewline | xplor.go:199 | An entry line holds no newline, so it is exactly one line of the buffer. |
| Projector.RootTextLines | xplor.go:157-163 | When the render succeeds, the buffer's lines are the entry lines followed by one empty line: the single extra `"\n"` leaves a blank last line. |
| Resolver.LastMatch | xplor.go:316 | The last line in a range matching the level pattern; none is returned only when no line in the range matches. |
| Resolver.SearchBack | xplor.go:316 | acme's backward search from the clicked line: the nearest matching line before it, else (wrapping round) the last one after it; none only when no other line matches. |
| Resolver.AncestorRow | xplor.go:165-205 | In linked rows that start at depth 0, for each level k above row i, the nearest earlier row at depth k is a directory whose components are i's first k+1 components; every row in between is deeper than k. |
| Resolver.RowMatches | xplor.go:316 | A row's line matches the level-k pattern exactly when the row's depth is k. |
| Resolver.RowDecodes | xplor.go:294-300 | A row's line decodes to its written name and its depth. |
| Resolver.Resolve | xplor.go:305-325 | `abspath` of a line outside the buffer fails; a line with no name resolves to the empty path at depth 0 with no error; a resolved entry keeps the clicked line's depth; any other failure is a level above the clicked line's depth with no matching line. |
| Resolver.ClimbFails | xplor.go:314-321 | The climb (`Resolver.Climb`) fails only at a level below the one it started from, and only when the search for that level finds no line. |
| Resolver.SearchFindsAncestor | xplor.go:314-321 | On a projection, the search of `abspath` for level k lands on the depth-k ancestor of the clicked row. |
| Resolver.ParentLine | xplor.go:314-321 | The line that search finds names the ancestor at that level, written with its trailing slash. |
| Resolver.ClimbProjection | xplor.go:314-321 | On a projection the climb succeeds, and rebuilds all the row's components, slash-separated. |
| Resolver.ResolveProjection | xplor.go:305-324 | Resolving any entry line of a projection gives back the path the projector joined for that entry, and its depth. |
| Resolver.DrawnLineResolves | xplor.go:121-136 | After a successful `draw`, resolving any entry line of the body gives that entry's path and depth. |
| Resolver.ResolveTerminator | xplor.go:309-315 | The blank last line resolves to the empty path with no error. |
| Address.QuoteMeta | xplor.go:262 | Quoting never shortens a name. |
| Address.UnquoteQuote | xplor.go:262 | A quoted name, read literally, is the name: quoting loses nothing. |
| Address.QuoteEscapes | xplor.go:262 | Every special character of the name comes out preceded by a backslash. |
| Address.SplitAsWritten | xplor.go:328-334 | `split` as written: the root has no components; any other path has at least one. |
| Address.SplitAsWrittenAtSlashRoot | xplor.go:332 | With the root "/", `split("/usr")` gives `["", "usr"]`, although `/usr` is the root's entry `usr`. |
| Address.SplitPath | xplor.go:328-334 | Corrected `split`: the root has no components; any other path has at least one. |
| Address.SplitAgreesBelowOtherRoots | xplor.go:328-334 | For every root other than "/" (without a trailing slash), the corrected `split` equals the written one. |
| Address.SplitPathOf | xplor.go:328-334 | The corrected `split` recovers exactly the components of every entry path the projector builds, and none for the root. |
| Address.EntryAddressSteps | xplor.go:257-263 | The address (`Address.EntryAddress`, with `Address.Steps`) is "0" followed by one step per component, the i-th step carrying i tabs and the quoted i-th component. |
| Address.EndPatternHas | xplor.go:271-276 | The end pattern (`Address.EndPattern`) holds, after `^$`, the alternative for k tabs for every k up to the depth, in order. |
| Address.EndPatternLength | xplor.go:271-276 | Nothing else is in the end pattern: its length is that of `^$` plus the depth+1 alternatives. |
| Address.EndMatchesCount | xplor.go:271-276 | The end pattern matches a line exactly when it is blank, or it has at least three runes and at most `depth` tabs after its first two. |
| Address.FirstEndAfter | xplor.go:277 | The first matching line at or after the start, with no match in between; none only when no later line matches. |
| Address.RegionOfRow | xplor.go:270-277 | On a projection, the region of row i ends at the first later row that is not deeper than i, or at the blank last line. Every row in between is deeper than i, and its components extend i's: each is one of i's displayed descendants. |
| Address.RegionExactly | xplor.go:270-277 | When no two rows stand for the same entry, a later row lies in row i's region if and only if its components extend i's: the region holds exactly i's displayed descendants. |
| Address.NotBelowAfter | xplor.go:270-277 | Past the region's end no row lies below row i again. |
| Projector.RootDistinct | xplor.go:165-205 | When no directory lists a name twice, no two rows of a render stand for the same path. |
| Address.RowEnd | xplor.go:271-276 | A row's line matches the end pattern for depth d exactly when the row is at depth d or less. |
| Events.IsComplexAsWritten | xplor.go:420-430 | For a flag that fits in a 64-bit word, `Events.IsComplex` holds exactly when the selection is not a point or `flag & 8` is non-zero, the bit test `isComplex` makes. |
| Events.Q | xplor.go:432-434 | The click address is `#` followed by digits. |
| Events.QDenotesClick | xplor.go:432-434 | The address `q` builds parses back to the click position. |
| Events.LocPrefix | xplor.go:447 | The location prefix is the window's name followed by a colon. |
| Events.LocAddress | xplor.go:436-451 | `loc` finds an address only for a chorded argument whose location starts with the window's prefix, and the address holds no comma. |
| Events.LocAddressExactly | xplor.go:436-451 | `loc` finds address a exactly when the argument is chorded and its location is the prefix, then a (with no comma), then nothing or a comma and the rest. |
| Paths.DirBaseOfJoin | xplor.go:186 | Joining a clean parent and a component, then taking `Dir` and `Base`, gives back both. |
| Paths.Up | xplor.go:215-218 | `goUp` keeps the root "/" where it is. From any other clean absolute root it goes to a proper prefix that is "/" or ends just before one of the root's slashes. |
| Paths.UpOfJoin | xplor.go:216 | `filepath.Join(root, "..")` of an entry's path is its parent. |
| Paths.PathOfClean | xplor.go:172 | Joining components onto a clean absolute root gives a clean absolute path. |
| Session.Toggle | xplor.go:239 | Flips the toggled path's membership and leaves every other path alone. |
| Session.ToggleTwice | xplor.go:239 | Toggling the same path twice restores every path's membership. |
| Session.SelectEntryRegion | xplor.go:270-277 | The loop builds `^$` plus one alternative per tab count from 0 to depth, and the address is that region. |
| Session.Session.constructor | xplor.go:34-40 | The session starts with the given root and dotfile switch, and with no directory expanded. |
| Session.Session.PrintRoot | xplor.go:157-163 | Returns the render's error and appends the rendered text, plus one newline when the render succeeded. |
| Session.Session.PrintContents | xplor.go:165-183 | Returns the directory's render error and appends exactly the text of the rows written, stopping at the first failing entry. |
| Session.Session.PrintEntry | xplor.go:185-206 | Returns the entry's render error and appends exactly its text. |
| Session.Session.Abspath | xplor.go:305-325 | The loop's result is the resolution of the clicked line. |
| Session.Session.SelectEntry | xplor.go:257-263 | The loop builds exactly the entry address of the path's components. |
| Session.Session.Draw | xplor.go:121-136 | Into an empty body: names the window after the root. On success the body is the lines of the rendered text and the first line is selected; on failure the body stays empty. |
| Session.Session.Redraw | xplor.go:138-141 | Clears the body, then draws. |
| Session.Session.ToggleAll | xplor.go:210-213 | Flips `all` and keeps `root` and `open`. The window is renamed after the root; on success the body is the new render and the first line is selected, on failure the body is empty. |
| Session.Session.GoUp | xplor.go:215-218 | The root becomes its parent and the rest of the state stays. The window is renamed after the new root; on success the body is the new render and the first line is selected, on failure the body is empty. |
| Session.Session.Cd | xplor.go:220-223 | The root becomes the given directory. The window is renamed after it; on success the body is the new render and the first line is selected, on failure the body is empty. |
| Session.Session.Look | xplor.go:227-244 | A resolve failure returns its error and changes nothing; a stat failure returns it and leaves the body as it was. A file is sent, and neither `open` nor the body changes. For a directory, `open[path]` is always flipped. Then a missing region end, or a `printEntry` failure, is returned with the body unchanged; otherwise the entry's region is replaced by the lines `printEntry` writes for it now, and the entry is selected. |
| Session.Session.RedrawEntry | xplor.go:143-153 | Selects the region of the entry's line, up to the first line no deeper than it. When that region has an end and `printEntry` succeeds, the region is replaced by what it wrote; otherwise the error is returned and the body is unchanged. |
| Session.Session.ChangeDir | xplor.go:436-466 | The `Cd` command: without a usable chorded argument the root becomes ""; resolve and stat failures return their error and leave the window as it was; otherwise the root becomes the directory found, or the parent of the file found. Whenever `cd` runs, the window is renamed after the new root and its body is the new render, or empty on failure. |

## Left out

- acme itself: window naming, `ctl` messages, `clean`, `show`, setting dot, and the event loop. `Draw` sets the name and body, and reports the address it would select.
- The acme regular-expression engine. The three patterns xplor builds are modelled by what they match: `MatchesLevel`, `EndMatches`, and `EntryAddress` as text.
- Addresses are line indices. Where `addr` falls within a line, and acme's handling of `-+` at a line's end, are not modelled.
- The real filesystem. `ReadDir`, `os.Stat` and symlink resolution become a `Node` tree (a symlink is already its target's type; a dangling one is `Dangling`). `Look` and `ChangeDir` receive what `os.Stat` finds as a parameter. Listing order is the tree's order; `ReadDir`'s sorting is not modelled. A listing names each entry once, as `ReadDir` does (`FileTree.ListingNamed`).
- `send` (the plumber), `run` (`exec.Command`), `print`/`log`, `main`, `usage`, `setup`, `findRoot`, `openWindow` and `handle`'s dispatch. These are process glue or foreign calls.
- Write errors of the writer and the window; writing is assumed to succeed.
- Full `filepath.Clean`: `Join`, `Dir`, `Base` and `Up` are modelled for clean paths. `Up` handles the relative roots "", "." and paths ending in "..", but not every relative form `Clean` rewrites.
- Session.Session.PrintEntry: takes the entry's name from the tree rather than as `filepath.Base(path)`; the two agree for clean paths (`Paths.DirBaseOfJoin`).
- Session.Session.Look: the new region's text is printed for `Base(path)` under `Dir(path)`, as `redrawEntry` does. That one toggle gives the same body as a full redraw with the new `open` is not proved. `found`, what `os.Stat` finds, is a parameter that is not tied to the tree the body was drawn from, so the property does not hold for every call; stating it needs a lookup of the clicked entry in the tree and a split of the render at that entry, which the model does not have.
- Session.Session.RedrawEntry: the region-end search does not wrap round, and a missing end is reported as an error. In a buffer `printRoot` wrote, the blank last line always ends the search.
- Session.Session.SelectEntry: uses the corrected `split` (`Address.SplitPath`, see Findings), not `split` as written; the two differ only when the root is "/" (`Address.SplitAgreesBelowOtherRoots`).
- Session.Session.Look: the focus it returns comes from `SelectEntry`, so it uses the corrected `split` too.
- Names holding a newline, or beginning with a tab, are excluded by `ValidName`; the one-line-per-entry encoding cannot carry them.
- `Cd` with no usable argument: `loc` returns "" with a nil error, so `cd("")` sets the root to "". The model keeps this behaviour.

## Findings

| source | as written | input that shows it | evidently intended | confidence | as-written member | corrected member |
|---|---|---|---|---|---|---|
| xplor.go:332 | `split` strips the prefix `root + "/"`, which is "//" when the root is "/" | root "/", path "/usr": `split` gives `["", "usr"]`, so `selectEntry` searches for an empty name at depth 0 and for `usr` at depth 1 | strip the root and one separator, so that `split("/usr")` is `["usr"]` | not executed | Address.SplitAsWritten, Address.SplitAsWrittenAtSlashRoot | Address.SplitPath, Address.SplitPathOf |
