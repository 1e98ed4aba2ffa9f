/** The parts of an editor event xplor inspects before acting on it: whether
    the event is a plain click, the address of the click, and the location a
    chorded argument points at. */
module Events {
  import opened Wrappers
  import opened Text

  /** The program's name, used in the window name and in locations. */
  const This: string := "xplor"

  /** An event as the editor reports it: the original selection
      [origQ0, origQ1) in characters, the flag bits, and for a chorded
      argument the location text `file:address`. */
  datatype Event = Event(origQ0: nat, origQ1: nat, flag: nat, loc: string)

  /** Bit 3 of the flags (`flag & 8 != 0`): the command was given a chorded
      argument. */
  predicate Chorded(flag: nat)
  {
    (flag / 8) % 2 == 1
  }

  /** `isComplex`: the user selected text or chorded an argument, so the
      event is handed back to the editor instead of being handled. */
  predicate IsComplex(e: Event)
  {
    e.origQ0 != e.origQ1 || Chorded(e.flag)
  }

  /** `isComplex` as written tests `e.Flag&8` on the flag word: the model's
      arithmetic test of bit 3 is that bitwise test, so exactly the point
      clicks (`OrigQ0 == OrigQ1`) without that bit are handled. */
  lemma IsComplexAsWritten(e: Event)
    requires e.flag < 0x1_0000_0000_0000_0000
    ensures IsComplex(e) <==> e.origQ0 != e.origQ1 || (e.flag as bv64) & 8 != 0
  {
  }

  /** `q`: the character address `#n` of the click. */
  function Q(e: Event): (a: string)
    ensures |a| >= 2 && a[0] == '#'
    ensures forall i :: 1 <= i < |a| ==> IsDigit(a[i])
  {
    "#" + Decimal(e.origQ0)
  }

  /** How the editor reads a character address `#n`. */
  function ParseCharAddress(a: string): Option<nat>
  {
    if |a| >= 2 && a[0] == '#' && forall i :: 1 <= i < |a| ==> IsDigit(a[i]) then
      Some(DecimalValue(a[1..]))
    else None
  }

  /** The address `q` builds denotes the click position. */
  lemma QDenotesClick(e: Event)
    ensures ParseCharAddress(Q(e)) == Some(e.origQ0)
  {
    var d := Decimal(e.origQ0);
    assert Q(e)[1..] == d;
    forall i | 1 <= i < |Q(e)| ensures IsDigit(Q(e)[i]) {
      assert Q(e)[i] == d[i - 1];
    }
    DecimalRoundTrip(e.origQ0);
  }

  /** The name `draw` gives the window for `root`. */
  function WindowName(root: string): string
  {
    root + "/-" + This
  }

  /** The prefix a location in this window starts with: its name and a colon. */
  function LocPrefix(root: string): (p: string)
    ensures p == WindowName(root) + ":"
  {
    root + "/-" + This + ":"
  }

  /** The address part of `loc` before it is resolved: for a chorded event
      whose location lies in this window, the first of the comma-separated
      addresses after the prefix; `None` where `loc` gives up without an
      error. */
  function LocAddress(e: Event, root: string): (a: Option<string>)
    ensures a.Some? ==> Chorded(e.flag) && HasPrefix(e.loc, LocPrefix(root)) && ',' !in a.value
  {
    if !Chorded(e.flag) then None
    else if e.loc == "" then None
    else if !HasPrefix(e.loc, LocPrefix(root)) then None
    else Some(SplitFirst(TrimPrefix(e.loc, LocPrefix(root)), ',')[0])
  }

  /** `loc` finds address `a` exactly when the argument is chorded and its
      location is this window's prefix, then `a` (which holds no comma), then
      nothing or a comma and the rest. */
  lemma LocAddressExactly(e: Event, root: string, a: string)
    ensures LocAddress(e, root) == Some(a) <==>
      Chorded(e.flag) && ',' !in a &&
      exists rest :: e.loc == LocPrefix(root) + a + rest && (rest == "" || rest[0] == ',')
  {
    if LocAddress(e, root) == Some(a) {
      var rest := LocAddressFound(e, root, a);
    }
    if Chorded(e.flag) && ',' !in a &&
       exists rest :: e.loc == LocPrefix(root) + a + rest && (rest == "" || rest[0] == ',') {
      var rest :| e.loc == LocPrefix(root) + a + rest && (rest == "" || rest[0] == ',');
      LocAddressOf(e, root, a, rest);
    }
  }

  lemma LocAddressFound(e: Event, root: string, a: string) returns (rest: string)
    requires LocAddress(e, root) == Some(a)
    ensures Chorded(e.flag) && ',' !in a
    ensures e.loc == LocPrefix(root) + a + rest && (rest == "" || rest[0] == ',')
  {
    var p := LocPrefix(root);
    assert HasPrefix(e.loc, p);
    var t := TrimPrefix(e.loc, p);
    assert p + t == e.loc;
    rest := SplitFirstHead(t, ',');
    assert e.loc == p + (a + rest);
  }

  lemma LocAddressOf(e: Event, root: string, a: string, rest: string)
    requires Chorded(e.flag) && ',' !in a
    requires e.loc == LocPrefix(root) + a + rest && (rest == "" || rest[0] == ',')
    ensures LocAddress(e, root) == Some(a)
  {
    var p := LocPrefix(root);
    assert |p| > 0;
    assert e.loc[..|p|] == p;
    var t := e.loc[|p|..];
    assert TrimPrefix(e.loc, p) == t;
    assert t == a + rest;
    if rest == "" {
      assert t == a;
    } else {
      assert t == a + [','] + rest[1..];
      IndexOfPrefixFree(a, ',', rest[1..]);
      assert t[..|a|] == a;
    }
  }
}
