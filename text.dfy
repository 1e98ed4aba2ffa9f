/** String helpers standing for the parts of Go's `strings`, `fmt` and
    `strconv` that xplor uses. Strings are sequences of runes. */
module Text {
  import opened Wrappers

  const Tab: char := '\t'
  const Newline: char := '\n'

  /** `strings.Repeat(tab, n)`. */
  function Tabs(n: nat): (s: string)
    ensures |s| == n
    ensures forall i :: 0 <= i < n ==> s[i] == Tab
  {
    if n == 0 then "" else Tabs(n - 1) + [Tab]
  }

  /** Number of tab characters at the front of `s`. */
  function LeadingTabs(s: string): (n: nat)
    ensures n <= |s|
    ensures forall i :: 0 <= i < n ==> s[i] == Tab
    ensures n < |s| ==> s[n] != Tab
  {
    if s != [] && s[0] == Tab then 1 + LeadingTabs(s[1..]) else 0
  }

  /** `strings.TrimLeft(s, tab)`. */
  function TrimLeftTabs(s: string): string
  {
    s[LeadingTabs(s)..]
  }

  lemma {:induction false} TabsThenText(n: nat, s: string)
    requires s == [] || s[0] != Tab
    ensures LeadingTabs(Tabs(n) + s) == n
    ensures TrimLeftTabs(Tabs(n) + s) == s
  {
    if n > 0 {
      var t := Tabs(n) + s;
      assert t[0] == Tab;
      assert t[1..] == Tabs(n - 1) + s;
      TabsThenText(n - 1, s);
    }
  }

  /** Index of the first occurrence of `c` in `s` (`strings.Index` on one rune). */
  function IndexOf(s: string, c: char): (r: Option<nat>)
    ensures r.Some? ==> r.value < |s| && s[r.value] == c
    ensures r.Some? ==> forall i :: 0 <= i < r.value ==> s[i] != c
    ensures r.None? <==> c !in s
  {
    if s == [] then None
    else if s[0] == c then Some(0)
    else match IndexOf(s[1..], c)
      case None => None
      case Some(i) => Some(i + 1)
  }

  lemma IndexOfPrefixFree(a: string, c: char, b: string)
    requires c !in a
    ensures IndexOf(a + [c] + b, c) == Some(|a|)
  {
    if a != [] {
      assert (a + [c] + b)[1..] == a[1..] + [c] + b;
      IndexOfPrefixFree(a[1..], c, b);
    }
  }

  predicate HasPrefix(s: string, p: string)
  {
    |p| <= |s| && s[..|p|] == p
  }

  /** `strings.TrimPrefix`. */
  function TrimPrefix(s: string, p: string): (r: string)
    ensures HasPrefix(s, p) ==> p + r == s
    ensures !HasPrefix(s, p) ==> r == s
  {
    if HasPrefix(s, p) then s[|p|..] else s
  }

  /** `strings.Split(s, string(c))`: always at least one piece. */
  function Split(s: string, c: char): (r: seq<string>)
    ensures |r| >= 1
    ensures forall i :: 0 <= i < |r| ==> c !in r[i]
    decreases |s|
  {
    match IndexOf(s, c)
    case None => [s]
    case Some(i) => [s[..i]] + Split(s[i + 1..], c)
  }

  /** `strings.Join(xs, string(c))`. */
  function JoinWith(xs: seq<string>, c: char): string
  {
    if xs == [] then ""
    else if |xs| == 1 then xs[0]
    else xs[0] + [c] + JoinWith(xs[1..], c)
  }

  /** Splitting undoes joining when no piece holds the separator. */
  lemma {:induction false} SplitJoin(xs: seq<string>, c: char)
    requires |xs| >= 1
    requires forall i :: 0 <= i < |xs| ==> c !in xs[i]
    ensures Split(JoinWith(xs, c), c) == xs
  {
    if |xs| == 1 {
      assert IndexOf(xs[0], c) == None;
    } else {
      var rest := JoinWith(xs[1..], c);
      var t := xs[0] + [c] + rest;
      assert t == JoinWith(xs, c);
      IndexOfPrefixFree(xs[0], c, rest);
      assert t[..|xs[0]|] == xs[0];
      assert t[|xs[0]| + 1..] == rest;
      SplitJoin(xs[1..], c);
      assert Split(t, c) == [xs[0]] + Split(rest, c);
    }
  }

  /** `strings.SplitN(s, string(c), 2)`: the text before the first `c` and the
      text after it, or `[s]` when `c` does not occur. */
  function SplitFirst(s: string, c: char): (r: seq<string>)
    ensures c !in s ==> r == [s]
    ensures c in s ==> |r| == 2 && r[0] + [c] + r[1] == s && c !in r[0]
  {
    match IndexOf(s, c)
    case None => [s]
    case Some(i) =>
      assert s == s[..i] + [c] + s[i + 1..];
      [s[..i], s[i + 1..]]
  }

  // Lines of text. Every line the projector writes ends in a newline.

  /** The bytes a writer receives for a list of lines: each followed by a newline. */
  function Unlines(ls: seq<string>): (t: string)
    ensures ls != [] ==> t != [] && t[|t| - 1] == Newline
  {
    if ls == [] then "" else ls[0] + [Newline] + Unlines(ls[1..])
  }

  /** Cutting text into its lines, as the editor numbers them; a last piece
      with no newline after it still counts as a line. */
  function Lines(t: string): seq<string>
    decreases |t|
  {
    if t == [] then []
    else match IndexOf(t, Newline)
      case None => [t]
      case Some(i) => [t[..i]] + Lines(t[i + 1..])
  }

  /** Appending to text in two steps is appending the two pieces at once. */
  lemma AppendAssoc(a: string, b: string, c: string)
    ensures (a + b) + c == a + (b + c)
  {
  }

  lemma UnlinesPrepend(x: string, ls: seq<string>)
    ensures Unlines([x] + ls) == x + [Newline] + Unlines(ls)
  {
    assert ([x] + ls)[1..] == ls;
  }

  lemma UnlinesAppend(a: seq<string>, b: seq<string>)
    ensures Unlines(a + b) == Unlines(a) + Unlines(b)
  {
    if a != [] {
      assert (a + b)[0] == a[0];
      assert (a + b)[1..] == a[1..] + b;
      UnlinesAppend(a[1..], b);
    } else {
      assert a + b == b;
    }
  }

  /** Cutting the written text into lines gives back the lines written. */
  lemma {:induction false} LinesOfUnlines(ls: seq<string>)
    requires forall i :: 0 <= i < |ls| ==> Newline !in ls[i]
    ensures Lines(Unlines(ls)) == ls
  {
    if ls != [] {
      var rest := Unlines(ls[1..]);
      var t := ls[0] + [Newline] + rest;
      IndexOfPrefixFree(ls[0], Newline, rest);
      assert t[..|ls[0]|] == ls[0];
      assert t[|ls[0]| + 1..] == rest;
      LinesOfUnlines(ls[1..]);
    }
  }

  /** Rejoining the lines of text that ends in a newline gives back the text. */
  lemma {:induction false} UnlinesOfLines(t: string)
    requires t == [] || t[|t| - 1] == Newline
    ensures Unlines(Lines(t)) == t
    decreases |t|
  {
    if t != [] {
      var i := IndexOf(t, Newline).value;
      assert t == t[..i] + [Newline] + t[i + 1..];
      UnlinesOfLines(t[i + 1..]);
    }
  }

  /** The first piece of `SplitFirst` is `s` up to the first separator. */
  lemma SplitFirstHead(s: string, c: char) returns (rest: string)
    ensures s == SplitFirst(s, c)[0] + rest
    ensures rest == "" || rest[0] == c
  {
    var r := SplitFirst(s, c);
    if c in s {
      rest := [c] + r[1];
    } else {
      rest := "";
    }
  }

  // Decimal numerals, for `fmt.Sprintf("#%d", n)`.

  function DigitChar(d: nat): char
    requires d < 10
  {
    "0123456789"[d]
  }

  predicate IsDigit(c: char)
  {
    '0' <= c <= '9'
  }

  /** `fmt.Sprintf("%d", n)` for a non-negative `n`. */
  function Decimal(n: nat): (s: string)
    ensures |s| >= 1
    ensures forall i :: 0 <= i < |s| ==> IsDigit(s[i])
  {
    if n < 10 then [DigitChar(n)] else Decimal(n / 10) + [DigitChar(n % 10)]
  }

  /** The number a string of digits denotes. */
  function DecimalValue(s: string): nat
    requires forall i :: 0 <= i < |s| ==> IsDigit(s[i])
  {
    if s == [] then 0
    else
      assert IsDigit(s[|s| - 1]);
      10 * DecimalValue(s[..|s| - 1]) + ((s[|s| - 1] as int - '0' as int) as nat)
  }

  /** Reading a numeral back gives the number printed. */
  lemma {:induction false} DecimalRoundTrip(n: nat)
    ensures DecimalValue(Decimal(n)) == n
  {
    var s := Decimal(n);
    if n >= 10 {
      DecimalRoundTrip(n / 10);
      assert s[..|s| - 1] == Decimal(n / 10);
      assert DigitChar(n % 10) as int - '0' as int == n % 10;
    } else {
      assert DigitChar(n) as int - '0' as int == n;
    }
  }
}
