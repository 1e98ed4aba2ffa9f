/** One projection line: a one-rune flag, one ASCII space, `depth` tabs, then
    the entry name. Decoding is the string part of `entry`. */
module Codec {
  import opened Text

  /** The file flag is U+2002 (EN SPACE), a rune distinct from the ASCII
      space that separates flag and name. */
  const FlagFile: char := '\U{2002}'
  /** A collapsed directory. */
  const FlagLess: char := '\U{25B8}'
  /** An expanded directory. */
  const FlagMore: char := '\U{25BE}'

  const Space: char := ' '

  predicate IsFlag(c: char)
  {
    c == FlagFile || c == FlagLess || c == FlagMore
  }

  /** `fmt.Fprintf(w, "%s %s%s\n", flag, tabs, name)` without the newline. */
  function EncodeLine(flag: char, depth: nat, name: string): (line: string)
    ensures |line| == 2 + depth + |name|
    ensures line[0] == flag && line[1] == Space
    ensures forall t :: 2 <= t < 2 + depth ==> line[t] == Tab
    ensures line[2 + depth..] == name
  {
    [flag, Space] + Tabs(depth) + name
  }

  datatype Decoded = Decoded(name: string, depth: nat)

  /** The parsing part of `entry`: a line without a space yields ("", 0);
      otherwise the text after the first space, less its leading tabs, is the
      name and the number of those tabs is the depth. */
  function Decode(line: string): (d: Decoded)
    ensures d.name == "" || d.name[0] != Tab
  {
    if Space !in line then Decoded("", 0)
    else
      var rest := SplitFirst(line, Space)[1];
      Decoded(TrimLeftTabs(rest), LeadingTabs(rest))
  }

  /** Where the parts of a decoded line come from: nothing from a line with
      no space; otherwise the name is a suffix of the line and the `depth`
      runes before it are tabs, all after the line's first space. */
  lemma DecodeParts(line: string)
    ensures var d := Decode(line);
      && (Space !in line ==> d == Decoded("", 0))
      && (Space in line ==> d.depth + |d.name| < |line|)
      && (Space in line ==> line[|line| - |d.name|..] == d.name)
      && (Space in line ==>
            forall t :: |line| - |d.name| - d.depth <= t < |line| - |d.name| ==> line[t] == Tab)
      && (Space in line ==>
            var k := |line| - |d.name| - d.depth - 1;
            0 <= k && line[k] == Space && Space !in line[..k])
  {
    if Space in line {
      var r := SplitFirst(line, Space);
      var rest := r[1];
      assert line == r[0] + [Space] + rest;
      assert line[|line| - |rest|..] == rest;
      var n := LeadingTabs(rest);
      assert TrimLeftTabs(rest) == rest[n..];
      forall t | |line| - |rest| <= t < |line| - |rest| + n ensures line[t] == Tab {
        assert line[t] == rest[t - (|line| - |rest|)];
      }
      assert line[..|r[0]|] == r[0];
    }
  }

  /** Decoding an encoded line gives back its name and depth, whatever the
      name holds after its first rune (spaces included), provided the flag is
      not an ASCII space and the name does not begin with a tab. */
  lemma DecodeEncode(flag: char, depth: nat, name: string)
    requires flag != Space
    requires name == "" || name[0] != Tab
    ensures Decode(EncodeLine(flag, depth, name)) == Decoded(name, depth)
  {
    var line := EncodeLine(flag, depth, name);
    assert line == [flag] + [Space] + (Tabs(depth) + name);
    IndexOfPrefixFree([flag], Space, Tabs(depth) + name);
    assert SplitFirst(line, Space)[1] == Tabs(depth) + name;
    TabsThenText(depth, name);
  }

  /** The search pattern `^..\t{k}[^\t]` of `abspath`: any two runes, exactly
      `k` tabs, then a rune that is not a tab. */
  predicate MatchesLevel(line: string, k: nat)
  {
    |line| >= k + 3
    && line[2..2 + k] == Tabs(k)
    && line[2 + k] != Tab
  }

  /** An encoded entry line matches the level-`k` pattern exactly when its
      depth is `k`. */
  lemma MatchesLevelEncoded(flag: char, depth: nat, name: string, k: nat)
    requires name != "" && name[0] != Tab
    ensures MatchesLevel(EncodeLine(flag, depth, name), k) <==> depth == k
  {
    var line := EncodeLine(flag, depth, name);
    assert line == [flag, Space] + Tabs(depth) + name;
    assert line[2 + depth] == name[0];
    if depth == k {
      assert line[2..2 + k] == Tabs(k);
    } else if depth < k {
      if |line| >= k + 3 {
        assert line[2..2 + k][depth] == line[2 + depth];
        assert line[2..2 + k][depth] != Tabs(k)[depth];
      }
    } else {
      assert line[2 + k] == Tab;
    }
  }
}
