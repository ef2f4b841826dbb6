/** Python string primitives the generator relies on, over `string` (a
    sequence of Unicode scalar values): whitespace stripping, prefix and
    substring tests, splitting on and joining with line feeds, and slicing
    that clamps at the end of the string. */
module Text {
  import opened Options

  /** The characters up to the space for which Python's `str.isspace()`
      holds, in code-point order. */
  const AsciiWhitespace: string := "\t\n\U{0b}\U{0c}\r\U{1c}\U{1d}\U{1e}\U{1f} "

  /** The characters above `~` for which `str.isspace()` holds; no printable
      ASCII character is whitespace. */
  const OtherWhitespace: string :=
    "\U{85}\U{a0}\U{1680}\U{2000}\U{2001}\U{2002}\U{2003}\U{2004}\U{2005}\U{2006}\U{2007}\U{2008}\U{2009}\U{200a}\U{2028}\U{2029}\U{202f}\U{205f}\U{3000}"

  /** `c` is one of `cs`. */
  predicate OneOf(c: char, cs: string) {
    |cs| > 0 && (cs[0] == c || OneOf(c, cs[1..]))
  }

  /** Python `c.isspace()`. */
  predicate IsSpace(c: char) {
    if c <= ' ' then OneOf(c, AsciiWhitespace)
    else '~' < c && OneOf(c, OtherWhitespace)
  }

  /** `OneOf` is membership. */
  lemma {:induction false} OneOfMeans(c: char, cs: string)
    ensures OneOf(c, cs) <==> c in cs
  {
    if |cs| > 0 {
      OneOfMeans(c, cs[1..]);
      assert cs == [cs[0]] + cs[1..];
    }
  }

  /** Python's `str.isspace()` on one character: it is one of the whitespace
      characters listed above. The range tests only skip lookups that
      cannot succeed. */
  lemma IsSpaceMeaning(c: char)
    ensures IsSpace(c) <==> c in AsciiWhitespace || c in OtherWhitespace
  {
    OneOfMeans(c, AsciiWhitespace);
    OneOfMeans(c, OtherWhitespace);
    WhitespaceRanges();
  }

  /** The two whitespace tables lie on either side of printable ASCII. */
  lemma WhitespaceRanges()
    ensures forall k :: 0 <= k < |AsciiWhitespace| ==> AsciiWhitespace[k] <= ' '
    ensures forall k :: 0 <= k < |OtherWhitespace| ==> '~' < OtherWhitespace[k]
  {
  }

  /** `s` holds whitespace only. */
  predicate AllSpace(s: string) {
    forall k :: 0 <= k < |s| ==> IsSpace(s[k])
  }

  /** The first index at or after `i` that does not hold whitespace, or `|s|`. */
  function SkipSpace(s: string, i: nat): (j: nat)
    requires i <= |s|
    ensures i <= j <= |s|
    ensures forall k :: i <= k < j ==> IsSpace(s[k])
    ensures j == |s| || !IsSpace(s[j])
    decreases |s| - i
  {
    if i < |s| && IsSpace(s[i]) then SkipSpace(s, i + 1) else i
  }

  /** The end of `s[lo..j]` once trailing whitespace is dropped. */
  function TrimEnd(s: string, lo: nat, j: nat): (e: nat)
    requires lo <= j <= |s|
    ensures lo <= e <= j
    ensures forall k :: e <= k < j ==> IsSpace(s[k])
    ensures e == lo || !IsSpace(s[e - 1])
    decreases j
  {
    if lo < j && IsSpace(s[j - 1]) then TrimEnd(s, lo, j - 1) else j
  }

  /** `r` is the slice of `s` at `i`, and everything of `s` around it is whitespace. */
  predicate SpacesAround(s: string, i: int, r: string) {
    && 0 <= i && i + |r| <= |s|
    && r == s[i..i + |r|]
    && AllSpace(s[..i]) && AllSpace(s[i + |r|..])
  }

  /** Python `str.strip()`: the slice of `s` left once whitespace is removed
      from both ends; it neither starts nor ends with whitespace. */
  function Strip(s: string): (r: string)
    ensures exists i :: SpacesAround(s, i, r)
    ensures |r| == 0 || (!IsSpace(r[0]) && !IsSpace(r[|r| - 1]))
    ensures |r| == 0 <==> AllSpace(s)
  {
    var a := SkipSpace(s, 0);
    var b := TrimEnd(s, a, |s|);
    assert SpacesAround(s, a, s[a..b]);
    s[a..b]
  }

  /** Stripping a string that is already stripped changes nothing. */
  lemma StripIdempotent(s: string)
    ensures Strip(Strip(s)) == Strip(s)
  {
  }

  /** A string that neither starts nor ends with whitespace strips to itself. */
  lemma StripUnchanged(s: string)
    requires |s| > 0 && !IsSpace(s[0]) && !IsSpace(s[|s| - 1])
    ensures Strip(s) == s
  {
  }

  /** Python `s.startswith(p)`. */
  predicate StartsWith(s: string, p: string) {
    |p| <= |s| && s[..|p|] == p
  }

  /** `s.startswith(p)` holds exactly when `s` is `p` followed by something. */
  lemma StartsWithMeaning(s: string, p: string)
    ensures StartsWith(s, p) <==> exists t :: s == p + t
  {
    if StartsWith(s, p) {
      assert s == p + s[|p|..];
    }
    if t :| s == p + t {
      assert s[..|p|] == p;
    }
  }

  /** `p` occurs in `s` starting at index `i`. */
  predicate OccursAt(s: string, p: string, i: int) {
    0 <= i && i + |p| <= |s| && s[i..i + |p|] == p
  }

  /** Python `s.find(p, i)`: the first occurrence of `p` at or after `i`. */
  function IndexFrom(s: string, p: string, i: nat): (r: Option<nat>)
    ensures r.Some? ==> i <= r.value && OccursAt(s, p, r.value)
    ensures r.Some? ==> forall k :: i <= k < r.value ==> !OccursAt(s, p, k)
    ensures r.None? ==> forall k :: i <= k ==> !OccursAt(s, p, k)
    decreases |s| - i
  {
    if i + |p| > |s| then None
    else if OccursAt(s, p, i) then Some(i)
    else IndexFrom(s, p, i + 1)
  }

  /** Python `p in s` for strings. */
  function Contains(s: string, p: string): (b: bool)
    ensures b <==> exists k :: OccursAt(s, p, k)
  {
    IndexFrom(s, p, 0).Some?
  }

  /** A string lacking one of the characters of `p` does not contain `p`. */
  lemma AbsentCharNotContained(s: string, p: string, i: nat)
    requires i < |p| && p[i] !in s
    ensures !Contains(s, p)
  {
    forall k
      ensures !OccursAt(s, p, k)
    {
      if 0 <= k && k + |p| <= |s| {
        assert s[k..k + |p|][i] == s[k + i];
      }
    }
  }

  /** Python `s[:n]`: the first `n` characters, or all of `s` when it is shorter. */
  function Prefix(s: string, n: nat): (r: string)
    ensures |r| == if |s| < n then |s| else n
    ensures StartsWith(s, r)
  {
    if |s| <= n then s else s[..n]
  }

  /** Python `s.split('\n')`: the pieces between line feeds, always at least one. */
  function Split(s: string): (r: seq<string>)
    ensures |r| >= 1
    ensures forall k :: 0 <= k < |r| ==> '\n' !in r[k]
  {
    if |s| == 0 then [""]
    else
      var rest := Split(s[1..]);
      if s[0] == '\n' then [""] + rest
      else [[s[0]] + rest[0]] + rest[1..]
  }

  /** Python `'\n'.join(parts)`: two or more pieces are separated by a line feed. */
  function Join(parts: seq<string>): (r: string)
    ensures |parts| == 0 ==> r == ""
    ensures |parts| >= 2 ==> '\n' in r
  {
    if |parts| == 0 then ""
    else if |parts| == 1 then parts[0]
    else parts[0] + "\n" + Join(parts[1..])
  }

  /** Joining the pieces of a split gives back the original string. */
  lemma {:induction false} JoinSplit(s: string)
    ensures Join(Split(s)) == s
  {
    if |s| > 0 {
      var rest := Split(s[1..]);
      JoinSplit(s[1..]);
      if s[0] == '\n' {
        assert Split(s) == [""] + rest;
        assert (([""] + rest)[1..]) == rest;
        assert Join(Split(s)) == "" + "\n" + Join(rest);
        assert s == [s[0]] + s[1..];
      } else {
        var head := [s[0]] + rest[0];
        assert Split(s) == [head] + rest[1..];
        assert ([head] + rest[1..])[1..] == rest[1..];
        if |rest| == 1 {
          assert Join(Split(s)) == head;
          assert Join(rest) == rest[0];
        } else {
          assert Join(Split(s)) == head + "\n" + Join(rest[1..]);
          assert Join(rest) == rest[0] + "\n" + Join(rest[1..]);
        }
        assert s == [s[0]] + s[1..];
      }
    }
  }

  /** A string without line feeds splits into itself alone. */
  lemma {:induction false} SplitNoNewline(a: string)
    requires '\n' !in a
    ensures Split(a) == [a]
  {
    if |a| > 0 {
      assert '\n' !in a[1..];
      SplitNoNewline(a[1..]);
      assert [a[0]] + a[1..] == a;
    }
  }

  /** Splitting `a + "\n" + b`, where `a` has no line feed, yields `a` then the pieces of `b`. */
  lemma {:induction false} SplitAfterLine(a: string, b: string)
    requires '\n' !in a
    ensures Split(a + "\n" + b) == [a] + Split(b)
  {
    if |a| == 0 {
      assert a + "\n" + b == "\n" + b;
      assert ("\n" + b)[1..] == b;
    } else {
      var s := a + "\n" + b;
      assert s[1..] == a[1..] + "\n" + b;
      assert '\n' !in a[1..];
      SplitAfterLine(a[1..], b);
      assert s[0] == a[0];
      assert [a[0]] + a[1..] == a;
    }
  }

  /** Splitting a join of line-feed-free pieces gives back the pieces. */
  lemma {:induction false} SplitJoin(parts: seq<string>)
    requires |parts| >= 1
    requires forall k :: 0 <= k < |parts| ==> '\n' !in parts[k]
    ensures Split(Join(parts)) == parts
  {
    if |parts| == 1 {
      SplitNoNewline(parts[0]);
    } else {
      SplitJoin(parts[1..]);
      SplitAfterLine(parts[0], Join(parts[1..]));
      assert [parts[0]] + parts[1..] == parts;
    }
  }
}
