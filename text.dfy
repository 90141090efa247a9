/**
 * The parts of Python's `str` that the summary sanitiser and the UI client
 * rely on: `strip()`, `splitlines()`, `"\n".join(...)` and `replace(pat, "")`.
 * Strings are sequences of `char`, which in Dafny are Unicode scalar values.
 */
module PyText {

  /** `c.isspace()`: exactly the characters `str.strip()` removes. */
  predicate IsWhitespace(c: char) {
    || c == ' '
    || '\t' <= c <= '\r'
    || '\U{1C}' <= c <= '\U{1F}'
    || c == '\U{85}' || c == '\U{A0}' || c == '\U{1680}'
    || '\U{2000}' <= c <= '\U{200A}'
    || c == '\U{2028}' || c == '\U{2029}' || c == '\U{202F}' || c == '\U{205F}' || c == '\U{3000}'
  }

  /** The line boundaries of `str.splitlines()`; the pair "\r\n" is one boundary (see SplitLines). */
  predicate IsLineBreak(c: char) {
    || '\n' <= c <= '\r'
    || '\U{1C}' <= c <= '\U{1E}'
    || c == '\U{85}' || c == '\U{2028}' || c == '\U{2029}'
  }

  predicate AllWhitespace(s: string) {
    forall k | 0 <= k < |s| :: IsWhitespace(s[k])
  }

  predicate NoLineBreak(s: string) {
    forall c | c in s :: !IsLineBreak(c)
  }

  /** `r` is `s` with a run of whitespace cut from each end. */
  ghost predicate StrippedFrom(r: string, s: string) {
    exists i, j | 0 <= i <= j <= |s| :: r == s[i..j] && AllWhitespace(s[..i]) && AllWhitespace(s[j..])
  }

  // ---------------------------------------------------------------- strip

  /** The number of whitespace characters `s` starts with. */
  function LeadingSpace(s: string): (n: nat)
    ensures n <= |s| && AllWhitespace(s[..n])
    ensures n < |s| ==> !IsWhitespace(s[n])
  {
    if s == [] || !IsWhitespace(s[0]) then 0
    else
      var m := LeadingSpace(s[1..]);
      assert forall k | 1 <= k < 1 + m :: s[k] == s[1..][..m][k - 1];
      1 + m
  }

  /** The length of `s` once its trailing whitespace is cut off. */
  function TrailingStart(s: string): (n: nat)
    ensures n <= |s| && AllWhitespace(s[n..])
    ensures 0 < n ==> !IsWhitespace(s[n - 1])
  {
    if s == [] || !IsWhitespace(s[|s| - 1]) then |s|
    else
      var m := TrailingStart(s[..|s| - 1]);
      assert forall k | m <= k < |s| - 1 :: s[k] == s[..|s| - 1][m..][k - m];
      m
  }

  /**
   * `s.strip()`: `s` without its leading and trailing whitespace. The result is
   * empty exactly when `s` is all whitespace, and otherwise starts and ends
   * with a non-whitespace character.
   */
  function Strip(s: string): (r: string)
    ensures StrippedFrom(r, s)
    ensures forall c | c in r :: c in s
    ensures r == [] <==> AllWhitespace(s)
    ensures r != [] ==> !IsWhitespace(r[0]) && !IsWhitespace(r[|r| - 1])
  {
    var i := LeadingSpace(s);
    var t := s[i..];
    var j := TrailingStart(t);
    assert t[..j] == s[i..i + j];
    assert s[i + j..] == t[j..];
    t[..j]
  }

  /** Text with no whitespace at either end is its own `strip()`. */
  lemma StripNoPadding(s: string)
    requires s != [] ==> !IsWhitespace(s[0]) && !IsWhitespace(s[|s| - 1])
    ensures Strip(s) == s
  {
  }

  // ---------------------------------------------------------- splitlines

  /** The index of the first line break in `s`, or `|s|` when there is none. */
  function FirstBreak(s: string): (i: nat)
    ensures i <= |s| && NoLineBreak(s[..i])
    ensures i < |s| ==> IsLineBreak(s[i])
  {
    if s == [] || IsLineBreak(s[0]) then 0
    else
      var m := FirstBreak(s[1..]);
      assert forall k | 1 <= k < 1 + m :: s[k] == s[1..][..m][k - 1];
      1 + m
  }

  /** A break preceded by none is the first break. */
  lemma {:induction false} FirstBreakAt(s: string, n: nat)
    requires n < |s| && IsLineBreak(s[n]) && NoLineBreak(s[..n])
    ensures FirstBreak(s) == n
  {
    if n > 0 {
      assert s[0] in s[..n];
      assert s[1..][..n - 1] == s[1..n];
      assert forall c | c in s[1..n] :: c in s[..n];
      FirstBreakAt(s[1..], n - 1);
    }
  }

  /**
   * `s.splitlines()`: the lines of `s` without their boundaries. An empty `s`
   * has no lines and a final boundary does not open an empty last line.
   * No line holds a line break, and every character of a line comes from `s`.
   */
  function SplitLines(s: string): (ls: seq<string>)
    ensures forall l | l in ls :: NoLineBreak(l)
    ensures forall l, c | l in ls && c in l :: c in s
    decreases |s|
  {
    if s == [] then []
    else
      var i := FirstBreak(s);
      if i == |s| then [s]
      else
        var w := if s[i] == '\r' && i + 1 < |s| && s[i + 1] == '\n' then 2 else 1;
        var rest := SplitLines(s[i + w..]);
        assert forall c | c in s[i + w..] :: c in s;
        assert forall c | c in s[..i] :: c in s;
        [s[..i]] + rest
  }

  /** A line followed by "\n" is split off as the first line. */
  lemma SplitLinesCons(l: string, rest: string)
    requires NoLineBreak(l)
    ensures SplitLines(l + "\n" + rest) == [l] + SplitLines(rest)
  {
    var s := l + "\n" + rest;
    assert s[..|l|] == l && s[|l| + 1..] == rest;
    FirstBreakAt(s, |l|);
  }

  /** `"\n".join(ls)`: every character is a newline or comes from one of the lines. */
  function JoinLines(ls: seq<string>): (s: string)
    ensures forall c | c in s :: c == '\n' || exists l | l in ls :: c in l
  {
    if ls == [] then []
    else if |ls| == 1 then ls[0]
    else
      var rest := JoinLines(ls[1..]);
      assert forall l | l in ls[1..] :: l in ls;
      ls[0] + "\n" + rest
  }

  /** Splitting a join of non-empty, break-free lines gives the lines back. */
  lemma {:induction false} SplitJoinLines(ls: seq<string>)
    requires forall l | l in ls :: l != [] && NoLineBreak(l)
    ensures SplitLines(JoinLines(ls)) == ls
  {
    if |ls| == 1 {
      assert ls[0] in ls;
      assert FirstBreak(ls[0]) == |ls[0]|;
    } else if |ls| > 1 {
      assert ls[0] in ls;
      assert forall l | l in ls[1..] :: l in ls;
      SplitLinesCons(ls[0], JoinLines(ls[1..]));
      SplitJoinLines(ls[1..]);
    }
  }

  // ------------------------------------------------------------- replace

  /** `s.startswith(pat)`. */
  predicate StartsWith(s: string, pat: string) {
    |pat| <= |s| && s[..|pat|] == pat
  }

  /**
   * `s.replace(pat, "")`: the occurrences of `pat` found scanning left to right,
   * without overlap, are deleted. No character is added; deleting a single
   * character removes every copy of it.
   */
  function RemoveAll(s: string, pat: string): (r: string)
    requires pat != []
    ensures |r| <= |s|
    ensures forall c | c in r :: c in s
    ensures |pat| == 1 ==> pat[0] !in r
    decreases |s|
  {
    if |s| < |pat| then s
    else if StartsWith(s, pat) then
      var r := RemoveAll(s[|pat|..], pat);
      assert forall c | c in s[|pat|..] :: c in s;
      r
    else
      var r := RemoveAll(s[1..], pat);
      assert forall c | c in s[1..] :: c in s;
      [s[0]] + r
  }

  /** Deleting one character keeps every other character, each as often as before. */
  lemma {:induction false} RemoveCharKeepsOthers(s: string, c: char, d: char)
    requires d != c
    ensures multiset(RemoveAll(s, [c]))[d] == multiset(s)[d]
    decreases |s|
  {
    if |s| >= 1 {
      assert s == [s[0]] + s[1..];
      RemoveCharKeepsOthers(s[1..], c, d);
    }
  }

  /** Text in which `pat` does not occur is returned unchanged. */
  lemma {:induction false} RemoveAllAbsent(s: string, pat: string)
    requires pat != []
    requires forall i | 0 <= i <= |s| :: !StartsWith(s[i..], pat)
    ensures RemoveAll(s, pat) == s
    decreases |s|
  {
    if |s| >= |pat| {
      assert s[0..] == s;
      forall i | 0 <= i <= |s[1..]|
        ensures !StartsWith(s[1..][i..], pat)
      {
        assert s[1..][i..] == s[i + 1..];
      }
      RemoveAllAbsent(s[1..], pat);
    }
  }

  /** An occurrence at the very start is deleted. */
  lemma RemoveAllLeading(pat: string, t: string)
    requires pat != []
    ensures RemoveAll(pat + t, pat) == RemoveAll(t, pat)
  {
    assert (pat + t)[..|pat|] == pat && (pat + t)[|pat|..] == t;
  }

  /** Text without the first character of `pat` is returned unchanged. */
  lemma RemoveAllUntouched(s: string, pat: string)
    requires pat != [] && pat[0] !in s
    ensures RemoveAll(s, pat) == s
  {
    assert s + [] == s;
    RemoveAllSkip(s, [], pat);
  }

  /** Deleting a character that does not occur changes nothing. */
  lemma {:induction false} RemoveCharAbsent(s: string, c: char)
    requires c !in s
    ensures RemoveAll(s, [c]) == s
    decreases |s|
  {
    if s != [] {
      assert s == [s[0]] + s[1..];
      RemoveCharAbsent(s[1..], c);
    }
  }

  /** Deleting a single character works piece by piece. */
  lemma {:induction false} RemoveCharConcat(a: string, b: string, c: char)
    ensures RemoveAll(a + b, [c]) == RemoveAll(a, [c]) + RemoveAll(b, [c])
    decreases |a|
  {
    if a == [] {
      assert a + b == b;
    } else {
      assert (a + b)[1..] == a[1..] + b;
      RemoveCharConcat(a[1..], b, c);
    }
  }

  /** A stretch without the first character of `pat` is kept as it is. */
  lemma {:induction false} RemoveAllSkip(a: string, b: string, pat: string)
    requires pat != [] && pat[0] !in a
    ensures RemoveAll(a + b, pat) == a + RemoveAll(b, pat)
    decreases |a|
  {
    if a != [] {
      var s := a + b;
      assert s[1..] == a[1..] + b;
      assert a == [a[0]] + a[1..];
      assert s[0] == a[0] && a[0] in a;
      RemoveAllSkip(a[1..], b, pat);
      if |s| >= |pat| {
        assert s[..|pat|][0] != pat[0];
        assert RemoveAll(s, pat) == [a[0]] + RemoveAll(s[1..], pat);
      } else {
        assert RemoveAll(b, pat) == b;
      }
    } else {
      assert a + b == b;
    }
  }
}
