/** The handful of Python `str` operations the parser and the validators rely on:
    `strip()`, `strip(chars)`, `lower()`, `startswith`, the `in` operator and
    `replace(pattern, "")`. Strings are sequences of Unicode scalar values, as Python's are. */
module Text {
  import opened Wrappers

  /** The characters Python counts as whitespace in `str.strip()` and in the regular-expression
      class `\s` (the set of `str.isspace`). */
  const Whitespace: set<char> := {
    '\t', '\n', '\U{B}', '\U{C}', '\r', '\U{1C}', '\U{1D}', '\U{1E}', '\U{1F}', ' ',
    '\U{85}', '\U{A0}', '\U{1680}',
    '\U{2000}', '\U{2001}', '\U{2002}', '\U{2003}', '\U{2004}', '\U{2005}', '\U{2006}',
    '\U{2007}', '\U{2008}', '\U{2009}', '\U{200A}',
    '\U{2028}', '\U{2029}', '\U{202F}', '\U{205F}', '\U{3000}'
  }

  /** Membership in Whitespace, written as the ranges it is made of. */
  predicate IsSpace(c: char) {
    ('\t' <= c <= '\r') || ('\U{1C}' <= c <= ' ') || c == '\U{85}' || c == '\U{A0}'
    || c == '\U{1680}' || ('\U{2000}' <= c <= '\U{200A}') || c == '\U{2028}' || c == '\U{2029}'
    || c == '\U{202F}' || c == '\U{205F}' || c == '\U{3000}'
  }

  lemma IsSpaceIsWhitespace(c: char)
    ensures IsSpace(c) <==> c in Whitespace
  {
  }

  /** `s.lstrip(chars)`: drop the longest prefix made of characters in `cs`. */
  function TrimStart(s: string, cs: set<char>): (r: string)
    ensures |r| <= |s| && r == s[|s| - |r|..]
    ensures forall i :: 0 <= i < |s| - |r| ==> s[i] in cs
    ensures r == [] || r[0] !in cs
    decreases |s|
  {
    if |s| > 0 && s[0] in cs then TrimStart(s[1..], cs) else s
  }

  /** `s.rstrip(chars)`: drop the longest suffix made of characters in `cs`. */
  function TrimEnd(s: string, cs: set<char>): (r: string)
    ensures |r| <= |s| && r == s[..|r|]
    ensures forall i :: |r| <= i < |s| ==> s[i] in cs
    ensures r == [] || r[|r| - 1] !in cs
    decreases |s|
  {
    if |s| > 0 && s[|s| - 1] in cs then TrimEnd(s[..|s| - 1], cs) else s
  }

  /** `s.strip(chars)`: the infix of `s` left once every leading and trailing character
      in `cs` is gone. */
  function StripChars(s: string, cs: set<char>): (r: string)
    ensures |r| <= |s|
    ensures r == [] || (r[0] !in cs && r[|r| - 1] !in cs)
  {
    TrimEnd(TrimStart(s, cs), cs)
  }

  /** `s.strip()`: no whitespace is left at either end. */
  function Strip(s: string): (r: string)
    ensures |r| <= |s|
    ensures r == [] || (r[0] !in Whitespace && r[|r| - 1] !in Whitespace)
  {
    StripChars(s, Whitespace)
  }

  /** The result of `strip(chars)` sits inside the input, and everything cut away on either
      side is made of characters in `cs`. */
  lemma StripCharsIsInfix(s: string, cs: set<char>)
    ensures var r := StripChars(s, cs);
            var a := |s| - |TrimStart(s, cs)|;
            a + |r| <= |s| && s[a..a + |r|] == r
            && (forall i :: 0 <= i < a ==> s[i] in cs)
            && (forall i :: a + |r| <= i < |s| ==> s[i] in cs)
  {
    var t := TrimStart(s, cs);
    var r := TrimEnd(t, cs);
    var a := |s| - |t|;
    assert t == s[a..];
    forall i | a + |r| <= i < |s| ensures s[i] in cs {
      assert s[i] == t[i - a];
    }
  }

  /** `strip(chars)` only cuts: every character of the result satisfies whatever every
      character of the input satisfies. */
  lemma StripCharsKeeps(s: string, cs: set<char>, p: char -> bool)
    requires forall k :: 0 <= k < |s| ==> p(s[k])
    ensures forall k :: 0 <= k < |StripChars(s, cs)| ==> p(StripChars(s, cs)[k])
  {
    var r := StripChars(s, cs);
    StripCharsIsInfix(s, cs);
    var a := |s| - |TrimStart(s, cs)|;
    forall k | 0 <= k < |r| ensures p(r[k]) {
      assert r[k] == s[a..a + |r|][k] == s[a + k];
    }
  }

  /** A string with no strippable character at either end is its own strip. */
  lemma StripCharsNoop(s: string, cs: set<char>)
    requires s == [] || (s[0] !in cs && s[|s| - 1] !in cs)
    ensures StripChars(s, cs) == s
  {
  }

  /** Stripping twice is stripping once. */
  lemma StripCharsIdempotent(s: string, cs: set<char>)
    ensures StripChars(StripChars(s, cs), cs) == StripChars(s, cs)
  {
    StripCharsNoop(StripChars(s, cs), cs);
  }

  /** `lower()` restricted to ASCII: `A`..`Z` become `a`..`z`, every other character stays. */
  function LowerChar(c: char): char {
    if 'A' <= c <= 'Z' then (c as int + 32) as char else c
  }

  function Lower(s: string): (r: string)
    ensures |r| == |s|
    ensures forall i :: 0 <= i < |s| ==> r[i] == LowerChar(s[i])
  {
    if s == [] then [] else [LowerChar(s[0])] + Lower(s[1..])
  }

  /** `lower()` leaves no upper-case ASCII letter. */
  lemma LowerHasNoUpper(s: string)
    ensures forall i :: 0 <= i < |Lower(s)| ==> !('A' <= Lower(s)[i] <= 'Z')
  {
    forall i | 0 <= i < |s| ensures !('A' <= LowerChar(s[i]) <= 'Z') {
      if 'A' <= s[i] <= 'Z' {
        assert LowerChar(s[i]) as int == s[i] as int + 32;
      }
    }
  }

  /** `lower()` leaves a string without upper-case ASCII letters as it is. */
  lemma LowerNoop(s: string)
    requires forall i :: 0 <= i < |s| ==> !('A' <= s[i] <= 'Z')
    ensures Lower(s) == s
  {
  }

  /** The first index at or after `i` holding a character of `cs` (`str.find` for one
      character, or the least of several). */
  function FindFirst(s: string, cs: set<char>, i: nat): (r: Option<nat>)
    requires i <= |s|
    ensures r.Some? ==> i <= r.value < |s| && s[r.value] in cs
    ensures r.Some? ==> forall k :: i <= k < r.value ==> s[k] !in cs
    ensures r.None? ==> forall k :: i <= k < |s| ==> s[k] !in cs
    decreases |s| - i
  {
    if i == |s| then None else if s[i] in cs then Some(i) else FindFirst(s, cs, i + 1)
  }

  /** `FindFirst` is pinned down by its ensures: the first hit is the first hit. */
  lemma {:induction false} FindFirstIs(s: string, cs: set<char>, i: nat, j: nat)
    requires i <= j < |s| && s[j] in cs
    requires forall k :: i <= k < j ==> s[k] !in cs
    ensures FindFirst(s, cs, i) == Some(j)
    decreases j - i
  {
    if i < j {
      FindFirstIs(s, cs, i + 1, j);
    }
  }

  predicate StartsWith(s: string, prefix: string) {
    |prefix| <= |s| && s[..|prefix|] == prefix
  }

  /** `pat` occurs in `s` starting at index `i`. */
  predicate OccursAt(s: string, pat: string, i: nat) {
    i + |pat| <= |s| && s[i..i + |pat|] == pat
  }

  /** Python's `pat in s`. */
  function Contains(s: string, pat: string): (b: bool)
    ensures b <==> exists i: nat :: OccursAt(s, pat, i)
    decreases |s|
  {
    if StartsWith(s, pat) then
      assert OccursAt(s, pat, 0);
      true
    else if |s| == 0 then
      false
    else
      var b := Contains(s[1..], pat);
      assert b ==> exists i: nat :: OccursAt(s, pat, i) by {
        if b {
          var k: nat :| OccursAt(s[1..], pat, k);
          assert s[k + 1..k + 1 + |pat|] == s[1..][k..k + |pat|];
          assert OccursAt(s, pat, k + 1);
        }
      }
      assert (exists i: nat :: OccursAt(s, pat, i)) ==> b by {
        if exists i: nat :: OccursAt(s, pat, i) {
          var k: nat :| OccursAt(s, pat, k);
          assert k != 0;
          assert s[1..][k - 1..k - 1 + |pat|] == s[k..k + |pat|];
          assert OccursAt(s[1..], pat, k - 1);
        }
      }
      b
  }

  /** Python's `s.replace(pat, "")`: every non-overlapping occurrence of `pat`, found left to
      right, is deleted. */
  function RemoveAll(s: string, pat: string): (r: string)
    requires |pat| > 0
    ensures |r| <= |s|
    ensures StartsWith(s, pat) ==> |r| <= |s| - |pat|
    ensures s != [] && !StartsWith(s, pat) ==> r != [] && r[0] == s[0]
    decreases |s|
  {
    if |s| == 0 then []
    else if StartsWith(s, pat) then RemoveAll(s[|pat|..], pat)
    else [s[0]] + RemoveAll(s[1..], pat)
  }

  /** A string without the first character of `pat` has no occurrence of it to delete. */
  lemma {:induction false} RemoveAllSkips(a: string, b: string, pat: string)
    requires |pat| > 0
    requires forall i :: 0 <= i < |a| ==> a[i] != pat[0]
    ensures RemoveAll(a + b, pat) == a + RemoveAll(b, pat)
  {
    if a != [] {
      var s := a + b;
      assert s[0] == a[0] && s[1..] == a[1..] + b;
      assert !StartsWith(s, pat) by {
        if |pat| <= |s| { assert s[..|pat|][0] == s[0]; }
      }
      RemoveAllSkips(a[1..], b, pat);
      calc {
        RemoveAll(s, pat);
        [s[0]] + RemoveAll(s[1..], pat);
        [a[0]] + (a[1..] + RemoveAll(b, pat));
        { assert a == [a[0]] + a[1..]; }
        a + RemoveAll(b, pat);
      }
    } else {
      assert a + b == b;
    }
  }

  /** An occurrence of `pat` at the front is deleted whole. */
  lemma RemoveAllLeading(pat: string, s: string)
    requires |pat| > 0
    ensures RemoveAll(pat + s, pat) == RemoveAll(s, pat)
  {
    var t := pat + s;
    assert t[..|pat|] == pat && t[|pat|..] == s;
  }

  /** A string without the first character of `pat` comes back unchanged. */
  lemma RemoveAllAbsent(s: string, pat: string)
    requires |pat| > 0
    requires forall i :: 0 <= i < |s| ==> s[i] != pat[0]
    ensures RemoveAll(s, pat) == s
  {
    RemoveAllSkips(s, [], pat);
    assert s + [] == s;
  }

  /** `replace(pat, "")` only deletes: every character of the result satisfies whatever every
      character of the input satisfies. */
  lemma {:induction false} RemoveAllKeeps(s: string, pat: string, p: char -> bool)
    requires |pat| > 0
    requires forall k :: 0 <= k < |s| ==> p(s[k])
    ensures forall k :: 0 <= k < |RemoveAll(s, pat)| ==> p(RemoveAll(s, pat)[k])
    decreases |s|
  {
    if |s| == 0 {
    } else if StartsWith(s, pat) {
      RemoveAllKeeps(s[|pat|..], pat, p);
    } else {
      RemoveAllKeeps(s[1..], pat, p);
      var tail := RemoveAll(s[1..], pat);
      assert RemoveAll(s, pat) == [s[0]] + tail;
      forall k | 0 <= k < |[s[0]] + tail| ensures p(([s[0]] + tail)[k]) {
        if k > 0 { assert ([s[0]] + tail)[k] == tail[k - 1]; }
      }
    }
  }
}
