/** The few Python string primitives the quiz pipeline is built from:
    `str.strip()`, `str.upper()`, `str.replace(pat, "")`, `str.find` and
    `str.rfind` on a single character. Strings are `seq<char>`. */
module Text {

  /** The code-point ranges, both ends included, of the characters
      Python's `str.isspace` accepts: what `str.strip()` with no argument
      removes. */
  const SpaceRanges: seq<(char, char)> := [
    ('\t', '\r'), ('\U{1C}', ' '), ('\U{85}', '\U{85}'), ('\U{A0}', '\U{A0}'),
    ('\U{1680}', '\U{1680}'), ('\U{2000}', '\U{200A}'), ('\U{2028}', '\U{2029}'),
    ('\U{202F}', '\U{202F}'), ('\U{205F}', '\U{205F}'), ('\U{3000}', '\U{3000}')
  ]

  /** `c` lies in one of the ranges. */
  predicate InRanges(c: char, ranges: seq<(char, char)>) {
    |ranges| > 0 && ((ranges[0].0 <= c <= ranges[0].1) || InRanges(c, ranges[1..]))
  }

  /** Python's `str.isspace` for one character. */
  predicate IsSpace(c: char) {
    InRanges(c, SpaceRanges)
  }

  /** A character outside every range is not in any of them. */
  lemma {:induction false} OutsideRanges(c: char, ranges: seq<(char, char)>)
    requires forall k :: 0 <= k < |ranges| ==> c < ranges[k].0 || ranges[k].1 < c
    ensures !InRanges(c, ranges)
  {
    if |ranges| > 0 {
      assert forall k :: 0 <= k < |ranges| - 1 ==> ranges[1..][k] == ranges[k + 1];
      OutsideRanges(c, ranges[1..]);
    }
  }

  /** No visible ASCII character is whitespace. */
  lemma VisibleNotSpace(c: char)
    requires '!' <= c <= '~'
    ensures !IsSpace(c)
  {
    OutsideRanges(c, SpaceRanges);
  }

  /** `pat` occurs in `s` at index `i`: it is the infix of `s` that
      starts there. */
  predicate OccursAt(s: string, pat: string, i: int) {
    0 <= i && i + |pat| <= |s| && s[i..i + |pat|] == pat
  }

  /** `pat` occurs somewhere in `s`. */
  ghost predicate Occurs(s: string, pat: string) {
    exists i :: OccursAt(s, pat, i)
  }

  /** The first `n` characters of the suffix of `s` at `i` are the infix
      of `s` at `i` of length `n`. */
  lemma PrefixOfSuffix(s: string, i: nat, n: nat)
    requires i + n <= |s|
    ensures s[i..][..n] == s[i..i + n]
  {
  }

  /** Removes the leading characters of `s` that `drop` accepts. */
  function TrimStart(s: string, drop: char -> bool): (r: string)
    ensures |r| <= |s| && r == s[|s| - |r|..]
  {
    if |s| > 0 && drop(s[0]) then TrimStart(s[1..], drop) else s
  }

  /** Removes the trailing characters of `s` that `drop` accepts. */
  function TrimEnd(s: string, drop: char -> bool): (r: string)
    ensures |r| <= |s| && r == s[..|r|]
  {
    if |s| > 0 && drop(s[|s| - 1]) then TrimEnd(s[..|s| - 1], drop) else s
  }

  /** `TrimStart` removes accepted characters, and stops at the first
      character `drop` refuses. */
  lemma {:induction false} TrimStartCharacterised(s: string, drop: char -> bool)
    ensures forall k :: 0 <= k < |s| - |TrimStart(s, drop)| ==> drop(s[k])
    ensures TrimStart(s, drop) == [] || !drop(TrimStart(s, drop)[0])
    decreases |s|
  {
    if |s| > 0 && drop(s[0]) {
      TrimStartCharacterised(s[1..], drop);
      assert forall k :: 1 <= k < |s| ==> s[k] == s[1..][k - 1];
    }
  }

  /** `TrimEnd` removes accepted characters, and stops at the last
      character `drop` refuses. */
  lemma {:induction false} TrimEndCharacterised(s: string, drop: char -> bool)
    ensures forall k :: |TrimEnd(s, drop)| <= k < |s| ==> drop(s[k])
    ensures TrimEnd(s, drop) == [] || !drop(TrimEnd(s, drop)[|TrimEnd(s, drop)| - 1])
    decreases |s|
  {
    if |s| > 0 && drop(s[|s| - 1]) {
      TrimEndCharacterised(s[..|s| - 1], drop);
      assert forall k :: 0 <= k < |s| - 1 ==> s[k] == s[..|s| - 1][k];
    }
  }

  /** Where the stripped text starts inside `s`. */
  function StripOffset(s: string, drop: char -> bool): nat {
    |s| - |TrimStart(s, drop)|
  }

  /** Python's `s.strip(chars)`, with the characters given by `drop`:
      trailing ones are removed after leading ones, leaving an infix. */
  function StripBy(s: string, drop: char -> bool): (r: string)
    ensures OccursAt(s, r, StripOffset(s, drop))
  {
    var l := TrimStart(s, drop);
    var r := TrimEnd(l, drop);
    PrefixOfSuffix(s, |s| - |l|, |r|);
    r
  }

  /** What `StripBy` keeps neither starts nor ends with an accepted
      character. */
  lemma StripByKeepsEnds(s: string, drop: char -> bool)
    ensures var r := StripBy(s, drop);
      r == [] || (!drop(r[0]) && !drop(r[|r| - 1]))
  {
    var l := TrimStart(s, drop);
    var r := TrimEnd(l, drop);
    assert StripBy(s, drop) == r;
    TrimStartCharacterised(s, drop);
    TrimEndCharacterised(l, drop);
    if r != [] {
      assert r[0] == l[0];
    }
  }

  /** A property of every character of a suffix from position `n` on
      holds of the same characters of the whole string. */
  lemma SuffixTail(s: string, l: string, i: nat, n: nat, drop: char -> bool)
    requires i <= |s| && l == s[i..] && n <= |l|
    requires forall k :: n <= k < |l| ==> drop(l[k])
    ensures forall k :: i + n <= k < |s| ==> drop(s[k])
  {
  }

  /** What `StripBy` removes after the kept infix is all accepted
      characters. */
  lemma StripByRemovesTrailing(s: string, drop: char -> bool)
    ensures forall k :: StripOffset(s, drop) + |StripBy(s, drop)| <= k < |s| ==> drop(s[k])
  {
    var l := TrimStart(s, drop);
    TrimEndCharacterised(l, drop);
    SuffixTail(s, l, |s| - |l|, |TrimEnd(l, drop)|, drop);
  }

  /** Python's `s.strip()`: whitespace is removed at both ends. */
  function Strip(s: string): string {
    StripBy(s, IsSpace)
  }

  /** `strip()` keeps the infix of `s` at `StripOffset(s, IsSpace)`; what
      it removes at both ends is whitespace, and what it keeps neither
      starts nor ends with whitespace. */
  lemma StripCharacterised(s: string)
    ensures OccursAt(s, Strip(s), StripOffset(s, IsSpace))
    ensures var r := Strip(s);
      r == [] || (!IsSpace(r[0]) && !IsSpace(r[|r| - 1]))
    ensures forall k :: 0 <= k < StripOffset(s, IsSpace) ==> IsSpace(s[k])
    ensures forall k :: StripOffset(s, IsSpace) + |Strip(s)| <= k < |s| ==> IsSpace(s[k])
  {
    StripByKeepsEnds(s, IsSpace);
    TrimStartCharacterised(s, IsSpace);
    StripByRemovesTrailing(s, IsSpace);
  }

  /** A string that starts and ends with visible ASCII characters is
      already stripped. */
  lemma StripVisible(s: string)
    requires |s| > 0 && '!' <= s[0] <= '~' && '!' <= s[|s| - 1] <= '~'
    ensures Strip(s) == s
  {
    VisibleNotSpace(s[0]);
    VisibleNotSpace(s[|s| - 1]);
    assert TrimStart(s, IsSpace) == s;
    assert TrimEnd(s, IsSpace) == s;
  }

  /** Stripping twice strips nothing more. */
  lemma StripIdempotent(s: string)
    ensures Strip(Strip(s)) == Strip(s)
  {
    var t := Strip(s);
    StripByKeepsEnds(s, IsSpace);
    assert TrimStart(t, IsSpace) == t;
    assert TrimEnd(t, IsSpace) == t;
  }

  /** Python's `str.upper` on one character, restricted to ASCII: a-z
      become A-Z, every other character is kept. */
  function UpperChar(c: char): (u: char)
    ensures !('a' <= u <= 'z')
    ensures !('a' <= c <= 'z') ==> u == c
    ensures 'a' <= c <= 'z' ==> u as int == c as int - 32
  {
    if 'a' <= c <= 'z' then (c as int - 32) as char else c
  }

  /** Python's `s.upper()` on the ASCII letters: same length, each
      character upper-cased in place. */
  function Upper(s: string): (r: string)
    ensures |r| == |s|
  {
    if |s| == 0 then []
    else [UpperChar(s[0])] + Upper(s[1..])
  }

  /** Each character of `Upper(s)` is the matching character of `s`
      upper-cased. */
  lemma {:induction false} UpperCharacterised(s: string)
    ensures forall k :: 0 <= k < |s| ==> Upper(s)[k] == UpperChar(s[k])
  {
    if |s| > 0 {
      UpperCharacterised(s[1..]);
      assert forall k :: 1 <= k < |s| ==> Upper(s)[k] == Upper(s[1..])[k - 1];
    }
  }

  /** Upper-casing an upper-cased string changes nothing. */
  lemma UpperIdempotent(s: string)
    ensures Upper(Upper(s)) == Upper(s)
  {
  }

  /** Python's `s.replace(pat, "")`: occurrences are found left to right
      and do not overlap; an empty pattern leaves `s` as it is. */
  function RemoveAll(s: string, pat: string): (r: string)
    ensures |r| <= |s|
    ensures forall c :: c in r ==> c in s
    decreases |s|
  {
    if |pat| == 0 || |s| < |pat| then s
    else if s[..|pat|] == pat then RemoveAll(s[|pat|..], pat)
    else [s[0]] + RemoveAll(s[1..], pat)
  }

  /** `replace(pat, "")` deletes whole copies of `pat`: the length drops by
      a multiple of `|pat|`. */
  lemma {:induction false} RemoveAllDropsWholeCopies(s: string, pat: string)
    ensures exists copies: nat :: |s| - |RemoveAll(s, pat)| == copies * |pat|
    decreases |s|
  {
    if |pat| == 0 || |s| < |pat| {
      assert |s| - |RemoveAll(s, pat)| == 0 * |pat|;
    } else {
      var rest := if s[..|pat|] == pat then s[|pat|..] else s[1..];
      RemoveAllDropsWholeCopies(rest, pat);
      var copies: nat :| |rest| - |RemoveAll(rest, pat)| == copies * |pat|;
      if s[..|pat|] == pat {
        assert |s| - |RemoveAll(s, pat)| == (copies + 1) * |pat|;
      } else {
        assert |s| - |RemoveAll(s, pat)| == copies * |pat|;
      }
    }
  }

  /** `replace(pat, "")` keeps the text between the deleted copies: a
      character that is not part of `pat` occurs as often in the result as
      in `s`. */
  lemma {:induction false} RemoveAllKeepsOthers(s: string, pat: string, c: char)
    requires c !in pat
    ensures multiset(RemoveAll(s, pat))[c] == multiset(s)[c]
    decreases |s|
  {
    if |pat| > 0 && |s| >= |pat| {
      if s[..|pat|] == pat {
        RemoveAllKeepsOthers(s[|pat|..], pat, c);
        assert s == pat + s[|pat|..];
        assert multiset(s) == multiset(pat) + multiset(s[|pat|..]);
      } else {
        RemoveAllKeepsOthers(s[1..], pat, c);
        assert s == [s[0]] + s[1..];
        assert multiset(s) == multiset([s[0]]) + multiset(s[1..]);
      }
    }
  }

  /** An occurrence inside a slice is an occurrence in the whole string. */
  lemma OccursInInfix(s: string, pat: string, i: int, j: int, k: int)
    requires 0 <= i <= j <= |s|
    requires OccursAt(s[i..j], pat, k)
    ensures OccursAt(s, pat, i + k)
  {
    forall m | 0 <= m < |pat|
      ensures pat[m] == s[i + k..i + k + |pat|][m]
    {
      assert pat[m] == s[i..j][k + m];
    }
  }

  /** A slice of a string free of `pat` is free of `pat`. */
  lemma NoOccurrenceInInfix(s: string, pat: string, i: int, j: int)
    requires 0 <= i <= j <= |s|
    requires !Occurs(s, pat)
    ensures !Occurs(s[i..j], pat)
  {
    if Occurs(s[i..j], pat) {
      var k :| OccursAt(s[i..j], pat, k);
      OccursInInfix(s, pat, i, j, k);
    }
  }

  /** When `pat` does not occur, `replace(pat, "")` returns the string
      unchanged. */
  lemma {:induction false} RemoveAbsentIsIdentity(s: string, pat: string)
    requires !Occurs(s, pat)
    ensures RemoveAll(s, pat) == s
    decreases |s|
  {
    if |pat| > 0 && |s| >= |pat| {
      assert !OccursAt(s, pat, 0);
      NoOccurrenceInInfix(s, pat, 1, |s|);
      assert s[1..|s|] == s[1..];
      RemoveAbsentIsIdentity(s[1..], pat);
    }
  }

  /** Removing a one-character pattern leaves no copy of that character. */
  lemma {:induction false} RemoveCharGone(s: string, c: char)
    ensures c !in RemoveAll(s, [c])
    decreases |s|
  {
    if |s| < 1 {
    } else if s[..1] == [c] {
      RemoveCharGone(s[1..], c);
    } else {
      assert s[0] != c by { assert s[..1] == [s[0]]; }
      RemoveCharGone(s[1..], c);
    }
  }

  /** Deleting one character distributes over concatenation. */
  lemma {:induction false} RemoveCharConcat(s: string, t: string, c: char)
    ensures RemoveAll(s + t, [c]) == RemoveAll(s, [c]) + RemoveAll(t, [c])
    decreases |s|
  {
    if |s| == 0 {
      assert s + t == t;
    } else {
      assert (s + t)[..1] == s[..1];
      assert (s + t)[1..] == s[1..] + t;
      RemoveCharConcat(s[1..], t, c);
    }
  }

  /** A character absent from `s` does not occur in it as a one-character
      pattern. */
  lemma AbsentCharDoesNotOccur(s: string, c: char)
    requires c !in s
    ensures !Occurs(s, [c])
  {
    forall i | 0 <= i < |s|
      ensures !OccursAt(s, [c], i)
    {
      assert s[i..i + 1] == [s[i]];
    }
  }

  /** Python's `s.find(c)`: the first index holding `c`, or -1. */
  function Find(s: string, c: char): (r: int)
    ensures -1 <= r < |s|
    ensures r == -1 <==> c !in s
    ensures r >= 0 ==> s[r] == c && c !in s[..r]
  {
    if |s| == 0 then -1
    else if s[0] == c then 0
    else
      var k := Find(s[1..], c);
      if k == -1 then -1
      else
        assert s[..k + 1] == [s[0]] + s[1..][..k];
        k + 1
  }

  /** Python's `s.rfind(c)`: the last index holding `c`, or -1. */
  function RFind(s: string, c: char): (r: int)
    ensures -1 <= r < |s|
    ensures r == -1 <==> c !in s
    ensures r >= 0 ==> s[r] == c && c !in s[r + 1..]
  {
    if |s| == 0 then -1
    else if s[|s| - 1] == c then |s| - 1
    else
      var k := RFind(s[..|s| - 1], c);
      if k == -1 then
        assert s == s[..|s| - 1] + [s[|s| - 1]];
        -1
      else
        assert s[k + 1..] == s[..|s| - 1][k + 1..] + [s[|s| - 1]];
        k
  }
}
