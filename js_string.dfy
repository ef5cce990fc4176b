/**
 * The ECMAScript 2015 string and array built-ins that the editor utilities
 * call, restricted to the arguments they are called with: `indexOf` and
 * `replace` with a one-character string pattern, `slice`, `trim`, the global
 * replacement of `/ +/g` by `|`, and `Array.prototype.join`.
 *
 * Strings are sequences of Unicode scalar values; every character these
 * functions look at lies in the Basic Multilingual Plane, where that agrees
 * with the UTF-16 code units of an ECMAScript string.
 */
module JsString {

  /** WhiteSpace (ECMAScript 2015 section 11.2) and LineTerminator (ECMAScript
      2015 section 11.3) code points: the characters `String.prototype.trim` removes. */
  predicate IsWhiteSpace(c: char) {
    || c == '\t' || c == '\U{000B}' || c == '\U{000C}' || c == ' '
    || c == '\U{00A0}' || c == '\U{FEFF}'
    || c == '\U{1680}' || ('\U{2000}' <= c <= '\U{200A}')
    || c == '\U{202F}' || c == '\U{205F}' || c == '\U{3000}'
    || c == '\n' || c == '\r' || c == '\U{2028}' || c == '\U{2029}'
  }

  predicate AllWhiteSpace(s: string) {
    forall i :: 0 <= i < |s| ==> IsWhiteSpace(s[i])
  }

  /** `s.indexOf(c)` (ECMAScript 2015 section 21.1.3.8) for a one-character search string:
      the index of the first `c`, or -1 when there is none. */
  function IndexOf(s: string, c: char): (r: int)
    ensures r == -1 <==> c !in s
    ensures r != -1 ==> 0 <= r < |s| && s[r] == c && c !in s[..r]
  {
    if s == [] then -1
    else if s[0] == c then 0
    else
      var k := IndexOf(s[1..], c);
      assert s[1..][..if k == -1 then 0 else k] == s[1..if k == -1 then 1 else k + 1];
      if k == -1 then -1 else k + 1
  }

  /** The first occurrence is unique, so it determines `IndexOf`. */
  lemma IndexOfFirst(s: string, c: char, k: nat)
    requires k < |s| && s[k] == c
    requires forall j :: 0 <= j < k ==> s[j] != c
    ensures IndexOf(s, c) == k
  {
  }

  /** The first occurrence comes no later than any occurrence. */
  lemma {:induction false} IndexOfAtMost(s: string, c: char, k: nat)
    requires k < |s| && s[k] == c
    ensures 0 <= IndexOf(s, c) <= k
  {
    if s[0] != c {
      assert k > 0 && s[1..][k - 1] == c;
      IndexOfAtMost(s[1..], c, k - 1);
    }
  }

  /** Within `s`, the first occurrence found in `s + y` is the one in `s`. */
  lemma IndexOfPrefix(s: string, y: string, c: char, i: nat)
    requires i < |s|
    ensures i == IndexOf(s + y, c) <==> i == IndexOf(s, c)
  {
    var x := s + y;
    assert forall j :: 0 <= j < |s| ==> x[j] == s[j];
    if c in s {
      IndexOfFirst(x, c, IndexOf(s, c));
    } else {
      assert x[i] == s[i] != c;
    }
  }

  /** `s.replace(pattern, replacement)` (ECMAScript 2015 section 21.1.3.14) where both are
      one-character strings and the replacement holds no `$`: only the first
      occurrence of the pattern is replaced. */
  function ReplaceFirst(s: string, pattern: char, replacement: char): (r: string)
    ensures |r| == |s|
    ensures forall i :: 0 <= i < |s| ==>
      r[i] == if i == IndexOf(s, pattern) then replacement else s[i]
  {
    if s == [] then []
    else if s[0] == pattern then [replacement] + s[1..]
    else [s[0]] + ReplaceFirst(s[1..], pattern, replacement)
  }

  /** The position `slice` takes for the argument `x` (ECMAScript 2015 section 21.1.3.16):
      negative arguments count from the end, and both are clamped to the string. */
  function RelativeIndex(x: int, len: nat): (k: nat)
    ensures k <= len
    ensures 0 <= x <= len ==> k == x
    ensures x < 0 && len + x >= 0 ==> k == len + x
  {
    if x < 0 then (if len + x < 0 then 0 else len + x)
    else if x > len then len
    else x
  }

  /** `s.slice(start, end)` (ECMAScript 2015 section 21.1.3.16). */
  function Slice(s: string, start: int, end: int): (r: string)
    ensures |r| <= |s|
    ensures 0 <= start <= end <= |s| ==> r == s[start..end]
    ensures 0 <= end <= start ==> r == []
  {
    var from, to := RelativeIndex(start, |s|), RelativeIndex(end, |s|);
    if from < to then s[from..to] else []
  }

  /** The number of white space characters at the start of `s`. */
  function LeadingWhiteSpace(s: string): (n: nat)
    ensures n <= |s| && AllWhiteSpace(s[..n])
    ensures n == |s| || !IsWhiteSpace(s[n])
  {
    if s != [] && IsWhiteSpace(s[0]) then
      var k := LeadingWhiteSpace(s[1..]);
      assert s[..k + 1] == [s[0]] + s[1..][..k];
      k + 1
    else 0
  }

  /** The number of white space characters at the end of `s`. */
  function TrailingWhiteSpace(s: string): (n: nat)
    ensures n <= |s| && AllWhiteSpace(s[|s| - n..])
    ensures n == |s| || !IsWhiteSpace(s[|s| - n - 1])
  {
    if s != [] && IsWhiteSpace(s[|s| - 1]) then
      var k := TrailingWhiteSpace(s[..|s| - 1]);
      assert s[|s| - (k + 1)..] == s[..|s| - 1][|s| - 1 - k..] + [s[|s| - 1]];
      k + 1
    else 0
  }

  /** `s.trim()` (ECMAScript 2015 section 21.1.3.25): the segment of `s` left after white space
      is removed from both ends; it neither starts nor ends with white space. */
  function Trim(s: string): (r: string)
    ensures exists i, j ::
              0 <= i <= j <= |s| && r == s[i..j] && AllWhiteSpace(s[..i]) && AllWhiteSpace(s[j..])
    ensures r == [] || (!IsWhiteSpace(r[0]) && !IsWhiteSpace(r[|r| - 1]))
  {
    var i := LeadingWhiteSpace(s);
    if i == |s| then
      assert s[|s|..] == [];
      []
    else
      var j := |s| - TrailingWhiteSpace(s);
      assert i < j by {
        assert !IsWhiteSpace(s[i]);
        assert forall k :: j <= k < |s| ==> IsWhiteSpace(s[k]) by {
          forall k | j <= k < |s| ensures IsWhiteSpace(s[k]) {
            assert s[k] == s[j..][k - j];
          }
        }
      }
      s[i..j]
  }

  /** A string of white space only trims to the empty string. */
  lemma TrimOfBlank(s: string)
    requires AllWhiteSpace(s)
    ensures Trim(s) == []
  {
    LeadingOfBlank(s);
  }

  lemma {:induction false} LeadingOfBlank(s: string)
    requires AllWhiteSpace(s)
    ensures LeadingWhiteSpace(s) == |s|
  {
    if s != [] {
      assert IsWhiteSpace(s[0]);
      LeadingOfBlank(s[1..]);
    }
  }

  predicate AllSpaces(s: string) {
    forall i :: 0 <= i < |s| ==> s[i] == ' '
  }

  /** The run of spaces at the start of `s` removed. */
  function DropSpaces(s: string): (r: string)
    ensures |r| <= |s| && r == s[|s| - |r|..]
    ensures AllSpaces(s[..|s| - |r|])
    ensures r == [] || r[0] != ' '
  {
    if s != [] && s[0] == ' ' then DropSpaces(s[1..]) else s
  }

  /** `s.replace(/ +/g, '|')` (ECMAScript 2015 sections 21.1.3.14 and 21.2.5.8): scanning left
      to right, every maximal run of spaces becomes a single `|`. */
  function ReplaceSpaceRuns(s: string): (r: string)
    ensures ' ' !in r
    ensures |r| <= |s|
    decreases |s|
  {
    if s == [] then []
    else if s[0] == ' ' then "|" + ReplaceSpaceRuns(DropSpaces(s))
    else [s[0]] + ReplaceSpaceRuns(s[1..])
  }

  function TotalLength(parts: seq<string>): nat {
    if parts == [] then 0 else |parts[0]| + TotalLength(parts[1..])
  }

  /** `parts.join(sep)` (ECMAScript 2015 section 22.1.3.12) on an array of strings. */
  function Join(parts: seq<string>, sep: string): (r: string)
    ensures parts == [] ==> r == []
    ensures parts != [] ==> |r| == TotalLength(parts) + (|parts| - 1) * |sep|
    ensures parts != [] ==> parts[0] <= r
  {
    if |parts| == 0 then []
    else if |parts| == 1 then parts[0]
    else parts[0] + sep + Join(parts[1..], sep)
  }
}
