/**
 * The string helpers of the translation editor: normalising a locale code for
 * machine-translation services, escaping the characters that are special in
 * a regular expression, and building an alternation pattern out of the words
 * of a search string.
 */
module EditorUtils {
  import opened JsString

  /** A value that may be `null` or `undefined` (`None`). */
  datatype Option<T> = None | Some(value: T)

  // ---------------------------------------------------------------------
  // normalizeCode
  // ---------------------------------------------------------------------

  /** `normalizeCode(locale)`: a missing or empty code comes back as it is;
      otherwise the first `_` becomes `-` and everything from the first `@`
      of the input on is cut off. */
  function NormalizeCode(locale: Option<string>): (r: Option<string>)
    ensures locale == None || locale == Some([]) ==> r == locale
    ensures r.Some? <==> locale.Some?
    ensures r.Some? ==> |r.value| <= |locale.value|
  {
    match locale
    case None => None
    case Some(s) =>
      if s == [] then locale
      else
        var atIndex := IndexOf(s, '@');
        var clean := ReplaceFirst(s, '_', '-');
        Some(if atIndex != -1 then Slice(clean, 0, atIndex) else clean)
  }

  /** The part of a locale code that `NormalizeCode` keeps: everything before
      the first `@`. */
  function KeptLength(s: string): (n: nat)
    ensures n <= |s|
    ensures '@' !in s[..n]
    ensures n == |s| || s[n] == '@'
  {
    if '@' in s then IndexOf(s, '@') else |s|
  }

  /** Position by position: the normalised code is the input up to its first
      `@`, with the first `_` (when it comes before that `@`) turned into `-`. */
  lemma NormalizeCodeAt(s: string)
    ensures NormalizeCode(Some(s)).Some?
    ensures |NormalizeCode(Some(s)).value| == KeptLength(s)
    ensures forall i :: 0 <= i < KeptLength(s) ==>
      NormalizeCode(Some(s)).value[i] == if i == IndexOf(s, '_') then '-' else s[i]
  {
    if s != [] {
      var atIndex := IndexOf(s, '@');
      var clean := ReplaceFirst(s, '_', '-');
      if atIndex != -1 {
        assert Slice(clean, 0, atIndex) == clean[..atIndex];
        assert KeptLength(s) == atIndex;
      } else {
        assert KeptLength(s) == |s|;
      }
    }
  }

  /** The normalised code never holds an `@`. */
  lemma NormalizeCodeHasNoAt(s: string)
    ensures '@' !in NormalizeCode(Some(s)).value
  {
    var t := NormalizeCode(Some(s)).value;
    NormalizeCodeAt(s);
    forall i | 0 <= i < |t| ensures t[i] != '@' {
      assert s[..KeptLength(s)][i] == s[i];
    }
  }

  /** With an `@` the result is as long as the part before the first `@`;
      without one it is as long as the input. */
  lemma NormalizeCodeLength(s: string)
    ensures '@' in s ==> |NormalizeCode(Some(s)).value| == IndexOf(s, '@')
    ensures '@' !in s ==> |NormalizeCode(Some(s)).value| == |s|
  {
    NormalizeCodeAt(s);
  }

  /** At most one character is changed: of any two kept positions, at least
      one holds the input's character. */
  lemma NormalizeCodeChangesAtMostOne(s: string, i: nat, j: nat)
    requires i < j < |NormalizeCode(Some(s)).value|
    ensures NormalizeCode(Some(s)).value[i] == s[i] || NormalizeCode(Some(s)).value[j] == s[j]
  {
    NormalizeCodeAt(s);
  }

  /** A code is left exactly as it is if and only if it holds neither `_` nor `@`. */
  lemma NormalizeCodeUnchangedIff(s: string)
    ensures NormalizeCode(Some(s)) == Some(s) <==> '_' !in s && '@' !in s
  {
    NormalizeCodeAt(s);
    var t := NormalizeCode(Some(s)).value;
    if '@' !in s && '_' in s {
      var k := IndexOf(s, '_');
      assert t[k] == '-' != s[k];
    }
    if '@' !in s && '_' !in s {
      assert t == s;
    }
  }

  /** Normalising twice gives the same code as normalising once exactly when
      the first result holds no `_`, that is, when at most one `_` comes
      before the first `@` of the input. */
  lemma NormalizeCodeIdempotentIff(s: string)
    ensures NormalizeCode(NormalizeCode(Some(s))) == NormalizeCode(Some(s))
        <==> '_' !in NormalizeCode(Some(s)).value
  {
    var t := NormalizeCode(Some(s)).value;
    NormalizeCodeHasNoAt(s);
    NormalizeCodeUnchangedIff(t);
  }

  /** Two `_` come before the first `@` of the code. */
  predicate TwoUnderscoresKept(s: string) {
    exists i, j :: 0 <= i < j < KeptLength(s) && s[i] == '_' && s[j] == '_'
  }

  /** The first result holds a `_` exactly when the input has two of them
      before its first `@`. */
  lemma NormalizeCodeKeepsUnderscoreIff(s: string)
    ensures '_' in NormalizeCode(Some(s)).value <==> TwoUnderscoresKept(s)
  {
    NormalizeCodeAt(s);
    var t := NormalizeCode(Some(s)).value;
    var f := IndexOf(s, '_');
    if '_' in t {
      var k :| 0 <= k < |t| && t[k] == '_';
      assert k != f && s[k] == '_';
      IndexOfAtMost(s, '_', k);
      assert s[f] == '_';
    }
    if TwoUnderscoresKept(s) {
      var i, j :| 0 <= i < j < KeptLength(s) && s[i] == '_' && s[j] == '_';
      IndexOfAtMost(s, '_', i);
      assert t[j] == '_';
    }
  }

  /** Stated on the input: a second pass changes nothing exactly when at most
      one `_` comes before the first `@`. */
  lemma NormalizeCodeIdempotentIffInput(s: string)
    ensures NormalizeCode(NormalizeCode(Some(s))) == NormalizeCode(Some(s))
        <==> !TwoUnderscoresKept(s)
  {
    NormalizeCodeIdempotentIff(s);
    NormalizeCodeKeepsUnderscoreIff(s);
  }

  /** Conversely, a string with that length and those characters is the
      normalised code. */
  lemma NormalizeCodeIs(s: string, expected: string)
    requires |expected| == KeptLength(s)
    requires forall i :: 0 <= i < |expected| ==>
      expected[i] == if i == IndexOf(s, '_') then '-' else s[i]
    ensures NormalizeCode(Some(s)) == Some(expected)
  {
    NormalizeCodeAt(s);
    assert NormalizeCode(Some(s)).value == expected;
  }

  /** Only the first `_` is replaced: `a_b_c` becomes `a-b_c`. */
  lemma NormalizeCodeFirstUnderscoreOnly()
    ensures NormalizeCode(Some("a_b_c")) == Some("a-b_c")
  {
    var s := "a_b_c";
    IndexOfFirst(s, '_', 1);
    assert KeptLength(s) == 5;
    NormalizeCodeIs(s, "a-b_c");
  }

  lemma NormalizeCodeSecondPass()
    ensures NormalizeCode(Some("a-b_c")) == Some("a-b-c")
  {
    var t := "a-b_c";
    IndexOfFirst(t, '_', 3);
    assert KeptLength(t) == 5;
    NormalizeCodeIs(t, "a-b-c");
  }

  /** So a second pass changes `a-b_c` again: the function is not idempotent. */
  lemma NormalizeCodeNotIdempotent()
    ensures NormalizeCode(NormalizeCode(Some("a_b_c"))) == Some("a-b-c")
  {
    NormalizeCodeFirstUnderscoreOnly();
    NormalizeCodeSecondPass();
  }

  /** Typical locale codes. */
  lemma NormalizeCodeRegion()
    ensures NormalizeCode(Some("pt_BR")) == Some("pt-BR")
  {
    var s := "pt_BR";
    IndexOfFirst(s, '_', 2);
    assert KeptLength(s) == 5;
    NormalizeCodeIs(s, "pt-BR");
  }

  lemma VariantSplit(s: string, v: string)
    requires '@' !in s
    ensures KeptLength(s + "@" + v) == |s| == KeptLength(s)
    ensures forall j :: 0 <= j < |s| ==> (s + "@" + v)[j] == s[j]
  {
    var x := s + "@" + v;
    assert forall j :: 0 <= j < |s| ==> x[j] == s[j];
    assert x[|s|] == '@';
    IndexOfFirst(x, '@', |s|);
  }

  /** Everything from the first `@` on is ignored. */
  lemma NormalizeCodeIgnoresVariant(s: string, v: string)
    requires '@' !in s
    ensures NormalizeCode(Some(s + "@" + v)) == NormalizeCode(Some(s))
  {
    var x := s + "@" + v;
    assert x == s + ("@" + v);
    VariantSplit(s, v);
    NormalizeCodeAt(s);
    var t := NormalizeCode(Some(s)).value;
    forall i | 0 <= i < |t|
      ensures t[i] == if i == IndexOf(x, '_') then '-' else x[i]
    {
      IndexOfPrefix(s, "@" + v, '_', i);
    }
    NormalizeCodeIs(x, t);
  }

  /** A language and a region joined by `_` come back joined by `-`. */
  lemma NormalizeCodeOfRegion(lang: string, region: string)
    requires '_' !in lang && '@' !in lang && '@' !in region
    ensures NormalizeCode(Some(lang + "_" + region)) == Some(lang + "-" + region)
  {
    var s, t := lang + "_" + region, lang + "-" + region;
    assert forall j :: 0 <= j < |lang| ==> s[j] == lang[j];
    assert s[|lang|] == '_';
    IndexOfFirst(s, '_', |lang|);
    assert '@' !in s by {
      assert forall j :: |lang| < j < |s| ==> s[j] == region[j - |lang| - 1];
    }
    NormalizeCodeIs(s, t);
  }

  lemma NormalizeCodeVariant()
    ensures NormalizeCode(Some("sr@latin")) == Some("sr")
  {
    var code, variant := "sr", "latin";
    assert code + "@" + variant == "sr@latin" by {
      assert code + "@" + variant == ['s', 'r', '@', 'l', 'a', 't', 'i', 'n'];
    }
    NormalizeCodeUnchangedIff(code);
    NormalizeCodeIgnoresVariant(code, variant);
  }

  lemma NormalizeCodeRegionAndVariant()
    ensures NormalizeCode(Some("sr_RS@latin")) == Some("sr-RS")
  {
    var code, variant := "sr_RS", "latin";
    assert code + "@" + variant == "sr_RS@latin" by {
      assert code + "@" + variant == ['s', 'r', '_', 'R', 'S', '@', 'l', 'a', 't', 'i', 'n'];
    }
    assert code == "sr" + "_" + "RS" && "sr" + "-" + "RS" == "sr-RS";
    NormalizeCodeOfRegion("sr", "RS");
    NormalizeCodeIgnoresVariant(code, variant);
  }

  // ---------------------------------------------------------------------
  // escapeUnsafeRegexSymbols
  // ---------------------------------------------------------------------

  /** The regular expression class `[!$&(-+\-.:<-?\[-^{-}]`, range by range. */
  predicate IsUnsafe(c: char) {
    || c == '!' || c == '$' || c == '&'
    || ('(' <= c <= '+')
    || c == '-' || c == '.' || c == ':'
    || ('<' <= c <= '?')
    || ('[' <= c <= '^')
    || ('{' <= c <= '}')
  }

  /** The symbols listed as unsafe in the documentation of the function, in
      the order given there (which is increasing code point order). */
  const DocumentedUnsafe: string := "!$&()*+-.:<=>?[\\]^{|}"

  /** The character class and the documented list hold the same characters. */
  lemma UnsafeClassIsDocumentedList(c: char)
    ensures IsUnsafe(c) <==> c in DocumentedUnsafe
  {
  }

  /** The documented list names 21 distinct characters. */
  lemma DocumentedUnsafeHas21()
    ensures |DocumentedUnsafe| == 21
    ensures forall i, j :: 0 <= i < j < |DocumentedUnsafe| ==> DocumentedUnsafe[i] != DocumentedUnsafe[j]
  {
    assert forall i :: 0 <= i < 20 ==> DocumentedUnsafe[i] < DocumentedUnsafe[i + 1];
    IncreasingIsDistinct(DocumentedUnsafe);
  }

  lemma {:induction false} IncreasingIsDistinct(s: string)
    requires forall i :: 0 <= i < |s| - 1 ==> s[i] < s[i + 1]
    ensures forall i, j :: 0 <= i < j < |s| ==> s[i] < s[j]
  {
    if |s| > 1 {
      var t := s[1..];
      assert forall i :: 0 <= i < |t| - 1 ==> t[i] < t[i + 1] by {
        assert forall i :: 0 <= i < |t| ==> t[i] == s[i + 1];
      }
      IncreasingIsDistinct(t);
      assert forall j :: 1 <= j < |s| ==> s[j] == t[j - 1];
      assert forall j :: 1 <= j < |t| ==> t[0] < t[j];
    }
  }

  predicate HasNoUnsafe(s: string) {
    forall i :: 0 <= i < |s| ==> !IsUnsafe(s[i])
  }

  function CountUnsafe(s: string): (n: nat)
    ensures n <= |s|
  {
    if s == [] then 0 else (if IsUnsafe(s[0]) then 1 else 0) + CountUnsafe(s[1..])
  }

  /** One character of the output of `s.replace(/…/g, '\\$&')`: `$&` stands
      for the matched character. */
  function EscapeChar(c: char): (r: string)
    ensures IsEscaped(r) && Unescape(r) == [c]
  {
    if IsUnsafe(c) then ['\\', c] else [c]
  }

  /** `escapeUnsafeRegexSymbols(s)`: every unsafe character gets a backslash in
      front of it; the `g` flag makes that happen for each of them. */
  function EscapeUnsafeRegexSymbols(s: string): (r: string)
    ensures |r| == |s| + CountUnsafe(s)
  {
    if s == [] then [] else EscapeChar(s[0]) + EscapeUnsafeRegexSymbols(s[1..])
  }

  /** Escaping works character by character, so it distributes over concatenation. */
  lemma {:induction false} EscapeConcat(a: string, b: string)
    ensures EscapeUnsafeRegexSymbols(a + b)
         == EscapeUnsafeRegexSymbols(a) + EscapeUnsafeRegexSymbols(b)
  {
    if a == [] {
      assert a + b == b;
    } else {
      assert (a + b)[1..] == a[1..] + b;
      EscapeConcat(a[1..], b);
    }
  }

  /** A string comes back unchanged if and only if it has no unsafe character. */
  lemma {:induction false} EscapeUnchangedIff(s: string)
    ensures EscapeUnsafeRegexSymbols(s) == s <==> HasNoUnsafe(s)
  {
    if s != [] {
      EscapeUnchangedIff(s[1..]);
      if HasNoUnsafe(s) {
        assert HasNoUnsafe(s[1..]) by {
          forall i | 0 <= i < |s[1..]| ensures !IsUnsafe(s[1..][i]) {
            assert s[1..][i] == s[i + 1];
          }
        }
      } else if CountUnsafe(s) == 0 {
        var i :| 0 <= i < |s| && IsUnsafe(s[i]);
        CountUnsafeAt(s, i);
      }
    }
  }

  lemma {:induction false} CountUnsafeAt(s: string, i: nat)
    requires i < |s| && IsUnsafe(s[i])
    ensures CountUnsafe(s) > 0
  {
    if i > 0 {
      assert s[1..][i - 1] == s[i];
      CountUnsafeAt(s[1..], i - 1);
    }
  }

  /** Because the backslash is itself unsafe, escaping twice differs from
      escaping once unless there was nothing to escape. */
  lemma EscapeIdempotentIff(s: string)
    ensures EscapeUnsafeRegexSymbols(EscapeUnsafeRegexSymbols(s)) == EscapeUnsafeRegexSymbols(s)
        <==> HasNoUnsafe(s)
  {
    var t := EscapeUnsafeRegexSymbols(s);
    EscapeUnchangedIff(s);
    EscapeUnchangedIff(t);
    if !HasNoUnsafe(s) {
      var i :| 0 <= i < |s| && IsUnsafe(s[i]);
      CountUnsafeAt(s, i);
      assert !HasNoUnsafe(t) by {
        var k := EscapeBackslashAt(s, i);
        CountUnsafeAt(t, k);
      }
    }
  }

  /** Where an unsafe character of the input lands in the output, a backslash
      stands just before it. */
  lemma {:induction false} EscapeBackslashAt(s: string, i: nat) returns (k: nat)
    requires i < |s| && IsUnsafe(s[i])
    ensures k + 1 < |EscapeUnsafeRegexSymbols(s)|
    ensures EscapeUnsafeRegexSymbols(s)[k] == '\\'
    ensures EscapeUnsafeRegexSymbols(s)[k + 1] == s[i]
  {
    if i == 0 {
      k := 0;
    } else {
      assert s[1..][i - 1] == s[i];
      var k' := EscapeBackslashAt(s[1..], i - 1);
      k := |EscapeChar(s[0])| + k';
    }
  }

  /** Reads a string in escape pairs: a backslash followed by a character
      stands for that character; any other character stands for itself. */
  function Unescape(t: string): (r: string)
    ensures |r| <= |t|
    decreases |t|
  {
    if t == [] then []
    else if t[0] == '\\' && |t| >= 2 then [t[1]] + Unescape(t[2..])
    else [t[0]] + Unescape(t[1..])
  }

  /** Unescaping the output recovers the input exactly. */
  lemma {:induction false} UnescapeEscape(s: string)
    ensures Unescape(EscapeUnsafeRegexSymbols(s)) == s
  {
    if s != [] {
      var rest := EscapeUnsafeRegexSymbols(s[1..]);
      UnescapeEscape(s[1..]);
      if IsUnsafe(s[0]) {
        assert (['\\', s[0]] + rest)[2..] == rest;
      } else {
        assert ([s[0]] + rest)[1..] == rest;
        assert s[0] != '\\';
      }
    }
  }

  /** The strings escaping can produce: unsafe characters only ever appear
      right after a backslash that belongs to them. */
  predicate IsEscaped(t: string)
    decreases |t|
  {
    if t == [] then true
    else if t[0] == '\\' then |t| >= 2 && IsUnsafe(t[1]) && IsEscaped(t[2..])
    else !IsUnsafe(t[0]) && IsEscaped(t[1..])
  }

  lemma {:induction false} EscapeIsEscaped(s: string)
    ensures IsEscaped(EscapeUnsafeRegexSymbols(s))
  {
    if s != [] {
      var rest := EscapeUnsafeRegexSymbols(s[1..]);
      EscapeIsEscaped(s[1..]);
      if IsUnsafe(s[0]) {
        assert (['\\', s[0]] + rest)[2..] == rest;
      } else {
        assert ([s[0]] + rest)[1..] == rest;
      }
    }
  }

  /** Conversely every escaped string is the escaping of its unescaping, so
      escaping is a bijection between all strings and the escaped ones. */
  lemma {:induction false} EscapeUnescape(t: string)
    requires IsEscaped(t)
    ensures EscapeUnsafeRegexSymbols(Unescape(t)) == t
    decreases |t|
  {
    if t != [] {
      if t[0] == '\\' {
        EscapeUnescape(t[2..]);
        assert t == [t[0], t[1]] + t[2..];
      } else {
        EscapeUnescape(t[1..]);
        assert t == [t[0]] + t[1..];
      }
    }
  }

  /** Escaping adds backslashes and nothing else. */
  lemma {:induction false} EscapeCharacters(s: string, c: char)
    ensures c in EscapeUnsafeRegexSymbols(s) ==> c in s || c == '\\'
    ensures c in s ==> c in EscapeUnsafeRegexSymbols(s)
  {
    if s != [] {
      EscapeCharacters(s[1..], c);
      assert s == [s[0]] + s[1..];
    }
  }

  /** White space is never unsafe. */
  lemma WhiteSpaceIsSafe(c: char)
    requires IsWhiteSpace(c)
    ensures !IsUnsafe(c)
  {
  }

  // ---------------------------------------------------------------------
  // makeRegexForMultipleWords
  // ---------------------------------------------------------------------

  /** `makeRegexForMultipleWords(s)`: escape, trim, turn each run of spaces
      into `|`, and put the result between parentheses. */
  function MakeRegexForMultipleWords(s: string): (r: string)
    ensures |r| >= 2 && r[0] == '(' && r[|r| - 1] == ')'
    ensures |r| <= |EscapeUnsafeRegexSymbols(s)| + 2
    ensures ' ' !in r[1..|r| - 1]
  {
    var inner := ReplaceSpaceRuns(Trim(EscapeUnsafeRegexSymbols(s)));
    JoinOfThree("(", inner, ")");
    Join(["(", inner, ")"], "")
  }

  lemma JoinOfThree(a: string, b: string, c: string)
    ensures Join([a, b, c], "") == a + b + c
  {
    assert [b, c][1..] == [c];
    assert Join([b, c], "") == b + "" + c;
    assert [a, b, c][1..] == [b, c];
    assert Join([a, b, c], "") == a + "" + (b + "" + c);
  }

  /** The first word of `s`: its non-space characters up to the first space. */
  function TakeWord(s: string): (w: string)
    ensures w <= s && ' ' !in w
    ensures |w| == |s| || s[|w|] == ' '
  {
    if s == [] || s[0] == ' ' then [] else [s[0]] + TakeWord(s[1..])
  }

  /** The non-empty words of `s`, in order, where words are separated by spaces. */
  function Words(s: string): (ws: seq<string>)
    ensures forall i :: 0 <= i < |ws| ==> ws[i] != [] && ' ' !in ws[i]
    decreases |s|
  {
    if s == [] then []
    else if s[0] == ' ' then Words(s[1..])
    else [TakeWord(s)] + Words(s[|TakeWord(s)|..])
  }

  function EscapeAll(ws: seq<string>): (r: seq<string>)
    ensures |r| == |ws|
    ensures forall i :: 0 <= i < |ws| ==> r[i] == EscapeUnsafeRegexSymbols(ws[i])
  {
    if ws == [] then [] else [EscapeUnsafeRegexSymbols(ws[0])] + EscapeAll(ws[1..])
  }

  /** Strings whose only white space characters are plain spaces. */
  predicate OnlySpacesAsWhiteSpace(s: string) {
    forall c :: c in s && IsWhiteSpace(c) ==> c == ' '
  }

  lemma {:induction false} TakeWordOfConcat(a: string, b: string)
    requires ' ' !in a
    requires b == [] || b[0] == ' '
    ensures TakeWord(a + b) == a
  {
    if a == [] {
      assert a + b == b;
    } else {
      assert (a + b)[1..] == a[1..] + b;
      TakeWordOfConcat(a[1..], b);
    }
  }

  lemma {:induction false} RunsOfWord(w: string, x: string)
    requires ' ' !in w
    ensures ReplaceSpaceRuns(w + x) == w + ReplaceSpaceRuns(x)
  {
    if w == [] {
      assert w + x == x;
    } else {
      var wx := w + x;
      assert wx[0] == w[0] != ' ';
      assert wx[1..] == w[1..] + x;
      assert ' ' !in w[1..] by {
        assert w == [w[0]] + w[1..];
      }
      RunsOfWord(w[1..], x);
      calc {
        ReplaceSpaceRuns(wx);
        [w[0]] + ReplaceSpaceRuns(w[1..] + x);
        [w[0]] + (w[1..] + ReplaceSpaceRuns(x));
        { assert w == [w[0]] + w[1..]; }
        w + ReplaceSpaceRuns(x);
      }
    }
  }

  lemma {:induction false} WordsOfDropSpaces(x: string)
    ensures Words(x) == Words(DropSpaces(x))
    decreases |x|
  {
    if x != [] && x[0] == ' ' {
      WordsOfDropSpaces(x[1..]);
    }
  }

  lemma {:induction false} WordsOfAllSpaces(x: string)
    requires AllSpaces(x)
    ensures Words(x) == []
    decreases |x|
  {
    if x != [] {
      WordsOfAllSpaces(x[1..]);
    }
  }

  lemma {:induction false} WordsLeadingSpaces(a: string, x: string)
    requires AllSpaces(a)
    ensures Words(a + x) == Words(x)
    decreases |a|
  {
    if a == [] {
      assert a + x == x;
    } else {
      assert (a + x)[1..] == a[1..] + x;
      WordsLeadingSpaces(a[1..], x);
    }
  }

  lemma {:induction false} WordsTrailingSpaces(x: string, b: string)
    requires AllSpaces(b)
    ensures Words(x + b) == Words(x)
    decreases |x|
  {
    if x == [] {
      assert x + b == b;
      WordsOfAllSpaces(b);
    } else if x[0] == ' ' {
      assert (x + b)[1..] == x[1..] + b;
      WordsTrailingSpaces(x[1..], b);
    } else {
      var w := TakeWord(x);
      var rest := x[|w|..];
      assert x == w + rest;
      if rest == [] {
        assert x + b == w + b;
        TakeWordOfConcat(w, b);
        assert (x + b)[|w|..] == b;
        WordsOfAllSpaces(b);
      } else {
        assert x + b == w + (rest + b);
        TakeWordOfConcat(w, rest + b);
        assert (x + b)[|w|..] == rest + b;
        TakeWordOfConcat(w, rest);
        WordsTrailingSpaces(rest, b);
      }
    }
  }

  /** On a string that neither starts nor ends with a space, replacing each
      run of spaces by `|` is joining its words with `|`. */
  lemma {:induction false} RunsAreJoinedWords(u: string)
    requires u == [] || (u[0] != ' ' && u[|u| - 1] != ' ')
    ensures ReplaceSpaceRuns(u) == Join(Words(u), "|")
    decreases |u|
  {
    if u != [] {
      var w := TakeWord(u);
      var rest := u[|w|..];
      WordsOfWord(u);
      assert u == w + rest;
      RunsOfWord(w, rest);
      if rest == [] {
        assert Words(u) == [w];
        assert ReplaceSpaceRuns(u) == w by {
          assert w + [] == w;
        }
      } else {
        var rest' := DropSpaces(rest);
        DropSpacesKeepsLast(rest);
        RunsOfSpaces(rest);
        WordsOfDropSpaces(rest);
        WordsOfWord(rest');
        RunsAreJoinedWords(rest');
        JoinCons(w, Words(rest'), "|");
        ConcatAssoc(w, "|", Join(Words(rest'), "|"));
      }
    }
  }

  lemma ConcatAssoc(a: string, b: string, c: string)
    ensures a + (b + c) == a + b + c
  {
  }

  lemma SplitAt(t: string, i: nat, j: nat)
    requires i <= j <= |t|
    ensures t == t[..i] + (t[i..j] + t[j..])
  {
  }

  lemma WordsOfWord(u: string)
    requires u != [] && u[0] != ' '
    ensures Words(u) == [TakeWord(u)] + Words(u[|TakeWord(u)|..])
    ensures Words(u) != []
  {
  }

  lemma RunsOfSpaces(x: string)
    requires x != [] && x[0] == ' '
    ensures ReplaceSpaceRuns(x) == "|" + ReplaceSpaceRuns(DropSpaces(x))
  {
  }

  lemma {:induction false} DropSpacesKeepsLast(x: string)
    requires x != [] && x[|x| - 1] != ' '
    ensures DropSpaces(x) != [] && DropSpaces(x)[0] != ' '
    ensures DropSpaces(x)[|DropSpaces(x)| - 1] == x[|x| - 1]
    decreases |x|
  {
    if x[0] == ' ' {
      assert |x| > 1 && x[1..][|x| - 2] == x[|x| - 1];
      DropSpacesKeepsLast(x[1..]);
    }
  }

  lemma JoinCons(w: string, ws: seq<string>, sep: string)
    requires ws != []
    ensures Join([w] + ws, sep) == w + sep + Join(ws, sep)
  {
    assert ([w] + ws)[1..] == ws;
  }

  lemma WhiteSpaceIsSpaces(t: string, part: string)
    requires OnlySpacesAsWhiteSpace(t) && AllWhiteSpace(part)
    requires forall c :: c in part ==> c in t
    ensures AllSpaces(part)
  {
    forall k | 0 <= k < |part| ensures part[k] == ' ' {
      assert part[k] in part;
    }
  }

  /** When the only white space is the plain space, trimming and then
      replacing space runs joins the words with `|`. */
  lemma TrimmedRunsAreJoinedWords(t: string)
    requires OnlySpacesAsWhiteSpace(t)
    ensures ReplaceSpaceRuns(Trim(t)) == Join(Words(t), "|")
  {
    var m := Trim(t);
    var i, j :| 0 <= i <= j <= |t| && m == t[i..j] && AllWhiteSpace(t[..i]) && AllWhiteSpace(t[j..]);
    WhiteSpaceIsSpaces(t, t[..i]);
    WhiteSpaceIsSpaces(t, t[j..]);
    WordsOfMiddle(t, i, j);
    assert IsWhiteSpace(' ');
    RunsAreJoinedWords(m);
  }

  /** Runs of spaces at either end do not change the words. */
  lemma WordsOfMiddle(t: string, i: nat, j: nat)
    requires i <= j <= |t| && AllSpaces(t[..i]) && AllSpaces(t[j..])
    ensures Words(t) == Words(t[i..j])
  {
    SplitAt(t, i, j);
    WordsLeadingSpaces(t[..i], t[i..j] + t[j..]);
    WordsTrailingSpaces(t[i..j], t[j..]);
  }

  /** The words of an escaped string are the escaped words. */
  lemma {:induction false} WordsOfEscape(s: string)
    ensures Words(EscapeUnsafeRegexSymbols(s)) == EscapeAll(Words(s))
    decreases |s|
  {
    var e := EscapeUnsafeRegexSymbols(s);
    if s == [] {
    } else if s[0] == ' ' {
      WordsOfEscape(s[1..]);
    } else {
      var w := TakeWord(s);
      var rest := s[|w|..];
      assert s == w + rest;
      EscapeConcat(w, rest);
      var ew, er := EscapeUnsafeRegexSymbols(w), EscapeUnsafeRegexSymbols(rest);
      assert ' ' !in ew by {
        EscapeCharacters(w, ' ');
      }
      assert er == [] || er[0] == ' ' by {
        if rest != [] {
          assert rest[0] == ' ';
        }
      }
      TakeWordOfConcat(ew, er);
      assert ew != [] && e[0] == ew[0];
      assert e[|ew|..] == er;
      WordsOfEscape(rest);
      assert Words(s) == [w] + Words(rest);
      assert ([w] + Words(rest))[1..] == Words(rest);
    }
  }

  /** Escaping adds no white space: every white space character of the output
      is one of the input. */
  lemma EscapeAddsNoWhiteSpace(s: string)
    ensures forall c :: IsWhiteSpace(c) && c in EscapeUnsafeRegexSymbols(s) ==> c in s
  {
    forall c | IsWhiteSpace(c) && c in EscapeUnsafeRegexSymbols(s) ensures c in s {
      EscapeCharacters(s, c);
    }
  }

  /** So when the input's only white space is the space, so is the output's. */
  lemma EscapeKeepsOnlySpaces(s: string)
    requires OnlySpacesAsWhiteSpace(s)
    ensures OnlySpacesAsWhiteSpace(EscapeUnsafeRegexSymbols(s))
  {
    EscapeAddsNoWhiteSpace(s);
  }

  /** For every input, the pattern is the words of the trimmed escaped input
      joined by `|`, between parentheses; the words are separated by spaces
      only, so other inner white space stays inside a word. */
  lemma MakeRegexIsJoinedTrimmedWords(s: string)
    ensures MakeRegexForMultipleWords(s)
         == "(" + Join(Words(Trim(EscapeUnsafeRegexSymbols(s))), "|") + ")"
  {
    var m := Trim(EscapeUnsafeRegexSymbols(s));
    assert IsWhiteSpace(' ');
    RunsAreJoinedWords(m);
    JoinOfThree("(", ReplaceSpaceRuns(m), ")");
  }

  /** When the only white space is the plain space, the pattern is the escaped
      words of the input joined by `|`, between parentheses. */
  lemma MakeRegexIsJoinedEscapedWords(s: string)
    requires OnlySpacesAsWhiteSpace(s)
    ensures MakeRegexForMultipleWords(s) == "(" + Join(EscapeAll(Words(s)), "|") + ")"
  {
    var e := EscapeUnsafeRegexSymbols(s);
    EscapeKeepsOnlySpaces(s);
    TrimmedRunsAreJoinedWords(e);
    WordsOfEscape(s);
    JoinOfThree("(", ReplaceSpaceRuns(Trim(e)), ")");
  }

  /** With no unsafe characters either, the pattern is the words themselves. */
  lemma MakeRegexIsJoinedWords(s: string)
    requires OnlySpacesAsWhiteSpace(s) && HasNoUnsafe(s)
    ensures MakeRegexForMultipleWords(s) == "(" + Join(Words(s), "|") + ")"
  {
    EscapeUnchangedIff(s);
    TrimmedRunsAreJoinedWords(s);
    JoinOfThree("(", ReplaceSpaceRuns(Trim(s)), ")");
  }

  /** Input made of white space only gives the empty group. */
  lemma MakeRegexOfBlank(s: string)
    requires AllWhiteSpace(s)
    ensures MakeRegexForMultipleWords(s) == "()"
  {
    forall i | 0 <= i < |s| ensures !IsUnsafe(s[i]) {
      WhiteSpaceIsSafe(s[i]);
    }
    EscapeUnchangedIff(s);
    TrimOfBlank(s);
    MakeRegexOfNothing(s);
  }

  lemma MakeRegexOfNothing(s: string)
    requires Trim(EscapeUnsafeRegexSymbols(s)) == []
    ensures MakeRegexForMultipleWords(s) == "()"
  {
    JoinOfThree("(", [], ")");
    assert "(" + [] + ")" == "()";
  }

  /** A single safe word is simply put between parentheses. */
  lemma MakeRegexOfWord(w: string)
    requires w != [] && HasNoUnsafe(w) && NoWhiteSpace(w)
    ensures MakeRegexForMultipleWords(w) == "(" + w + ")"
  {
    EscapeUnchangedIff(w);
    var m := Trim(w);
    var i, j :| 0 <= i <= j <= |w| && m == w[i..j] && AllWhiteSpace(w[..i]) && AllWhiteSpace(w[j..]);
    assert m == w;
    assert ' ' !in w;
    RunsOfWord(w, []);
    assert w + [] == w;
    JoinOfThree("(", ReplaceSpaceRuns(m), ")");
  }

  lemma WordsOfWordThenSpaces(w: string, spaces: string, x: string)
    requires w != [] && ' ' !in w
    requires spaces != [] && AllSpaces(spaces)
    ensures Words(w + spaces + x) == [w] + Words(x)
  {
    var u := w + spaces + x;
    assert u == w + (spaces + x);
    TakeWordOfConcat(w, spaces + x);
    WordsOfWord(u);
    assert u[|w|..] == spaces + x;
    WordsLeadingSpaces(spaces, x);
  }

  lemma EscapeOne(c: char)
    ensures EscapeUnsafeRegexSymbols([c]) == EscapeChar(c)
  {
    assert [c][1..] == [];
  }

  lemma EscapeDot()
    ensures EscapeUnsafeRegexSymbols("a.b") == "a\\.b"
  {
    assert "a.b" == ['a'] + ['.'] + ['b'];
    EscapeConcat(['a'] + ['.'], ['b']);
    EscapeConcat(['a'], ['.']);
    EscapeOne('a');
    EscapeOne('.');
    EscapeOne('b');
  }

  lemma EscapeBackslash()
    ensures EscapeUnsafeRegexSymbols("\\") == "\\\\"
  {
    EscapeOne('\\');
  }

  predicate NoWhiteSpace(s: string) {
    forall i :: 0 <= i < |s| ==> !IsWhiteSpace(s[i])
  }

  lemma OnlySpacesOfParts(a: string, w1: string, b: string, w2: string, c: string)
    requires AllSpaces(a) && AllSpaces(b) && AllSpaces(c)
    requires NoWhiteSpace(w1) && NoWhiteSpace(w2)
    ensures OnlySpacesAsWhiteSpace(a + w1 + b + w2 + c)
  {
    var s := a + w1 + b + w2 + c;
    forall ch | ch in s && IsWhiteSpace(ch) ensures ch == ' ' {
      var i :| 0 <= i < |s| && s[i] == ch;
      assert ch in a || ch in w1 || ch in b || ch in w2 || ch in c;
    }
  }

  lemma WordsOfSingle(w: string)
    requires w != [] && ' ' !in w
    ensures Words(w) == [w]
  {
    TakeWordOfConcat(w, []);
    assert w + [] == w;
    WordsOfWord(w);
  }

  /** Two words with runs of spaces around and between them. */
  lemma WordsOfTwo(a: string, w1: string, b: string, w2: string, c: string)
    requires AllSpaces(a) && AllSpaces(b) && AllSpaces(c) && b != []
    requires w1 != [] && w2 != [] && ' ' !in w1 && ' ' !in w2
    ensures Words(a + w1 + b + w2 + c) == [w1, w2]
  {
    assert a + w1 + b + w2 + c == a + (w1 + b + (w2 + c));
    WordsLeadingSpaces(a, w1 + b + (w2 + c));
    WordsOfWordSpacesWord(w1, b, w2, c);
  }

  lemma WordsOfWordSpacesWord(w1: string, b: string, w2: string, c: string)
    requires AllSpaces(b) && AllSpaces(c) && b != []
    requires w1 != [] && w2 != [] && ' ' !in w1 && ' ' !in w2
    ensures Words(w1 + b + (w2 + c)) == [w1, w2]
  {
    WordsOfWordThenSpaces(w1, b, w2 + c);
    WordsTrailingSpaces(w2, c);
    WordsOfSingle(w2);
  }

  lemma NoWhiteSpaceHasNoSpace(w: string)
    requires NoWhiteSpace(w)
    ensures ' ' !in w
  {
    assert IsWhiteSpace(' ');
  }

  /** Two words, in any surrounding spaces, give the alternation of the two
      escaped words. */
  lemma MakeRegexOfTwoWords(a: string, w1: string, b: string, w2: string, c: string)
    requires AllSpaces(a) && AllSpaces(b) && AllSpaces(c) && b != []
    requires w1 != [] && w2 != [] && NoWhiteSpace(w1) && NoWhiteSpace(w2)
    ensures MakeRegexForMultipleWords(a + w1 + b + w2 + c)
         == "(" + (EscapeUnsafeRegexSymbols(w1) + "|" + EscapeUnsafeRegexSymbols(w2)) + ")"
  {
    var s := a + w1 + b + w2 + c;
    WordsOfTwoWords(a, w1, b, w2, c);
    OnlySpacesOfParts(a, w1, b, w2, c);
    MakeRegexIsJoinedEscapedWords(s);
    JoinOfTwoEscaped(w1, w2);
  }

  lemma WordsOfTwoWords(a: string, w1: string, b: string, w2: string, c: string)
    requires AllSpaces(a) && AllSpaces(b) && AllSpaces(c) && b != []
    requires w1 != [] && w2 != [] && NoWhiteSpace(w1) && NoWhiteSpace(w2)
    ensures Words(a + w1 + b + w2 + c) == [w1, w2]
  {
    NoWhiteSpaceHasNoSpace(w1);
    NoWhiteSpaceHasNoSpace(w2);
    WordsOfTwo(a, w1, b, w2, c);
  }

  lemma JoinOfTwoEscaped(w1: string, w2: string)
    ensures "(" + Join(EscapeAll([w1, w2]), "|") + ")"
         == "(" + (EscapeUnsafeRegexSymbols(w1) + "|" + EscapeUnsafeRegexSymbols(w2)) + ")"
  {
    var e1, e2 := EscapeUnsafeRegexSymbols(w1), EscapeUnsafeRegexSymbols(w2);
    assert EscapeAll([w1, w2]) == [e1] + [e2];
    JoinCons(e1, [e2], "|");
  }
}
