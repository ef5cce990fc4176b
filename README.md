# Pootle editor string utilities in Dafny

This project models the three string helpers of Pootle's translation editor
(`pootle/static/js/editor/utils.js`) and proves what they do:

- `normalizeCode(locale)` turns a locale code into the form that
  machine-translation services expect. A missing or empty code comes back as
  it is. Otherwise the first `_` becomes `-`, and the input is cut off at its
  first `@`.
- `escapeUnsafeRegexSymbols(s)` puts a backslash before every character of the
  regular-expression class `[!$&(-+\-.:<-?\[-^{-}]`. Those are the 21 symbols
  `! $ & ( ) * + - . : < = > ? [ \ ] ^ { | }`.
- `makeRegexForMultipleWords(s)` escapes `s`, trims it, turns every run of
  spaces into `|`, and wraps the result in parentheses. The result is an
  alternation of the space-separated words of the trimmed, escaped input.
  When the input's only white space is the space, those are the escaped
  words of `s` itself.

The project has two modules:

- `JsString` (`js_string.dfy`) models the ECMAScript 2015 built-ins these
  functions call, for exactly the arguments they are called with:
  - `indexOf` and `replace` with a one-character string pattern;
  - `slice`;
  - `trim`, over the WhiteSpace and LineTerminator code points of the standard;
  - the global replacement of `/ +/g` by `|`;
  - `Array.prototype.join`.
- `EditorUtils` (`editor_utils.dfy`) holds the three functions and their
  lemmas. `null`/`undefined` is modelled as `None` of an `Option`.

Each function is paired with an independent reference:

- `normalizeCode` is characterised position by position (`KeptLength`, the
  first `_`). That characterisation is proved in both directions.
- `escapeUnsafeRegexSymbols` is paired with `Unescape`. The two are proved to
  be inverse bijections between all strings and the escaped strings
  (`IsEscaped`).
- `makeRegexForMultipleWords` is compared with `Join` of the escaped `Words`
  of the input.

## Model

| member | source | states |
|---|---|---|
| JsString.IndexOf | pootle/static/js/editor/utils.js:16 | the result is -1 exactly when the character does not occur; otherwise it is an index holding the character with no earlier occurrence |
| JsString.ReplaceFirst | pootle/static/js/editor/utils.js:17 | the length is kept; only the position of the first occurrence of the pattern (if any) holds the replacement, and every other position keeps the input's character |
| JsString.Slice | pootle/static/js/editor/utils.js:19 | for in-range arguments the result is the segment `s[start..end]`; it is empty when `end <= start`; it is never longer than `s` |
| JsString.Trim | pootle/static/js/editor/utils.js:53 | the result is a segment of the input with only white space before and after it, and it neither starts nor ends with white space |
| JsString.TrimOfBlank | pootle/static/js/editor/utils.js:45-46 | a string made of white space only trims to the empty string |
| JsString.ReplaceSpaceRuns | pootle/static/js/editor/utils.js:47-48 | no space is left, and the result is no longer than the input |
| JsString.Join | pootle/static/js/editor/utils.js:52-54 | joining nothing gives the empty string; otherwise the length is the total of the parts plus one separator between each pair, and the first part is a prefix |
| EditorUtils.NormalizeCode | pootle/static/js/editor/utils.js:11-22 | `None` and the empty code come back unchanged; a code always gives a code and `None` gives `None`; the result is never longer than the input |
| EditorUtils.NormalizeCodeAt | pootle/static/js/editor/utils.js:16-21 | the result has the length of the part before the first `@`; at each position it holds `-` where the input's first `_` is and the input's character elsewhere |
| EditorUtils.NormalizeCodeIs | pootle/static/js/editor/utils.js:16-21 | conversely, a string with exactly that length and those characters is the result |
| EditorUtils.NormalizeCodeHasNoAt | pootle/static/js/editor/utils.js:18-20 | the result never contains `@` |
| EditorUtils.NormalizeCodeLength | pootle/static/js/editor/utils.js:16-21 | with an `@` the length is the index of the first `@`; without one the length is the input's |
| EditorUtils.NormalizeCodeChangesAtMostOne | pootle/static/js/editor/utils.js:17 | of any two positions of the result, at least one keeps the input's character |
| EditorUtils.NormalizeCodeUnchangedIff | pootle/static/js/editor/utils.js:16-21 | a code comes back unchanged if and only if it contains neither `_` nor `@` |
| EditorUtils.NormalizeCodeIdempotentIff | pootle/static/js/editor/utils.js:17 | normalising twice equals normalising once if and only if the first result has no `_` |
| EditorUtils.NormalizeCodeKeepsUnderscoreIff | pootle/static/js/editor/utils.js:16-20 | the first result holds a `_` if and only if the input has two `_` before its first `@` |
| EditorUtils.NormalizeCodeIdempotentIffInput | pootle/static/js/editor/utils.js:16-20 | normalising twice equals normalising once if and only if at most one `_` comes before the input's first `@` |
| EditorUtils.NormalizeCodeFirstUnderscoreOnly | pootle/static/js/editor/utils.js:17 | `a_b_c` gives `a-b_c`: only the first `_` is replaced |
| EditorUtils.NormalizeCodeNotIdempotent | pootle/static/js/editor/utils.js:17 | normalising `a_b_c` twice gives `a-b-c`, which differs from one pass |
| EditorUtils.NormalizeCodeIgnoresVariant | pootle/static/js/editor/utils.js:16-20 | for a code `s` without `@`, `s@v` gives the same result as `s`, for every variant `v` |
| EditorUtils.NormalizeCodeRegion | pootle/static/js/editor/utils.js:10-22 | `pt_BR` gives `pt-BR` |
| EditorUtils.NormalizeCodeOfRegion | pootle/static/js/editor/utils.js:16-21 | for any language without `_` or `@` and any region without `@`, `lang_region` gives `lang-region` |
| EditorUtils.NormalizeCodeVariant | pootle/static/js/editor/utils.js:16-20 | `sr@latin` gives `sr` |
| EditorUtils.NormalizeCodeRegionAndVariant | pootle/static/js/editor/utils.js:16-20 | `sr_RS@latin` gives `sr-RS` |
| EditorUtils.IsUnsafe | pootle/static/js/editor/utils.js:31-36 | the character class of the replacement, written range by range |
| EditorUtils.Unescape | pootle/static/js/editor/utils.js:36 | the reference inverse of escaping: a backslash pair reads as its second character, any other character as itself; the result is never longer than its argument |
| EditorUtils.UnsafeClassIsDocumentedList | pootle/static/js/editor/utils.js:26-31 | a character is in the regular-expression class if and only if it is in the documented list |
| EditorUtils.DocumentedUnsafeHas21 | pootle/static/js/editor/utils.js:27 | the documented list has 21 pairwise distinct characters |
| EditorUtils.EscapeChar | pootle/static/js/editor/utils.js:36 | what one character becomes is an escaped string that unescapes to that character; by `EscapeUnescape` this is the only such string |
| EditorUtils.EscapeUnsafeRegexSymbols | pootle/static/js/editor/utils.js:33-37 | the output length is the input length plus the number of unsafe characters |
| EditorUtils.EscapeConcat | pootle/static/js/editor/utils.js:36 | escaping distributes over concatenation |
| EditorUtils.EscapeUnchangedIff | pootle/static/js/editor/utils.js:36 | the output equals the input if and only if the input has no unsafe character |
| EditorUtils.EscapeIdempotentIff | pootle/static/js/editor/utils.js:27-36 | escaping twice equals escaping once if and only if there was nothing to escape (the backslash is itself unsafe) |
| EditorUtils.EscapeBackslashAt | pootle/static/js/editor/utils.js:36 | every unsafe character of the input appears in the output directly after a backslash |
| EditorUtils.UnescapeEscape | pootle/static/js/editor/utils.js:36 | unescaping the output gives back the input exactly |
| EditorUtils.EscapeIsEscaped | pootle/static/js/editor/utils.js:36 | every output is an escaped string: each unsafe character sits right after its own backslash |
| EditorUtils.EscapeUnescape | pootle/static/js/editor/utils.js:36 | every escaped string is the output for its unescaping, so escaping is a bijection onto the escaped strings |
| EditorUtils.EscapeCharacters | pootle/static/js/editor/utils.js:36 | the output contains the input's characters and backslashes, and no other character |
| EditorUtils.WhiteSpaceIsSafe | pootle/static/js/editor/utils.js:27-36 | no white space character is unsafe, so escaping leaves white space alone |
| EditorUtils.EscapeDot | pootle/static/js/editor/utils.js:36 | `a.b` becomes `a\.b` |
| EditorUtils.EscapeBackslash | pootle/static/js/editor/utils.js:36 | a lone backslash becomes two backslashes |
| EditorUtils.MakeRegexForMultipleWords | pootle/static/js/editor/utils.js:51-55 | the result starts with `(` and ends with `)`; it is at most two characters longer than the escaped input; its interior contains no space |
| EditorUtils.Words | pootle/static/js/editor/utils.js:47-48 | each word is non-empty and contains no space |
| EditorUtils.RunsAreJoinedWords | pootle/static/js/editor/utils.js:47-48 | on a string that neither starts nor ends with a space, replacing each space run by `|` equals joining its words with `|` |
| EditorUtils.TrimmedRunsAreJoinedWords | pootle/static/js/editor/utils.js:45-48 | when the only white space is the space, trimming and then replacing space runs joins the words with `|` |
| EditorUtils.WordsOfEscape | pootle/static/js/editor/utils.js:53 | the words of the escaped string are the escaped words |
| EditorUtils.EscapeAddsNoWhiteSpace | pootle/static/js/editor/utils.js:36 | every white space character of the output occurs in the input |
| EditorUtils.EscapeKeepsOnlySpaces | pootle/static/js/editor/utils.js:53 | when the input's only white space is the space, so is the output's |
| EditorUtils.MakeRegexIsJoinedTrimmedWords | pootle/static/js/editor/utils.js:51-54 | for every input, the result is `(` + the space-separated words of the trimmed escaped input joined by `|` + `)` |
| EditorUtils.MakeRegexIsJoinedEscapedWords | pootle/static/js/editor/utils.js:40-54 | when the only white space is the space, the result is `(` + the escaped words joined by `|` + `)` |
| EditorUtils.MakeRegexIsJoinedWords | pootle/static/js/editor/utils.js:40-54 | if the input also has no unsafe character, the result is `(` + its words joined by `|` + `)` |
| EditorUtils.MakeRegexOfBlank | pootle/static/js/editor/utils.js:45-53 | empty or all-white-space input gives `()` |
| EditorUtils.MakeRegexOfWord | pootle/static/js/editor/utils.js:51-54 | a single non-empty word with no unsafe character and no white space gives `(` + the word + `)` |
| EditorUtils.MakeRegexOfTwoWords | pootle/static/js/editor/utils.js:47-53 | two words with spaces around and between them give `(` + the first escaped word + `|` + the second escaped word + `)` |

## Left out

- NormalizeCode: the model takes only `None` (`null`/`undefined`) or a string. Lines 12-14 return any falsy value unchanged (`0`, `-0`, `0n`, `false`, `NaN`, `document.all` as well); of those the model covers `null`, `undefined` and `''`.
- EscapeUnsafeRegexSymbols and MakeRegexForMultipleWords: the argument is typed as a string. For `null`, `undefined` or a number the source's `s.replace` (lines 36 and 53) throws a `TypeError` (a number has no `replace` method); that error path is not modelled.
- EditorUtils.MakeRegexIsJoinedEscapedWords, EditorUtils.MakeRegexIsJoinedWords, EditorUtils.TrimmedRunsAreJoinedWords: these are stated only for inputs whose only white space is the plain space. `trim` strips every WhiteSpace and LineTerminator code point from the ends, but `/ +/g` collapses only spaces, so a tab or newline inside the input stays and is not turned into `|`. The general contract of `EditorUtils.MakeRegexForMultipleWords` and `EditorUtils.MakeRegexIsJoinedTrimmedWords` still cover every input.
- JsString.ReplaceFirst and JsString.IndexOf: modelled only in the forms the editor uses, a one-character search string and a one-character replacement without `$`. General patterns and replacement templates are not modelled.
- Regular-expression matching: `makeRegexForMultipleWords` only builds a pattern string. What the pattern matches is not modelled. The `g`-flag replacement at line 36 is modelled by its per-character effect rather than by a regular-expression engine.
- Strings are sequences of Unicode scalar values, not UTF-16 code units. Every character these functions test lies in the Basic Multilingual Plane, so the two views agree for them.
- The note at lines 34-35 that the input is not modified holds by construction: strings are values in the model.
- `pootle/core/initdb.py` is not part of this model. It is install-time seed data made of database calls whose behaviour lives in libraries outside the repository.
- `pootle/static/js/auth/components/SocialVerification.js` and `pootle/static/js/admin/components/User/UserController.js` are not part of this model. They are user-interface components (rendering, dispatch and translation calls).
