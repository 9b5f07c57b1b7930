# String normalisation helpers of `src/common/utils.js`

This project is a Dafny model of two helpers of `src/common/utils.js` that
strip whitespace from strings:

- `trim(str)` is `str.replace(/(^\s+)|(\s+$)/g, '')`. It drops the run of
  whitespace at the start of the string and the run at its end. The pattern
  has no `m` flag, so `^` and `$` anchor only at the two ends of the whole
  string, and whitespace inside the text (line breaks included) stays.
- `trimAll(str)` is `trim(str).replace(/\s/g, '')`. It deletes every
  whitespace character.

Both are pure and are modelled as Dafny functions over `string` in module
`Utils` (`utils.dfy`). Module `UtilsScenarios` (`utils_scenarios.dfy`) works
through a few concrete inputs.

JavaScript's `\s` is the union of the WhiteSpace and LineTerminator
productions of ECMA-262 (sections 12.2 and 12.3 in recent editions):

- TAB, VT, FF, ZWNBSP (U+FEFF) and the Unicode category Zs: U+0020, U+00A0,
  U+1680, U+2000 to U+200A, U+202F, U+205F and U+3000;
- LF, CR, U+2028 and U+2029.

`IsWs` states exactly this set.

The regular expressions are modelled by their effect, not by a regex engine:

- `LeadingWs` and `TrailingWs` measure the two outer runs of whitespace.
- `Trim` is the slice between those runs.
- `RemoveWs` filters out whitespace.
- As an independent reference for `trim`, `MatchAt` gives the length of the
  match of `(^\s+)|(\s+$)` that starts at a given index.
- `RegexStripScan` performs the global replace as a left-to-right scan: it
  drops each match and resumes the search after it.
- `TrimIsRegexReplace` proves that the scan computes `Trim`.

## Model

| member | source | states |
|---|---|---|
| Utils.IsWs | src/common/utils.js:10-19 | the `\s` class: exactly the ECMA-262 WhiteSpace characters (TAB, VT, FF, U+FEFF, category Zs) and LineTerminator characters (LF, CR, U+2028, U+2029); each one is a single UTF-16 code unit, in the Basic Multilingual Plane and outside the surrogate range |
| Utils.LeadingWs | src/common/utils.js:10 | the length of what `^\s+` removes is at most the length of the string |
| Utils.TrailingWs | src/common/utils.js:10 | the length of the longest whitespace suffix, which the second alternative `\s+$` matches whenever the string is not all whitespace, is at most the length of the string |
| Utils.LeadingWsMaximal | src/common/utils.js:10 | the run `^\s+` removes is whitespace and is maximal: the next character, if any, is not whitespace |
| Utils.TrailingWsMaximal | src/common/utils.js:10 | the longest whitespace suffix is whitespace and is maximal: the character before it, if any, is not whitespace |
| Utils.LeadingWsOf | src/common/utils.js:10 | a whitespace prefix followed by a non-whitespace character (or by nothing) is exactly the leading run |
| Utils.TrailingWsOf | src/common/utils.js:10 | a whitespace suffix preceded by a non-whitespace character (or by nothing) is exactly the trailing run |
| Utils.Trim | src/common/utils.js:8-11 | `trim` never lengthens its input, and its result neither starts nor ends with whitespace |
| Utils.TrimIsSlice | src/common/utils.js:10 | the result is one contiguous slice `s[p..q]` of the input, where `p` is the end of the leading whitespace run, and everything cut away before `p` and after `q` is whitespace, so interior characters, spaces and line breaks are kept |
| Utils.TrimUnique | src/common/utils.js:10 | converse of TrimIsSlice: whitespace + a core with no outer whitespace + whitespace trims to exactly that core, so TrimIsSlice and TrimUnique together determine `trim` |
| Utils.TrimIdempotent | src/common/utils.js:10 | `trim(trim(s)) == trim(s)` |
| Utils.TrimKeepsTrimmed | src/common/utils.js:8-11 | a string whose first and last characters are not whitespace, or the empty string, is returned unchanged |
| Utils.TrimEmptyIffAllWs | src/common/utils.js:8-11 | `trim(s)` is "" if and only if `s` is whitespace only (or empty) |
| Utils.MatchAt | src/common/utils.js:10 | a match of the `trim` pattern, starting at any index, never runs past the end of the string |
| Utils.RegexStripScan | src/common/utils.js:10 | the global replace from a given index: the output is never longer than what remains of the input; TrimIsRegexReplace proves that from index 0 it equals `Trim` |
| Utils.ScanAfterStart | src/common/utils.js:10 | from any index after the first, the global replace keeps every character up to the trailing whitespace run and drops that run |
| Utils.TrimIsRegexReplace | src/common/utils.js:10 | the global replace, scanned left to right with matches dropped, computes exactly `Trim` |
| Utils.RemoveWs | src/common/utils.js:19 | the `/\s/g` replace never lengthens its input |
| Utils.RemoveWsNoWs | src/common/utils.js:19 | no whitespace character survives `/\s/g` |
| Utils.RemoveWsAppend | src/common/utils.js:19 | deleting whitespace distributes over concatenation, so the kept characters keep their original relative order |
| Utils.RemoveWsCounts | src/common/utils.js:19 | every non-whitespace character occurs in the result exactly as often as in the input; whitespace does not occur |
| Utils.RemoveWsOfAllWs | src/common/utils.js:19 | a whitespace-only string becomes "" |
| Utils.RemoveWsOfNoWs | src/common/utils.js:19 | a string without whitespace is unchanged |
| Utils.TrimAll | src/common/utils.js:17-20 | `trimAll` never lengthens its input and its result contains no whitespace |
| Utils.TrimAllIsRemoveWs | src/common/utils.js:17-20 | `trimAll(s)` equals deleting all whitespace from `s` directly, so the leading `trim` call makes no difference |
| Utils.TrimAllIdempotent | src/common/utils.js:19 | `trimAll(trimAll(s)) == trimAll(s)` |
| Utils.TrimOfTrimAll | src/common/utils.js:17-20 | `trim(trimAll(s)) == trimAll(s)` |
| UtilsScenarios.TrimPaddedWord | src/common/utils.js:8-11 | `trim("  hello  ") == "hello"` |
| UtilsScenarios.TrimEmptyString | src/common/utils.js:8-11 | `trim("") == ""` |
| UtilsScenarios.TrimKeepsInteriorLineBreak | src/common/utils.js:10 | `trim(" a\nb\t") == "a\nb"`: without the `m` flag, an interior line break is not an anchor |
| UtilsScenarios.TrimAllMixedWhitespace | src/common/utils.js:17-20 | `trimAll("a b\tc\n") == "abc"` |
| UtilsScenarios.TrimAllBlank | src/common/utils.js:17-20 | `trimAll("   ") == ""` |

## Left out

- `keccakHash` (src/common/utils.js:22-25) is not modelled. It returns
  `toHex(keccak(str))`. `keccak` comes from the external `ethereumjs-util`
  package and `toHex` from `./formatter`, and neither is part of this model.
  How the string is turned into bytes before hashing is also not visible
  there.
- The regular-expression engine is not modelled. Only the two patterns used
  here are described, by the effect of their matches (`MatchAt`, `RemoveWs`).
- Strings are sequences of Dafny `char`s, which are Unicode scalar values,
  while JavaScript strings are sequences of UTF-16 code units. Every
  character `\s` matches is in the Basic Multilingual Plane and is not a
  surrogate (the contract of `IsWs`), so the two views remove the same
  characters. Lone surrogates
  cannot be represented in the model.
- `IsWs` lists category Zs as of current Unicode versions. Engines built on
  older Unicode data (for example, before U+180E left Zs) differ on those
  code points.
- Arguments that are not strings are not modelled; the model's functions
  take only strings. In JavaScript, `str.replace(...)` throws a TypeError
  when the argument has no `replace` method: `undefined`, `null`, numbers,
  booleans, arrays and plain objects. A `String` wrapper object such as
  `new String("  a ")` behaves like its string value (`String.prototype.replace`
  converts it first, so `trim` gives `"a"`). Any other object with its own
  `replace` method has that method called, with whatever result it gives.
