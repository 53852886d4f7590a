# js2fr generated-block injection, modelled in Dafny

js2fr compiles JSON Schema documents into Firebase rules text. It then writes that text into an
output file as one generated block. The block sits between an open marker that carries the
tool's version, `// <js2fr version="x.y.z">`, and a close marker, `// </js2fr>`. What happens
depends on the output file:

- No output path: the block is printed.
- The file does not exist: the file is created with the block alone.
- The file exists and has no block: the block is appended after a blank line.
- The file has a block that the version policy accepts, or `--force` is given: the first block
  is replaced.
- Otherwise: nothing is written, and an error message is shown.

This project models that protocol (`src/index.ts` lines 57-99) and proves its properties. It
has six modules:

- `Wrappers` holds the optional value. It stands for "not found", JavaScript's `null` and `NaN`.
- `JsText` models the JavaScript built-ins the code relies on, on `seq<char>`:
  - the regular-expression classes `\s`, `.` and `\d`;
  - `join`, `indexOf`, `split(".")[0]` and `parseInt(_, 10)`;
  - `String.prototype.replace` with a string pattern, including the `$$`, `$&`, `` $` `` and
    `$'` patterns it expands in the replacement.
- `Formatter` models the block text built at lines 57-61.
- `Locator` models `exec` of the regular expression at line 70 on the file content. The pattern
  is stated declaratively: `Hit` holds the characters the pattern leaves free, `Text` spells the
  matched text and `WellFormed` says which choices are allowed. A scanner, `MatchAt`, is proved
  sound and complete against it. `Locate` is proved to return the earliest match, which is what
  `exec` returns on a fresh global expression. The `m` flag changes only `^` and `$`, and the
  pattern has neither.
- `Policy` models `canOverwrite` (lines 77-82).
- `Injection` models the decision at lines 63-99 as one function, `Run`, whose result is the
  outcome with the content written or printed. `Update` is its branch for an existing file.

Some of the code's behaviour is easy to miss:

- The body is captured by a greedy `(.*)`, so it is one line. It holds no `\n`, `\r`, U+2028 or
  U+2029. A block whose rules span several lines is not found again, so the next run appends a
  second copy (`MultiLineRulesAppendedAgain`). This holds for a single-digit version and any
  rules text that contains neither `<js2fr version="` nor `</js2fr>`, comparisons such as `<=`
  included. Rules text that holds a close marker of its own can make a shorter match.
- Each version component is one digit `(\d)`. A block written by a version such as `1.10.0` is
  not found either, under the same condition on the rules text (`LongVersionAppendedAgain`).
  The version must hold no `<`, as no npm version does: a version that carries a marker of its
  own can make a match that starts inside the block.
- The refusal message names no versions, so `Refuse` carries no data.
- The replacement string goes through `replace`'s `$` patterns. The text outside the old block
  is always kept. The new block equals the formatted block when the version and rules text
  contain no `$$`, `$&`, `` $` `` or `$'` (`ReplaceKeepsOutside`). Rules text `$'` is written as
  the text that follows the old block (`DollarRulesExpanded`). Re-running with the same version
  and rules is therefore not idempotent when the rules text holds such a pattern: with rules
  text `$&` the old block ends up nested inside the new one (`AmpersandRulesRerunNests`).
  These lemmas assume a version with no `$`, as no npm version has.

## Model

| member | source | states |
|---|---|---|
| JsText.Join | src/index.ts:57-61 | joining no parts gives the empty string and joining one part gives that part; `JoinAccumulates` states the left-to-right accumulation |
| JsText.JoinAccumulates | src/index.ts:57-61 | joining several parts is the join of all but the last, the separator, then the last part, as ECMAScript accumulates it |
| JsText.IndexOfFrom | src/index.ts:87 | the result is an occurrence of the pattern at or after the start, and no occurrence lies between the start and it; `None` means the pattern occurs nowhere from the start on |
| JsText.IndexOfFirst | src/index.ts:87 | an occurrence with no earlier occurrence is the one `indexOf` returns |
| JsText.Substitute | src/index.ts:87 | no contract of its own: the `$` expansion of `replace`; `SubstituteLiteral`, `SubstituteConcat` and `SubstituteQuoteRules` state what it gives |
| JsText.Expansion | src/index.ts:87 | no contract of its own: `$$` gives `$`, `$&` the matched text, `` $` `` the text before it and `$'` the text after it; `SubstituteOneEscape` uses it |
| JsText.SubstituteOneEscape | src/index.ts:87 | a template with one pattern between two pattern-free parts, the first not ending in `$`, gives those parts around the pattern's expansion |
| JsText.SubstituteLiteral | src/index.ts:87 | a replacement with no `$$`, `$&`, `` $` `` or `$'` is inserted literally |
| JsText.SubstituteConcat | src/index.ts:87 | a pattern-free prefix that does not end in `$` is copied, and the rest is substituted on its own |
| JsText.NoDollarEscapeConcat | src/index.ts:87 | two pattern-free strings stay pattern-free when concatenated, unless a `$` at the end of the first meets a pattern character at the start of the second |
| JsText.ReplaceFirst | src/index.ts:87 | no occurrence leaves the string as it is; otherwise the text before the first occurrence is a prefix of the result and the text after it is a suffix |
| JsText.FirstField | src/index.ts:79 | `split(".")[0]` is a prefix of the string without the separator, and it is followed by the separator when it is not the whole string |
| JsText.FirstFieldOf | src/index.ts:79 | the first field of a separator-free text followed by the separator is that text |
| JsText.TrimStart | src/index.ts:78-79 | `parseInt` skips a suffix that starts with a non-space, and everything it skips is `\s` white space |
| JsText.DigitRun | src/index.ts:78-79 | the digits `parseInt` reads are all digits, and the next character, if any, is not a digit |
| JsText.ParseInt | src/index.ts:78-79 | `parseInt` gives `NaN` exactly when no digit follows the white space and the optional sign; `ParseIntForm` states the value |
| JsText.ParseIntForm | src/index.ts:78-79 | for leading `\s` white space, an optional `+` or `-`, a run of digits and text that does not continue it, `parseInt` gives the signed value of the digits, or `NaN` when there are none |
| JsText.ParseIntDigits | src/index.ts:78-79 | a non-empty string of digits parses to its decimal value |
| Formatter.Format | src/index.ts:57-61 | the block is the open marker with the version, a newline, the rules text, a newline and the close marker |
| Formatter.FormatLayout | src/index.ts:57-61 | where each part lies in the block: the marker prefix at 0-18, the version from 19 on, `">` and a newline after it, then the rules text, a newline and the close marker as the last 11 characters; the length is that of the version and the rules plus 34 |
| Locator.Text | src/index.ts:70 | no contract of its own: the text the pattern matches for a choice of its free characters; `TextLayout` states its layout |
| Locator.WellFormed | src/index.ts:70 | no contract of its own: `\s` for both spaces, `\d` for the three version digits and a body free of line terminators; `MatchAt` and `MatchAtComplete` are proved against it |
| Locator.MatchesAt | src/index.ts:70 | no contract of its own: the pattern matches at a position; `MatchAtComplete` and `MatchUnique` state how |
| Locator.TextLayout | src/index.ts:70 | where each part of a matched text lies, and its length: 39 plus the length of the body |
| Locator.LineLength | src/index.ts:70 | greedy `(.*)` takes a run free of line terminators that ends at a line terminator or at the end of the text |
| Locator.LineLengthAt | src/index.ts:70 | the run stops exactly at the first line terminator |
| Locator.MatchAt | src/index.ts:70 | a hit found at the start of a text is allowed by the pattern, and its matched text is a prefix of that text |
| Locator.MatchAtComplete | src/index.ts:70 | every hit the pattern allows at the start of a text is the one the scanner returns |
| Locator.MatchUnique | src/index.ts:70 | at one position the pattern matches in at most one way |
| Locator.NoMatchHere | src/index.ts:70 | where the scanner finds nothing, the pattern does not match |
| Locator.LocateFromEarliest | src/index.ts:71 | the scan from a position returns a match with no match between that position and it, or `None` when no match lies at or after the position |
| Locator.LocateFrom | src/index.ts:71 | no contract of its own: the scan from a position; `LocateFromEarliest` states that it stops at the first match |
| Locator.Locate | src/index.ts:71 | `exec` returns a match whose text lies at the start it reports, with no match at an earlier position; `null` means the pattern matches nowhere |
| Locator.LocateAt | src/index.ts:71 | a match with no earlier match is the one `exec` returns |
| Locator.NoAngleNoMatch | src/index.ts:70-71 | content without `<` has no block |
| Locator.CanonicalText | src/index.ts:57-70 | a matched text with single spaces is the formatted block of its version and body |
| Locator.FormatLocateRoundTrip | src/index.ts:57-71 | a block formatted with a single-digit version and one-line rules is found at 0, and the version and rules text read back are the ones formatted |
| Locator.FirstBlockLocated | src/index.ts:70-71 | whatever follows a block formatted with a single-digit version and one-line rules, the block at the start is the one found |
| Locator.FormatAngles | src/index.ts:57-61 | with a `<`-free version, every `<` of a block lies in one of the two markers or in the rules text |
| Locator.TagInRules | src/index.ts:57-70 | a tag without line feeds that starts inside the rules text of a block lies wholly inside it |
| Locator.FormatTagPositions | src/index.ts:57-70 | when the version has no `<` and the rules text contains neither tag, the open tag occurs only in the open marker and the close tag only in the close marker |
| Locator.FormatMatchWhole | src/index.ts:57-70 | a match inside a block whose version has no `<` and whose rules text contains neither tag is the whole block |
| Locator.WholeBlockMatchSingleLine | src/index.ts:57-70 | a block matched as a whole has a single-digit version and one-line rules |
| Locator.LocateFormatIff | src/index.ts:57-71 | for a `<`-free version and rules text containing neither tag, a formatted block is found exactly when the version has three single digits and the rules are one line |
| Locator.OccurrenceIsMatch | src/index.ts:70-87 | every occurrence of a matched text is itself a match |
| Locator.MatchedTextFirstOccurrence | src/index.ts:71-87 | the string search in `replace(js2frInfo[0], …)` finds the match `exec` found, not an earlier copy |
| Policy.OldVersion | src/index.ts:77 | the old version is the three captured digits separated by dots |
| Policy.MajorOf | src/index.ts:79 | no contract of its own: `MajorOfVersion` and `MajorOfOldVersion` state what it reads |
| Policy.MajorOfVersion | src/index.ts:79 | the major version of a version string that starts with digits and a dot is the value of those digits |
| Policy.CanOverwrite | src/index.ts:80-82 | no contract of its own: `ExactVersionAllowed`, `SameStableMajorAllowed`, `UnstableMajorExactOnly` and `DifferentMajorRefused` state when it holds |
| Policy.OldMajorIsDigit | src/index.ts:78 | `parseInt` of the captured major digit is that digit's value |
| Policy.MajorOfOldVersion | src/index.ts:77-79 | the major version read from an old version string is its first digit |
| Policy.ExactVersionAllowed | src/index.ts:80-81 | a block of the very same version may be replaced |
| Policy.SameStableMajorAllowed | src/index.ts:80-82 | a block with the same major version above 0 may be replaced, whatever its minor and patch versions |
| Policy.UnstableMajorExactOnly | src/index.ts:80-82 | a block of major version 0 may be replaced exactly when the version is identical |
| Policy.DifferentMajorRefused | src/index.ts:78-82 | a block whose major differs from the current major, or where the current major is `NaN`, may not be replaced |
| Policy.ExampleExactVersion | src/index.ts:80-82 | 1.2.3 may replace 1.2.3 |
| Policy.ExampleSameMajor | src/index.ts:80-82 | 2.5.1 may replace 2.0.0 |
| Policy.ExampleUnstableMajor | src/index.ts:80-82 | 0.2.0 may not replace 0.1.0 |
| Policy.ExampleNewMajor | src/index.ts:79-82 | 2.0.0 may not replace any block of major version 1, such as 1.9.0 |
| Policy.ExampleLongMinor | src/index.ts:79-82 | 1.10.0 may replace 1.9.0 |
| Injection.Run | src/index.ts:63-99 | content is appended exactly when there is an output file and no block is found, and the old content is then a prefix; a replacement happens only when there is an output file with a block found, and keeps the text before and after that block |
| Injection.KeepsOutside | src/index.ts:84-88 | no contract of its own: a block is found and the written text starts with the text before it and ends with the text after it |
| Injection.Update | src/index.ts:67-96 | an existing file is appended to, replaced in or refused; appended to exactly when no block is found, with the old content as a prefix; a replacement keeps the text before and after the found block |
| Injection.Conflicts | src/index.ts:80-84 | no contract of its own: a block is found and `canOverwrite` is false; `RefuseExactly` ties it to refusal |
| Injection.CreateWritesBlockAlone | src/index.ts:63-65 | a missing file receives the block alone |
| Injection.PrintWithoutOutput | src/index.ts:97-98 | without an output path the block is printed, whatever the file holds |
| Injection.AppendKeepsContent | src/index.ts:73-75 | content without a block is kept as a prefix, and the block follows after a blank line and ends with a newline |
| Injection.AppendToPlainContent | src/index.ts:70-75 | content without `<` is always appended to |
| Injection.HandWrittenScenario | src/index.ts:73-75 | `// hand code` followed by a newline stays in front of the appended block |
| Injection.ReplaceSplicesMatch | src/index.ts:84-88 | replacement keeps the text before and after the matched block, and puts the new block with its `$` patterns expanded between them |
| Injection.ReplaceKeepsOutside | src/index.ts:84-88 | when the version and rules have no `$` patterns, exactly the matched block is replaced by the new block |
| Injection.FormatNoDollarEscape | src/index.ts:57-87 | the markers add no `$` pattern to a block whose version and rules have none |
| Injection.SubstituteQuoteRules | src/index.ts:87 | with a `$`-free version, expanding the block of rules text `$'` gives the block of the text after the match |
| Injection.DollarRulesExpanded | src/index.ts:84-88 | with a `$`-free version and rules text `$'`, when a found block is replaced, the written block holds the text that followed the old block |
| Injection.SubstituteAmpersandRules | src/index.ts:87 | with a `$`-free version, expanding the block of rules text `$&` gives the block of the matched text |
| Injection.AmpersandRulesRerunNests | src/index.ts:70-88 | re-running on a file holding only the block of rules text `$&` writes a block whose rules text is that whole old block, so re-running is not idempotent |
| Injection.ForceAlwaysReplaces | src/index.ts:84 | with `--force` a found block is always replaced |
| Injection.RefuseExactly | src/index.ts:84-95 | nothing is written exactly when there is an output file with a block the policy rejects and `--force` is absent |
| Injection.SameVersionAllowed | src/index.ts:77-81 | the version read back from any block may replace that block |
| Injection.CreateThenRerunIdempotent | src/index.ts:63-88 | for a single-digit version and one-line rules text with no `$$`, `$&`, `` $` `` or `$'`, creating a file and running again with the same version and rules writes the same content |
| Injection.RerunLeavesFileUnchanged | src/index.ts:70-88 | running again with the version and rules of the found block, when it is single-spaced and its body has no `$$`, `$&`, `` $` `` or `$'`, leaves the whole file unchanged |
| Injection.LeadingBlockFound | src/index.ts:70-71 | a block formatted with a single-digit version and one-line rules at the start of a file is the block found, and the match ends where the block ends |
| Injection.OnlyFirstBlockReplaced | src/index.ts:70-88 | when the file starts with a block of a single-digit version and one-line rules, `--force` with a new version and rules that have no `$$`, `$&`, `` $` `` or `$'` replaces only that block and keeps the rest of the file |
| Injection.MultiLineRulesAppendedAgain | src/index.ts:70-75 | with a single-digit version, rules text of several lines that contains neither tag is not found again, so the next run appends a second copy of the block |
| Injection.ComparisonRulesAppendedAgain | src/index.ts:70-75 | rules text `a <= 1`, a line feed, `b` written by 1.2.3 is appended again on the next run |
| Injection.LongVersionAppendedAgain | src/index.ts:70-75 | a block whose version has no `<` and is not three single digits, with rules text containing neither tag, is not found again, so the next run appends a second copy |
| Injection.MajorUpgradeRefused | src/index.ts:77-95 | a block of 1.0.0 is not replaced by version 2.0.0 without `--force` |
| Injection.MajorUpgradeForced | src/index.ts:84-88 | with `--force`, a 1.0.0 block with one-line rules becomes the 2.0.0 block of rules text with no `$$`, `$&`, `` $` `` or `$'` |

## Left out

- Command-line parsing, the glob over input files and `JSON.parse` of the schemas are not part
  of this model.
- `compile` is not part of this model. Its output, the rules text, is a parameter of `Run`.
- `generatedCodeVersion` comes from the package manifest and is a parameter.
- File I/O is not modelled. The file's content, or its absence, is an input. The content to write
  or print is the output.
- A failure to read the output file is not modelled.
- Verbose logging, the timing message and the text of the refusal message are not modelled.
- `Print` holds the block alone. `console.log` writes it followed by a line feed, and that line
  feed is not modelled.
- `Run` models the truth of the output argument as a boolean. The output path itself is not
  modelled.
- Strings are sequences of code points, not of UTF-16 code units. Characters outside the Basic
  Multilingual Plane are therefore one character here and two in JavaScript.
- Policy.MajorOf: `parseInt` returns an unbounded integer where JavaScript returns a float. The
  two differ only above 2^53, where floats lose precision.
