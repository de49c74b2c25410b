# sanitize-strings, modelled in Dafny

This project models the two HTML sanitizers of `snippet-vault/sanitize-strings/sanitize-strings.ts`
and proves what they do to a string.

- **Option 1, `sanitizeHTML`**, makes two global delete passes.
  - The *tag pass* (`</?(?!(b|i|nobr|br))\b[^>]*>`, case-sensitive) deletes every tag whose name does not begin with an allowed name.
  - The *onClick pass* (`/ onClick=(["'])[^"']+\1/gi`) deletes every quoted ` onClick=` attribute.
  - `createMarkup` wraps the result as `{ __html: ... }`.
- **Option 2, `removeTags`**, repeats one global delete pass until it changes nothing. The pass uses `tagOrComment`, which matches comments, `script` and `style` elements with their content, and any other tag. Every remaining `<` is then written as `&lt;`.

Strings are `seq<char>`. Each regular expression is hand-coded as a matcher `XAt(s, i): Option<nat>`. A matcher tries the expression at index `i`, as a JavaScript engine does, and gives the index just past the match.

- Alternatives are tried in order (`Option.OrElse`).
- The greedy `/?` falls back to the branch without the `/`.
- The greedy star of the comment body gives back iterations when the rest fails (`CommentRunAt`).
- The lazy `[\s\S]*?` tries the nearest closing tag first (`FirstClosingTag`).

Some backtracking cannot change the outcome, so it is collapsed into a single scan. Each such case says why in its doc comment: `[^>]*>`, `[^"']+\1`, `\s*>`, `-*[^->]`, `--+>`, and a tag body followed by `>`.

Case-insensitive matching folds ASCII letters only. JavaScript's canonicalisation without the `u` flag also folds non-ASCII letters (`é` to `É`). The model still gives JavaScript's results because every case-insensitive comparison here is against ASCII text (` onClick=`, `script`, `style` and `[a-z]`), and that canonicalisation never maps a non-ASCII character to an ASCII one.

`String.prototype.replace` with a global regex and `''` is `GlobalReplace.DeleteMatches`. It scans left to right, deletes each match, and resumes just past it. The shared `tagOrComment` object keeps no state between calls, because a global `replace` starts from index 0.

Modules:

- `Wrappers`: `Option`.
- `Chars`: character classes and literal tests.
- `Subsequences`: what deleting characters leaves.
- `Patterns`: the matchers.
- `GlobalReplace`: the delete pass.
- `HtmlSanitizer`: Option 1.
- `TagRemoval`: Option 2.
- `SanitizerExamples`: concrete inputs with the outputs the code gives them.

`removeTags` is imperative in the source: a `do … while` loop reassigns `html`. It is modelled as the method `TagRemoval.RemoveTags`, whose loop is proved against the function `TagRemoval.StripToFixpoint`.

## Model

| member | source | states |
|---|---|---|
| `Chars.ToUpperAscii` | snippet-vault/sanitize-strings/sanitize-strings.ts:13 | case folding under the `i` flag: exactly the ASCII lower-case letters change, each to its upper-case form 32 code points lower |
| `Chars.FirstIndexIn` | snippet-vault/sanitize-strings/sanitize-strings.ts:10 | where a greedy negated class such as `[^>]*` stops: the first index at or after `from` holding one of the characters, with none of them before it, or none at all |
| `Chars.SkipWhitespace` | snippet-vault/sanitize-strings/sanitize-strings.ts:43 | where `\s*` stops: every character skipped is JavaScript whitespace and the next one is not |
| `Patterns.AllowListTagRestAt` | snippet-vault/sanitize-strings/sanitize-strings.ts:10 | the part after `</?`: a match ends at the first `>` after the name start |
| `Patterns.AllowListTagAt` | snippet-vault/sanitize-strings/sanitize-strings.ts:9-12 | a tag-pass match starts with `<`, ends with `>` and spans at least 3 characters |
| `Patterns.OnClickAt` | snippet-vault/sanitize-strings/sanitize-strings.ts:13 | an onClick match starts with a space, ends with a quote and spans at least 12 characters |
| `Patterns.SkipDashes` | snippet-vault/sanitize-strings/sanitize-strings.ts:39 | where a run of `-` stops: every skipped character is `-` and the next one is not |
| `Patterns.CommentUnitAt` | snippet-vault/sanitize-strings/sanitize-strings.ts:39 | one iteration of `-*[^->]` consumes at least one character and its last character is not `>` |
| `Patterns.DashesThenCloseAt` | snippet-vault/sanitize-strings/sanitize-strings.ts:39 | `--+>` spans at least three characters and ends with `>` |
| `Patterns.CommentRunAt` | snippet-vault/sanitize-strings/sanitize-strings.ts:39 | the backtracking star `(?:-*[^->])*--+>` ends with `>` when it matches |
| `Patterns.OptionalDashThenCloseAt` | snippet-vault/sanitize-strings/sanitize-strings.ts:39 | `-?>` ends with `>` |
| `Patterns.CommentAt` | snippet-vault/sanitize-strings/sanitize-strings.ts:37-39 | a comment match starts with `<!--`, ends with `>` and spans at least 5 characters |
| `Patterns.TagBodyEnd` | snippet-vault/sanitize-strings/sanitize-strings.ts:34 | the shape only: a tag body followed by `>` gives the index of that `>`, at or after the start; which `>` it is, the first one outside quotes, is stated by `TagRemoval.TagBodyEndSpan` |
| `Patterns.ClosingTagAt` | snippet-vault/sanitize-strings/sanitize-strings.ts:43 | the shape only: `</name\s*>` spans at least the name plus three characters and ends with `>`; the matched text is stated by `TagRemoval.ClosingTagSpan` |
| `Patterns.FirstClosingTag` | snippet-vault/sanitize-strings/sanitize-strings.ts:43 | the shape only: the lazy `[\s\S]*?` with its closing tag ends with `>`, after the search start; that it stops at the nearest closing tag is stated by `TagRemoval.FirstClosingTagNearest` and `TagRemoval.FirstClosingTagFound` |
| `Patterns.RawTextElementAt` | snippet-vault/sanitize-strings/sanitize-strings.ts:41-46 | the shape only: a `script` or `style` element match runs past the name and ends with `>`; its span is stated by `TagRemoval.RawTextElementSpan` |
| `Patterns.RegularTagRestAt` | snippet-vault/sanitize-strings/sanitize-strings.ts:48-50 | the shape only: `[a-z]` plus tag body plus `>` spans at least 2 characters and ends with `>`; its span is stated by `TagRemoval.RegularTagSpan` |
| `Patterns.RegularTagAt` | snippet-vault/sanitize-strings/sanitize-strings.ts:48-50 | the shape only: the regular-tag alternative spans at least 3 characters and ends with `>`; its span is stated by `TagRemoval.RegularTagSpan` |
| `Patterns.ElementOrTagAt` | snippet-vault/sanitize-strings/sanitize-strings.ts:41-50 | the shape only: the `script`, `style` and regular-tag alternatives give a match of at least 3 characters ending with `>`; their order and spans are stated by `TagRemoval.ElementOrTagSpan` |
| `Patterns.TagOrCommentAt` | snippet-vault/sanitize-strings/sanitize-strings.ts:36-52 | every tagOrComment match starts with `<`, ends with `>` and is at least 3 characters long |
| `Patterns.WholeNameTagRestAt` | snippet-vault/sanitize-strings/sanitize-strings.ts:10 | corrected tag pass (see Findings): a match ends at the first `>` after the name start |
| `Patterns.WholeNameTagAt` | snippet-vault/sanitize-strings/sanitize-strings.ts:9-12 | corrected tag pass: a match starts with `<`, ends with `>` and spans at least 3 characters |
| `Patterns.MatchAt` | snippet-vault/sanitize-strings/sanitize-strings.ts:9-13 | no match is shorter than its pattern's minimum, and every match starts with the pattern's first character: `<` for a tag pattern, a space for onClick |
| `GlobalReplace.ScanFrom` | snippet-vault/sanitize-strings/sanitize-strings.ts:14 | a left-to-right scan that deletes every match recorded in a table either keeps its input or shortens it by at least the minimal match length |
| `GlobalReplace.ScanIsSubsequence` | snippet-vault/sanitize-strings/sanitize-strings.ts:14 | the scan only deletes characters: its result is a subsequence of the scanned text |
| `GlobalReplace.ScanCopiesStretch` | snippet-vault/sanitize-strings/sanitize-strings.ts:14 | over a stretch where no match starts, the scan copies the text character for character |
| `GlobalReplace.NoEntryKeepsAll` | snippet-vault/sanitize-strings/sanitize-strings.ts:14 | with no match anywhere, the scan returns the text unchanged |
| `GlobalReplace.KeepsAllOnlyWithoutEntry` | snippet-vault/sanitize-strings/sanitize-strings.ts:14 | when the scan returns the text unchanged, no match starts anywhere in it |
| `GlobalReplace.ScanUnchangedIff` | snippet-vault/sanitize-strings/sanitize-strings.ts:14 | both directions: the scan is unchanged if and only if no match starts anywhere |
| `GlobalReplace.Matches` | snippet-vault/sanitize-strings/sanitize-strings.ts:9-14 | the table of a pattern holds, at each index, what the regex gives when tried there, and every match it records is at least the pattern's minimum long |
| `GlobalReplace.DeleteMatchesFrom` | snippet-vault/sanitize-strings/sanitize-strings.ts:14 | the rest of the text after a scan from index k is a subsequence of what was scanned; it is unchanged exactly when no match starts at or after k, and otherwise it is shorter by at least one minimal match |
| `GlobalReplace.DeletesMatchAt` | snippet-vault/sanitize-strings/sanitize-strings.ts:14 | where a match starts, `replace` deletes it and resumes just past it |
| `GlobalReplace.KeepsCharWithoutMatch` | snippet-vault/sanitize-strings/sanitize-strings.ts:14 | where no match starts, `replace` keeps the character and moves on by one |
| `GlobalReplace.NoMatchWithoutStart` | snippet-vault/sanitize-strings/sanitize-strings.ts:14 | no match starts at an index whose character is not the pattern's first character |
| `GlobalReplace.DeleteMatches` | snippet-vault/sanitize-strings/sanitize-strings.ts:58 | `replace(re, '')`: a subsequence of the input, equal to it exactly when nothing matches, otherwise shorter by at least one minimal match |
| `GlobalReplace.CopiesStretchWithoutStart` | snippet-vault/sanitize-strings/sanitize-strings.ts:14 | a stretch holding no `<` (no space, for onClick) passes through `replace` unchanged |
| `GlobalReplace.KeepsFromEarlier` | snippet-vault/sanitize-strings/sanitize-strings.ts:14 | if `replace` keeps everything from n on, no match starts at k and no match can start between, it keeps everything from k on |
| `GlobalReplace.NoLtMeansNoMatch` | snippet-vault/sanitize-strings/sanitize-strings.ts:36-37 | a tag pattern's pass leaves text without `<` unchanged |
| `HtmlSanitizer.SanitizeHTML` | snippet-vault/sanitize-strings/sanitize-strings.ts:7-15 | the output is a subsequence of the input, never longer, and equals the input when it has no `<` and no ` onclick=` in any case |
| `HtmlSanitizer.SanitizedCharsFromInput` | snippet-vault/sanitize-strings/sanitize-strings.ts:7-15 | sanitizeHTML inserts nothing: every character of its output occurs in its input |
| `HtmlSanitizer.CreateMarkup` | snippet-vault/sanitize-strings/sanitize-strings.ts:17-19 | the wrapped text is the sanitized input and a subsequence of it |
| `HtmlSanitizer.AllowedTagKept` | snippet-vault/sanitize-strings/sanitize-strings.ts:8-10 | a `<` or `</` whose name begins with `b`, `i` or `nobr` never starts a tag-pass match |
| `HtmlSanitizer.AllowedByFirstChar` | snippet-vault/sanitize-strings/sanitize-strings.ts:8 | unless a name begins with `n`, it passes the allow-list exactly when it begins with `b` or `i` |
| `HtmlSanitizer.AllowListTagSpan` | snippet-vault/sanitize-strings/sanitize-strings.ts:9-12 | both directions: a match starts at a `<` exactly when a non-allowed word character follows it (or follows `</`) and a `>` comes later; the match runs through the first such `>` |
| `HtmlSanitizer.TagPassUnchangedIff` | snippet-vault/sanitize-strings/sanitize-strings.ts:9-14 | the tag pass changes nothing exactly when no `<` opens a removable name with a `>` after it |
| `HtmlSanitizer.OnClickSpan` | snippet-vault/sanitize-strings/sanitize-strings.ts:13 | both directions: a match is ` onClick=` in any case, a quote, a non-empty quote-free value and the same quote |
| `HtmlSanitizer.NoOnClickTextMeansNoAttribute` | snippet-vault/sanitize-strings/sanitize-strings.ts:13-14 | without ` onclick=` in any case, the onClick pass changes nothing |
| `HtmlSanitizer.SanitizeHTMLWholeNames` | snippet-vault/sanitize-strings/sanitize-strings.ts:7-15 | sanitizeHTML with the corrected tag pass (see Findings): still a subsequence of the input, and unchanged without `<` and ` onclick=` |
| `HtmlSanitizer.WholeNameTagSpan` | snippet-vault/sanitize-strings/sanitize-strings.ts:8-12 | corrected tag pass, both directions: a tag is deleted, through its first `>`, exactly when its whole name is not `b`, `i`, `nobr` or `br` |
| `TagRemoval.EscapeChar` | snippet-vault/sanitize-strings/sanitize-strings.ts:60 | the replacement of one character holds no `<`; what `<` turns into is stated by `TagRemoval.EscapeLtOfLt` |
| `TagRemoval.EscapeLt` | snippet-vault/sanitize-strings/sanitize-strings.ts:60 | the result holds no `<`, and text without `<` is unchanged; with `TagRemoval.EscapeLtOfLt` and `TagRemoval.EscapeLtAppend` this determines the result for every input |
| `TagRemoval.EscapeLtLength` | snippet-vault/sanitize-strings/sanitize-strings.ts:60 | the result is exactly 3 characters longer per `<` of the input, since each `<` becomes the 4 characters `&lt;` |
| `TagRemoval.EscapeLtAppend` | snippet-vault/sanitize-strings/sanitize-strings.ts:60 | escaping distributes over concatenation |
| `TagRemoval.EscapeLtOfLt` | snippet-vault/sanitize-strings/sanitize-strings.ts:60 | each `<` becomes the entity `&lt;`, with the text on either side escaped on its own |
| `TagRemoval.StripToFixpoint` | snippet-vault/sanitize-strings/sanitize-strings.ts:55-59 | the loop ends with no tagOrComment match anywhere in the text, and with a subsequence of the input |
| `TagRemoval.TagsRemoved` | snippet-vault/sanitize-strings/sanitize-strings.ts:54-61 | removeTags' result holds no `<`, and input without `<` comes back unchanged |
| `TagRemoval.NoLtIsFixpoint` | snippet-vault/sanitize-strings/sanitize-strings.ts:55-59 | text without `<` leaves the loop after one pass, unchanged |
| `TagRemoval.RemoveTags` | snippet-vault/sanitize-strings/sanitize-strings.ts:54-61 | the loop terminates, because each changing pass shortens the text, and returns what `TagsRemoved` specifies, which holds no `<` |
| `TagRemoval.TagsRemovedIdempotent` | snippet-vault/sanitize-strings/sanitize-strings.ts:54-61 | removeTags applied to its own output returns it unchanged |
| `TagRemoval.StrippedIsSubsequence` | snippet-vault/sanitize-strings/sanitize-strings.ts:55-59 | before escaping, the output is a subsequence of the input and never longer |
| `TagRemoval.FirstGtAfterSkip` | snippet-vault/sanitize-strings/sanitize-strings.ts:39 | skipping characters other than `>` does not move the first `>` |
| `TagRemoval.ClosedByDashesStep` | snippet-vault/sanitize-strings/sanitize-strings.ts:39 | consuming one `-*[^->]` unit does not change where the reference comment end lies |
| `TagRemoval.CommentRunStep` | snippet-vault/sanitize-strings/sanitize-strings.ts:39 | where a `-*[^->]` unit starts, `--+>` cannot, so the star takes the unit |
| `TagRemoval.CommentRunWithoutUnit` | snippet-vault/sanitize-strings/sanitize-strings.ts:39 | where no `-*[^->]` unit starts, the star matches only if `--+>` closes at the first `>`, as the reference says |
| `TagRemoval.CommentRunSpan` | snippet-vault/sanitize-strings/sanitize-strings.ts:39 | the backtracking star agrees with the reference `ClosedByDashesAt`: it ends at the first `>`, which `--` must precede |
| `TagRemoval.CommentBodyAt` | snippet-vault/sanitize-strings/sanitize-strings.ts:39 | with the first `>` after `<!--` at g, `(?:-*[^->])*--+>` or `-?>` closes there exactly when the text before g is a comment body |
| `TagRemoval.CommentSpan` | snippet-vault/sanitize-strings/sanitize-strings.ts:37-39 | a comment runs from `<!--` to the first `>`, and only if the text between is empty, `-`, or ends in `--` |
| `TagRemoval.TagBodyPrepend` | snippet-vault/sanitize-strings/sanitize-strings.ts:34 | one TAGBODY iteration followed by a tag body is a tag body |
| `TagRemoval.QuotedUnit` | snippet-vault/sanitize-strings/sanitize-strings.ts:34 | a quote, text without that quote, and the same quote form one TAGBODY iteration |
| `TagRemoval.TagBodyEndIsBody` | snippet-vault/sanitize-strings/sanitize-strings.ts:34 | what `TagBodyEnd` finds is preceded by text that splits into TAGBODY iterations |
| `TagRemoval.TagBodyEndAfterBody` | snippet-vault/sanitize-strings/sanitize-strings.ts:34 | the search for the end of a tag body passes over a whole tag body: it ends where it would end from the first index after that body |
| `TagRemoval.BodyGivesTagBodyEnd` | snippet-vault/sanitize-strings/sanitize-strings.ts:34 | a tag body followed by `>` ends where `TagBodyEnd` says: that `>` is the first one outside quotes |
| `TagRemoval.TagBodyEndSpan` | snippet-vault/sanitize-strings/sanitize-strings.ts:34 | both directions: `TagBodyEnd` gives g exactly when the text from the start to g is a tag body (characters other than quotes and `>`, and quoted strings with their closing quote) and a `>` is at g |
| `TagRemoval.TagBodyEndSkip` | snippet-vault/sanitize-strings/sanitize-strings.ts:34 | characters that are neither quotes nor `>` do not move the end of a tag body |
| `TagRemoval.UnclosedQuoteNoEnd` | snippet-vault/sanitize-strings/sanitize-strings.ts:34 | a quote that is never closed, reached after a tag body (every earlier quote closed, no `>` outside quotes), leaves the tag body without an end, so no tag matches |
| `TagRemoval.ClosingTagSpan` | snippet-vault/sanitize-strings/sanitize-strings.ts:43 | both directions: a closing tag is `</`, the name in any case, only whitespace, then `>`, and the match runs through that `>` |
| `TagRemoval.FirstClosingTagNearest` | snippet-vault/sanitize-strings/sanitize-strings.ts:43 | the lazy `[\s\S]*?` stops at the nearest closing tag: a closing tag with none before it is the one found |
| `TagRemoval.NoClosingTagFrom` | snippet-vault/sanitize-strings/sanitize-strings.ts:43 | no closing tag in a range means none at its first index and none in the rest |
| `TagRemoval.FirstClosingTagNone` | snippet-vault/sanitize-strings/sanitize-strings.ts:43 | both directions: the lazy search fails exactly when no closing tag starts at or after the search start |
| `TagRemoval.FirstClosingTagFound` | snippet-vault/sanitize-strings/sanitize-strings.ts:43 | what the lazy search finds is a closing tag with none between the search start and it |
| `TagRemoval.RegularTagSpan` | snippet-vault/sanitize-strings/sanitize-strings.ts:48-50 | both directions: the regular-tag alternative matches `<` or `</`, a letter in either case, a tag body and `>`, and runs through that first `>` outside quotes; the `/?` never has to give back its `/` |
| `TagRemoval.RawTextElementSpan` | snippet-vault/sanitize-strings/sanitize-strings.ts:41-46 | a `script` or `style` element match starts with an opening tag ended by its first `>` outside quotes and runs to the nearest closing tag after it; without such an opening tag there is no match |
| `TagRemoval.RawTextOpeningAsRegularTag` | snippet-vault/sanitize-strings/sanitize-strings.ts:41-50 | read as a regular tag, an opening `<script…>` or `<style…>` ends at the same `>` as the raw-text opening tag, and fails when that does |
| `TagRemoval.ScriptExcludesStyle` | snippet-vault/sanitize-strings/sanitize-strings.ts:41-46 | a `<script` opening and a `<style` opening cannot start at the same index |
| `TagRemoval.ElementOrTagSpan` | snippet-vault/sanitize-strings/sanitize-strings.ts:41-50 | the alternatives tried in order: a `script` or `style` element runs to its nearest closing tag, or without one only its opening tag matches; an opening that never ends gives no match; any other text after `<` is read as a regular tag |
| `SanitizerExamples.TagPassIsCaseSensitive` | snippet-vault/sanitize-strings/sanitize-strings.ts:9-12 | `<B>` is deleted while `<b>` is kept |
| `SanitizerExamples.UpperCaseOnClickMatches` | snippet-vault/sanitize-strings/sanitize-strings.ts:13 | ` ONCLICK='x'` is a 12-character match |
| `SanitizerExamples.OnClickIgnoresCase` | snippet-vault/sanitize-strings/sanitize-strings.ts:13 | the onClick pass deletes ` ONCLICK='x'` entirely |
| `SanitizerExamples.OnClickNeedsMatchingQuotes` | snippet-vault/sanitize-strings/sanitize-strings.ts:13 | a value opened with `"` and closed with `'` is kept |
| `SanitizerExamples.OnClickOfBoldTagMatches` | snippet-vault/sanitize-strings/sanitize-strings.ts:13 | inside `<b onclick="go()">`, the attribute is a match |
| `SanitizerExamples.BoldTagsKept` | snippet-vault/sanitize-strings/sanitize-strings.ts:8-12 | the tag pass keeps `<b onclick="go()">hi</b>` whole |
| `SanitizerExamples.NoOnClickAfterBoldAttribute` | snippet-vault/sanitize-strings/sanitize-strings.ts:13 | nothing after that attribute matches the onClick pattern |
| `SanitizerExamples.OnClickPassOnBoldTag` | snippet-vault/sanitize-strings/sanitize-strings.ts:13-14 | the onClick pass turns it into `<b>hi</b>` |
| `SanitizerExamples.SanitizeStripsAttributeOfAllowedTag` | snippet-vault/sanitize-strings/sanitize-strings.ts:7-15 | sanitizeHTML of `<b onclick="go()">hi</b>` is `<b>hi</b>` |
| `SanitizerExamples.NestedTagNeedsSecondPass` | snippet-vault/sanitize-strings/sanitize-strings.ts:55-59 | one pass over `<<a>a>` leaves `<a>`, and the loop ends with the empty string |
| `SanitizerExamples.StrayLtOpensNothing` | snippet-vault/sanitize-strings/sanitize-strings.ts:48-50 | a `<` followed by a space is no tag |
| `SanitizerExamples.StrayLtIsEscaped` | snippet-vault/sanitize-strings/sanitize-strings.ts:60 | removeTags of `1 < 2` is `1 &lt; 2` |
| `SanitizerExamples.EscapeOfStrayLt` | snippet-vault/sanitize-strings/sanitize-strings.ts:60 | escaping `1 < 2` gives `1 &lt; 2` |
| `SanitizerExamples.ScriptClosingTagFound` | snippet-vault/sanitize-strings/sanitize-strings.ts:43 | the lazy search finds `</script>` |
| `SanitizerExamples.ScriptElementMatches` | snippet-vault/sanitize-strings/sanitize-strings.ts:41-43 | `<script>x</script>` is one match |
| `SanitizerExamples.ScriptElementRemovedWithContent` | snippet-vault/sanitize-strings/sanitize-strings.ts:41-43 | removeTags of `<script>x</script>ok` is `ok` |
| `SanitizerExamples.UnclosedScriptMatchesAsTag` | snippet-vault/sanitize-strings/sanitize-strings.ts:41-50 | with no `</script>`, `<script>` matches as an ordinary tag |
| `SanitizerExamples.UnclosedScriptLosesOnlyItsTag` | snippet-vault/sanitize-strings/sanitize-strings.ts:41-50 | removeTags of `<script>x` is `x` |
| `SanitizerExamples.CommentHoldingGtOpensNothing` | snippet-vault/sanitize-strings/sanitize-strings.ts:39 | `<!--a>b-->` has no tagOrComment match |
| `SanitizerExamples.CommentHoldingGtIsEscaped` | snippet-vault/sanitize-strings/sanitize-strings.ts:39 | removeTags of `<!--a>b-->` is `&lt;!--a>b-->` |
| `SanitizerExamples.ImgIsNoAllowedName` | snippet-vault/sanitize-strings/sanitize-strings.ts:8 | `img` is not one of the allowed names in full |
| `SanitizerExamples.ImgKeptAsWritten` | snippet-vault/sanitize-strings/sanitize-strings.ts:10 | as written, the tag pass keeps `<img src=x>` |
| `SanitizerExamples.ImgDeletedWhenCorrected` | snippet-vault/sanitize-strings/sanitize-strings.ts:10 | the corrected tag pass deletes `<img src=x>` |
| `SanitizerExamples.BrKeptWhenCorrected` | snippet-vault/sanitize-strings/sanitize-strings.ts:8-10 | the corrected tag pass still keeps `<br/>` |
| `SanitizerExamples.QuotedGtTagMatches` | snippet-vault/sanitize-strings/sanitize-strings.ts:34 | in `<a t='>'>`, the tag ends at the `>` after the quoted value |
| `SanitizerExamples.QuotedGtStaysInsideTag` | snippet-vault/sanitize-strings/sanitize-strings.ts:34 | removeTags of `<a t='>'>x` is `x` |

## Findings

| source | as written | input that shows it | evidently intended | confidence | as-written member | corrected member |
|---|---|---|---|---|---|---|
| snippet-vault/sanitize-strings/sanitize-strings.ts:10 | the negative lookahead over the allowed names tests only a prefix of the tag name | `<img src=x>`, and also `<iframe>`, `<body>` or `<button>`, passes the tag pass | keep only tags whose whole name is `b`, `i`, `nobr` or `br`, with a `\b` after the allowed names inside the lookahead; the file's comment promises to remove "all tags except for a few allowed ones", and listing `br` beside `b` only makes sense for whole names | high (not executed) | `SanitizerExamples.ImgKeptAsWritten` | `HtmlSanitizer.WholeNameTagSpan` |

`HtmlSanitizer.SanitizeHTML` models the code as written. `HtmlSanitizer.SanitizeHTMLWholeNames` is the same function with the corrected tag pass (`Patterns.WholeNameTagAt`).

## Left out

- `playground.js` is not part of this model. It holds DOM wiring, editor loading from a CDN, `localStorage` settings, and `runCode`/`downloadCode`, which are stubs that only raise an alert.
- `snippet-vault/generic-debounce/generic-debounce.ts` is not part of this model. It is about timers, React hooks and promise resolution.
- React's use of `createMarkup` through `dangerouslySetInnerHTML` is not modelled. `CreateMarkup` only builds the wrapper value.
- Strings are sequences of Unicode scalar values, not UTF-16 code units. The patterns test only BMP characters, so matching is the same. Only lengths differ for characters outside the BMP. A JavaScript string may also hold an unpaired surrogate code unit, which a Dafny `char` cannot represent, so such strings are outside the model.
- General regular expressions and `String.prototype.replace` are not modelled. Only the three patterns used here and deletion with `''` are. The `<` to `&lt;` replacement is its own function.
- No claim is made that either output is safe to insert into a page. The model states what is removed and what is kept.
