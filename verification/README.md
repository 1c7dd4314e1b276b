# ClipDashboard core, modelled in Dafny

ClipDashboard is a desktop clipboard tool. It keeps a list of clip buffers and runs
text commands on the system clipboard. This project models the pure logic underneath
the user interface and proves properties of it:

- the string helpers of `StringUtil`, in both the packaged copy
  (`com.juxtaflux`) and the older unpackaged copy: escape expansion, left and right
  trimming, Python-style slicing, and the word extractor used to name saved clips;
- the slice-expression parser (`Functions.parseToken` and `parseSliceSyntax`);
- the list bookkeeping of the controller's buffer commands:
  - deleting the selected buffers;
  - removing adjacent duplicate lines;
  - moving the selected buffers up or down;
- the clipboard-as-a-list combinators of `ClipListMutator`, in both copies;
- how a stored clip is labelled in the buffer list (`ClipBuffer.toString`), in both copies.

The clipboard is a plain string state. Each command maps the text before it to the
text after it. The platform line separator (`System.lineSeparator()`) is a parameter
`sep`. A Java exception is an `Option`/`Result` value (`None`, `Err`). Lambdas passed
to the combinators are Dafny functions returning `Option`, so they may "throw".

Modules, one per source component:

| module | models |
|---|---|
| `Wrappers` | `Option`, `Result` |
| `Text` | commons-lang `splitByWholeSeparatorPreserveAllTokens`, `countMatches`, `String.replace`, `String.join` |
| `Decimal` | `Integer.valueOf` (radix 10, 32-bit range) and decimal printing |
| `Chars` | `Character.isWhitespace`, the `trim()` class, `[a-zA-Z0-9]` |
| `Sequences` | subsequences |
| `StringUtil` / `LegacyStringUtil` | the two `StringUtil` classes |
| `SliceSyntax` | `Functions.parseToken`, `Functions.parseSliceSyntax`, `ArgParseError` |
| `BufferList` | delete, uniq, `swapBuffers`, move up and down |
| `ClipListMutator` / `LegacyClipListMutator` | the two `ClipListMutator.java` files |
| `ListCommands` | `onBtnListSlice`, `onBtnListUniq` |
| `ClipBuffer` / `LegacyClipBuffer` | the two `ClipBuffer.toString` |

## Model

| member | source | states |
|---|---|---|
| `StringUtil.ReplaceSpecialCharsNoBackslash` | src/com/juxtaflux/StringUtil.java:12-17 | a text without a backslash, the empty text included, comes back unchanged |
| `StringUtil.ExpandsNewlineEscape` | src/com/juxtaflux/StringUtil.java:13 | backslash-free pieces separated by the escape `\n` come out separated by the platform line separator |
| `StringUtil.ExpandsTabEscape` | src/com/juxtaflux/StringUtil.java:14 | pieces separated by the escape `\t` come out separated by a TAB |
| `StringUtil.ExpandsReturnEscape` | src/com/juxtaflux/StringUtil.java:15 | pieces separated by the escape `\r` come out separated by a CR |
| `StringUtil.ReplaceInJoin` | src/com/juxtaflux/StringUtil.java:13-15 | one `replace` pass over backslash-free pieces joined by an escape rewrites exactly the joints that carry its target escape |
| `StringUtil.ExpandsMixedEscapes` | src/com/juxtaflux/StringUtil.java:12-17 | backslash-free pieces joined by any mix of the escapes `\n`, `\t` and `\r` come out with every escape replaced by its own expansion (line separator, TAB, CR), when the line separator holds no backslash |
| `StringUtil.ReplaceSpecialCharsMixedExample` | src/com/juxtaflux/StringUtil.java:12-17 | with separator CR LF, a `\n` escape followed at once by a `\t` escape, between backslash-free texts, becomes CR LF TAB |
| `LegacyStringUtil.ReplaceSpecialCharsLeavesReturnEscape` | src/StringUtil.java:5-9 | the older expansion maps `\n` to LF and `\t` to TAB, and leaves a written `\r` escape as the two characters it was |
| `LegacyStringUtil.ExpandsMixedEscapes` | src/StringUtil.java:5-9 | backslash-free pieces joined by any mix of `\n`, `\t` and `\r` come out with `\n` as LF, `\t` as TAB and every `\r` left as written |
| `StringUtil.LTrim` | src/com/juxtaflux/StringUtil.java:19-25 | the result is a suffix of the input, empty or starting with a non-whitespace character, with only the leading whitespace run removed |
| `StringUtil.RTrim` | src/com/juxtaflux/StringUtil.java:26-32 | the result is a prefix of the input, empty or ending with a non-whitespace character, with only the trailing whitespace run removed |
| `StringUtil.StripLeading` | src/StringUtil.java:11-17 | the stripped text is a suffix, every removed character satisfies the predicate, and the first kept one does not |
| `StringUtil.StripTrailing` | src/StringUtil.java:18-24 | the stripped text is a prefix, every removed character satisfies the predicate, and the last kept one does not |
| `StringUtil.TrimsKeepOtherEnd` | src/com/juxtaflux/StringUtil.java:19-32 | left trimming and right trimming commute, so each leaves the other end untouched |
| `StringUtil.Substring` | src/com/juxtaflux/StringUtil.java:39 | the commons-lang `substring` rule (shift negatives, cap the end, empty if reversed, clamp at zero) equals Python slicing for every pair of bounds |
| `StringUtil.SliceAt` | src/com/juxtaflux/StringUtil.java:34-40 | for `-n <= i < n` the result is the one character at `i` (from the end when negative; `-1` is the last one through the end-0 case); otherwise `""` |
| `StringUtil.SliceRange` | src/StringUtil.java:33-41 | Python slicing with a missing start read as 0 and a missing end as the length: both missing gives the text; the result is a contiguous substring; it is `""` when the normalised start is not before the normalised end |
| `StringUtil.JavaTrim` | src/com/juxtaflux/StringUtil.java:54 | `trim()` removes exactly a run of characters up to U+0020 from each end: the result is a contiguous slice of the text, everything before and after it is at most U+0020, and the result is empty or neither starts nor ends with such a character |
| `StringUtil.NamingSource` | src/com/juxtaflux/StringUtil.java:52-54 | the result is the cleaned first 100 characters (at most) with exactly the surrounding spaces removed: a contiguous slice of the cleaned prefix, only spaces before and after it, only ASCII letters, digits and spaces in it, and no space at either end |
| `StringUtil.ExtractInitialWords` | src/com/juxtaflux/StringUtil.java:51-59 | the result uses only `[a-zA-Z0-9 ]`, has no leading, trailing or doubled space, its words are the first `n` words of the cleaned prefix, and it is `""` exactly when `n` is 0 or there is no word |
| `StringUtil.WordsOfJoin` | src/com/juxtaflux/StringUtil.java:55-58 | splitting words joined with single spaces gives the words back |
| `StringUtil.ExtractInitialWordsReadsPrefix` | src/com/juxtaflux/StringUtil.java:52 | two texts with the same first 100 characters give the same result |
| `Text.JoinSplitPreserveAllTokens` | src/com/juxtaflux/ClipListMutator.java:24-26 | joining the tokens of the exact split with the same separator gives the text back, `""` included |
| `Text.CountMatchesIsSplitLength` | src/com/juxtaflux/ClipBuffer.java:13 | `countMatches` is one less than the number of tokens of the split, so the label's line count is the number of lines |
| `Text.ReplaceIsJoinOfSplit` | src/com/juxtaflux/ClipBuffer.java:14 | `replace` is the split on the target joined with the replacement |
| `Text.ReplaceRemovesTarget` | src/com/juxtaflux/ClipBuffer.java:14 | replacing the separator by a character it does not contain leaves no separator behind |
| `Text.SplitJoin` | src/ClipListMutator.java:19 | with a one-character separator no part contains, splitting a join gives the parts back |
| `SliceSyntax.ParseToken` | src/com/juxtaflux/Controller.java:72-84 | the token is "no value" exactly when blank; otherwise it is an `int` or `NotAnInteger`; a non-blank token padded with a blank character is refused, because only the blank test trims |
| `SliceSyntax.JavaTrimEmptyIffBlank` | src/com/juxtaflux/Controller.java:73 | `trim()` gives `""` exactly when every character is at most U+0020 |
| `Decimal.ParseInt` | src/com/juxtaflux/Controller.java:78 | `Integer.valueOf` accepts exactly an optional sign followed by one or more ASCII digits whose value lies in the 32-bit range, and returns that value |
| `SliceSyntax.ParseSliceSyntax` | src/com/juxtaflux/Controller.java:86-105 | two or more colons give `TooManyColons` with the count; no colon gives a single index, which must parse, and a blank expression is `SingleMissing`; one colon never gives a single index; a result never has both shapes |
| `SliceSyntax.OneColonParsesBothSides` | src/com/juxtaflux/Controller.java:96-99 | with one colon, the two sides are parsed as tokens, left first, and a blank side is a missing bound |
| `SliceSyntax.ParseFormatRoundTrip` | src/com/juxtaflux/Controller.java:86-105 | every well-formed argument triple, `{null, null, null}` from `":"` included, is parsed back from its written form |
| `BufferList.DeleteSelected` | src/com/juxtaflux/Controller.java:263-273 | removing ascending, distinct positions one by one from the highest leaves the list without exactly those positions, in order, and shorter by their number |
| `BufferList.WithoutOneMore` | src/com/juxtaflux/Controller.java:268-270 | removing a position below all those already removed is removing it from what is left, which is why the loop goes highest first |
| `BufferList.Uniq` | src/com/juxtaflux/Controller.java:520-532 | the kept lines are a subsequence of the input with no equal neighbours; the first line is kept; every line still occurs; an input without adjacent duplicates is returned unchanged |
| `BufferList.UniqIsRunTails` | src/com/juxtaflux/Controller.java:524-530 | comparing each line with the last kept one gives the same list as comparing it with its neighbour |
| `BufferList.SwapBuffers` | src/com/juxtaflux/Controller.java:893-919 | the two rows trade places together with their selection states; every other row stays; the rows are permuted |
| `BufferList.MoveUp` | src/com/juxtaflux/Controller.java:784-800 | each selected row at `i` goes to `i - 1` unless every row above it is selected, in which case it stays; the unselected rows keep their order; the rows, each with its selection state, are a permutation of the original; a selection packed at the top moves nothing |
| `BufferList.MoveDown` | src/com/juxtaflux/Controller.java:802-819 | each selected row at `i` goes to `i + 1` unless every row below it is selected, in which case it stays; the unselected rows keep their order; the rows, each with its selection state, are a permutation of the original; a selection packed at the bottom moves nothing |
| `ClipListMutator.ReadAsLines` | src/com/juxtaflux/ClipListMutator.java:24 | the lines join back to the clipboard; the empty clipboard has no lines; no line holds the separator |
| `ClipListMutator.WriteThenRead` | src/com/juxtaflux/ClipListMutator.java:24-26 | lines written and read back with a one-character separator are the same lines, except that one empty line reads back as none |
| `ClipListMutator.Mutate` | src/com/juxtaflux/ClipListMutator.java:23-28 | the clipboard is written only when the transform returned, with the returned list joined by the separator; a transform that changes nothing leaves the clipboard as it was |
| `ClipListMutator.MutateList` | src/com/juxtaflux/ClipListMutator.java:33-41 | the result is the list the transform left, of unchanged length since the list is fixed-size; a failed or resizing transform writes nothing |
| `ClipListMutator.MapLines` | src/com/juxtaflux/ClipListMutator.java:49-53 | the loop succeeds exactly when the line function succeeds on every line, keeps the length, and puts the image of line `i` at `i` |
| `ClipListMutator.MutateByLine` | src/com/juxtaflux/ClipListMutator.java:44-54 | same number of lines, element `i` is `f` of line `i`, the clipboard is their join, nothing is written when `f` fails, and lines `f` fixes leave the clipboard unchanged |
| `ClipListMutator.KeepLines` | src/com/juxtaflux/ClipListMutator.java:64-69 | the loop succeeds exactly when the predicate answers on every line; the kept lines are a subsequence of the lines, all accepted, containing every accepted line; all accepted keeps everything |
| `ClipListMutator.KeepLinesExact` | src/com/juxtaflux/ClipListMutator.java:64-69 | the kept lines hold every accepted line exactly as often as the lines do, and no rejected line |
| `ClipListMutator.AcceptedLinesUnique` | src/com/juxtaflux/ClipListMutator.java:64-69 | any list of accepted lines that is a subsequence of the lines and holds each accepted line as often as they do is the kept list, so the kept list is exactly the accepted lines in order |
| `ClipListMutator.Filter` | src/com/juxtaflux/ClipListMutator.java:57-72 | it fails exactly when the predicate fails on some line, and then writes nothing; otherwise it returns the unmodified lines and the kept ones, which are exactly the accepted lines in order with their multiplicities, and the clipboard becomes the kept lines joined |
| `LegacyClipListMutator.Mutate` | src/ClipListMutator.java:15-22 | the clipboard is written only after the transform returned, with `"\n"` between lines whatever the split separator was, and, when no returned line holds a line feed, reads back on `"\n"` as those lines, except that one empty line reads back as none |
| `LegacyClipListMutator.UnchangedLinesNormaliseSeparators` | src/ClipListMutator.java:19 | a transform that changes nothing still rewrites every split separator in the clipboard as `"\n"` |
| `LegacyClipListMutator.MutateList` | src/ClipListMutator.java:25-33 | the result is exactly the list the transform returned, joined with `"\n"`; nothing is written on failure |
| `LegacyClipListMutator.MutateByLine` | src/ClipListMutator.java:35-45 | same number of lines, line `i` mapped by `f`, joined with `"\n"` |
| `ListCommands.ListSlice` | src/com/juxtaflux/Controller.java:491-509 | a parse error is reported with nothing read or written; otherwise every line is replaced by its single-index or range slice and the clipboard is their join |
| `ListCommands.SliceLines` | src/com/juxtaflux/Controller.java:501-507 | every line is replaced by its slice, the number of lines is kept, and the clipboard is the sliced lines joined with the separator |
| `ListCommands.SliceAllLeavesClipboard` | src/com/juxtaflux/Controller.java:491-509 | the expression `":"` leaves the clipboard as it was |
| `ListCommands.UniqAsWritten` | src/com/juxtaflux/Controller.java:520-532 | on a platform whose separator is `"\n"` the uniq command as written agrees with the corrected one |
| `ListCommands.UniqAsWrittenRewritesSeparators` | src/com/juxtaflux/Controller.java:531 | with separator `"\r\n"`, the clipboard `a\r\nb`, which has no duplicates, is changed to `a\nb` |
| `ListCommands.Uniq` | src/com/juxtaflux/Controller.java:520-532 | with the kept lines joined by the separator they were read with, a clipboard without adjacent duplicate lines is unchanged, the written lines are one line for each run of equal adjacent lines, and the text never grows |
| `ListCommands.UniqReadsBack` | src/com/juxtaflux/Controller.java:520-532 | with a one-character separator, reading the written clipboard back gives the kept lines, except that one empty kept line reads back as none |
| `ClipBuffer.Flatten` | src/com/juxtaflux/ClipBuffer.java:14 | the flattened length is the clip length less `|sep| - 1` for each separator; a one-line clip is unchanged; no separator is left when a space is not part of it |
| `ClipBuffer.Label` | src/com/juxtaflux/ClipBuffer.java:12-20 | a short one-line clip is shown as it is; a short multi-line clip is the whole flattened text plus `" (L chars, M lines)"` with no `"..."`; a long clip is its first 70 flattened characters, `"..."` and the summary; `L` is the flattened length and `M` the number of lines |
| `ClipBuffer.LabelShowsFlatText` | src/com/juxtaflux/ClipBuffer.java:14-19 | the label begins with up to 70 characters of the flattened clip, which hold no separator when a space is not part of it; for the separators `"\n"` and `"\r\n"` no separator occurs anywhere in the label |
| `LegacyClipBuffer.Label` | src/ClipBuffer.java:8-15 | a clip whose flattened length is at most 70 is shown flattened without a summary, even on several lines; a longer one is its first 70 flattened characters, `"..."` and `" (L chars, M lines)"` |
| `LegacyClipBuffer.LabelsAgreeExceptShortMultiLine` | src/ClipBuffer.java:10-12 | the two versions of the label agree except on short multi-line clips, where the older label is a proper prefix of the newer |

## Left out

- Strings are sequences of Unicode code points. Java counts UTF-16 units (`length()`,
  `substring`, `charAt`), so texts with characters outside the Basic Multilingual
  Plane are not modelled.
- The clipboard itself, the file and URL readers, drag-and-drop, temporary files,
  the status bar messages and the JavaFX widgets are left out. They are I/O or user
  interface. `SysClipboard.read` returning `null` is excluded by taking a string.
- `StringUtil.ExtractInitialWords`: the word count is a `nat`. A negative count makes
  `subList` throw in Java; no caller in the sources passes one, so that path is not
  modelled.
- `Decimal.ParseInt`: only ASCII digits are accepted. `Integer.valueOf` also takes
  the other Unicode decimal digits through `Character.digit`.
- `Chars.IsWhitespace` follows the current Unicode data. U+180E MONGOLIAN VOWEL
  SEPARATOR, whitespace for older Java releases, is not whitespace here.
- `ClipBuffer.Label`: `%d` is assumed to print ASCII digits without grouping.
  Locales that format digits otherwise are not modelled.
- `BufferList.DeleteSelected` works on a snapshot of the selected positions,
  ascending and distinct. The JavaFX selection list is live and shrinks as rows go.
  Removing the highest remaining row leaves the lower selected positions in place,
  so both give the same deletions. That list's event behaviour is not modelled.
- `BufferList.MoveUp` and `BufferList.MoveDown`: unselected rows can move more than
  one place (`[A, B*, C*]` becomes `[B*, C*, A]`). So only selected rows are stated
  to move at most one place. The focus handling in `swapBuffers` is not modelled.
- `ClipListMutator.WriteThenRead`, `LegacyClipListMutator.Mutate` and `ListCommands.UniqReadsBack`: the read-back round trip is proved for
  one-character separators only. It fails for separators whose end can also begin
  them: with `"aa"`, the lines `a` and `b` are written `aaab` and read back as `""`
  and `ab`. `"\r\n"` has no such overlap, and its round trip holds, but that case
  is not proved here. The round trip also needs lines free of the separator (for
  the older wrapper, free of a line feed), and a single empty line is written as
  `""`, which reads back as no lines at all.
- `LegacyClipListMutator`: the older clipboard wrapper has no line reader, so it is
  not part of this model. The lines are split with the same commons-lang splitter,
  on a separator given as a parameter. No fixed-size restriction is assumed for the
  list the older transformer receives.
- `ListCommands.ListSlice`: the clipboard is at most `Integer.MAX_VALUE` characters,
  like every Java string. The other list commands of the controller (sort, reverse,
  trim, prefix, center, contains, regex filters, join) are left out. They are
  instances of the combinators with library functions as arguments.

## Findings

| source | as written | input that shows it | evidently intended | confidence | as-written member | corrected member |
|---|---|---|---|---|---|---|
| src/com/juxtaflux/Controller.java:521,531 | the lines are read split on `System.lineSeparator()` but written back joined with `"\n"` | separator `"\r\n"` and clipboard `a\r\nb`: no adjacent duplicates, yet the clipboard becomes `a\nb` | join with the separator the lines were read with, as every other list command does | medium, not executed | `ListCommands.UniqAsWritten` (`ListCommands.UniqAsWrittenRewritesSeparators`) | `ListCommands.Uniq` |
