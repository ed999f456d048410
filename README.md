# Apple Podcasts transcript extractor, modelled in Dafny

The extractor turns the timed-text (TTML) files that Apple Podcasts caches
into plain-text transcripts. It exists three times: `extractTranscript.py`
(command line, writes files), `app.py` (a web upload form that returns
the text) and `extractTranscript.js` (command line, Node). This project
models the logic the three share, and where they differ:

- **Timestamps.** `format_timestamp` / `formatTimestamp` turn whole seconds
  into `HH:MM:SS`.
- **Paragraph text and segments.** Each `<p>` becomes one segment or none.
  - Python strips each descendant span's text, then the paragraph text.
  - JavaScript recurses into child spans, ignores a parent span's own text,
    and trims once.
  - Empty paragraphs are dropped.
  - A `[HH:MM:SS] ` prefix is added when asked for.
  - The segments are joined with a blank line.
- **Errors.** A `begin` value that does not convert escapes as a Python
  `ValueError`. In JavaScript it produces `NaN:NaN:NaN`. A parse failure is
  printed by the Python CLI, returned as an ordinary string by `app.py`, and
  rethrown by the JavaScript callback.
- **Discovery.** Python walks `os.walk` output; JavaScript recurses over
  `readdirSync`. Both keep `.ttml` files whose full path matches
  `PodcastContent([^/]+)`, and the captured group is the podcast id.
- **Output naming.** The batch loops keep a per-id counter. The k-th repeat
  of an id gets the suffix `-k`.
- **Upload filter.** `allowed_file` checks the extension after the last dot,
  lower-cased.

Modules:

| module | contents |
|---|---|
| `Wrappers` | `Option`, `Result` |
| `Text` | the two whitespace classes, trimming, joining, last-index, ASCII lower-casing |
| `Timestamp` | decimal digits, padding, `Format` and its read-back `Parse`, `'s'` removal |
| `Ttml` | the parsed tree (document, body, div, paragraph, span) and span/paragraph enumeration |
| `Assembly` | the paragraph loop shared by all three, parameterised by the per-paragraph step |
| `PyExtract` | `extract_transcript` of `extractTranscript.py`; `app.py` runs the same loop |
| `AppUpload` | `allowed_file` and `extract_transcript` of `app.py` |
| `JsExtract` | `extractTextFromSpans` and `extractTranscript` of `extractTranscript.js` |
| `Compare` | where the Python and JavaScript extractors agree, and where they differ |
| `Discovery` | `find_ttml_files`, `findTTMLFiles`, the id expression, `path.extname` |
| `Naming` | the `filename_counts` / `filenameCounts` suffix loop |

Several inputs are parameters:

- The parsed document, or the parser's error message.
- The numeric conversion of `begin`, as a function to `Option<nat>`.
  - Python passes it the value with every `'s'` removed; JavaScript passes the
    raw value.
  - `None` stands for `float()` raising, or `parseFloat` giving `NaN`.
  - `Some(n)` stands for the whole seconds the formatter floors to.
- The `os.walk` triples and the directory tree.

## Model

Predicates and functions that exist only to state properties have no row: `Text.AllIn`, `Text.Bare`, `Timestamp.IsDigit`, `Timestamp.AllDigits`, `Timestamp.ValueOf`, `Timestamp.Parse`, `Ttml.Words`, `Ttml.WordSpans`, `AppUpload.CaseOfTtml`, `Discovery.PyResult` and `Discovery.JsResult`; nor do the generic sequence lemmas `Text.SplitAt`, `Text.WholePrefix`, `Text.FrontOfSnoc`, `Text.TailOfAppend` and `Text.AppendAssoc`.

| member | source | states |
|---|---|---|
| Timestamp.Format | extractTranscript.py:12-17 | `format_timestamp` / `formatTimestamp` (extractTranscript.js:6-12) on whole seconds: the padded hour, minute and second fields joined by colons; FormatRoundTrip, FormatShape and FormatInjective state its properties |
| Timestamp.Clock | extractTranscript.py:12-17 | hours, minutes and seconds recombine to the input (h·3600 + m·60 + s = n), with minutes and seconds below 60 |
| Timestamp.ClockUnique | app.py:24-29 | that decomposition is the only one with minutes and seconds below 60 |
| Timestamp.Digits | extractTranscript.py:17 | the decimal rendering of a field, as `{h:02}` and `toString()` (extractTranscript.js:11) produce it before padding; DigitsSpec and DigitsInjective state its properties |
| Timestamp.DigitsSpec | extractTranscript.py:17 | the decimal rendering of n is non-empty, all digits, has no leading zero, and reads back as n |
| Timestamp.DigitsInjective | extractTranscript.py:17 | different numbers render differently |
| Timestamp.DigitsAtLeastTwo | extractTranscript.py:17 | a number of 10 or more renders with at least two digits |
| Timestamp.ValueOfLeadingZeros | extractTranscript.py:17 | leading zeros do not change the value a digit string reads as |
| Timestamp.AllZeros | extractTranscript.py:17 | a string of zeros reads as 0 |
| Timestamp.Pad2 | extractTranscript.py:17 | zero-padding to width 2, as the format spec `02` and `padStart(2, "0")` (extractTranscript.js:11) do; Pad2Spec states its properties |
| Timestamp.Pad2Spec | extractTranscript.js:11 | padding to width 2 gives at least two characters and never pads past width 2: a string of two or more characters is unchanged and a one-character string gains one '0'; a padded digit string is still all digits and has the same value |
| Timestamp.PaddedField | extractTranscript.js:11 | a padded field is all digits and reads back as the field's value |
| Timestamp.SmallFieldWidth | extractTranscript.py:17 | a field below 60 pads to exactly two digits |
| Timestamp.FormatRoundTrip | extractTranscript.js:6-12 | the formatted timestamp reads back, as H..H:MM:SS, as exactly the input seconds |
| Timestamp.FormatShape | extractTranscript.py:12-17 | the timestamp has at least 8 characters with the colons in place, and exactly 8 below 100 hours |
| Timestamp.FormatHours | extractTranscript.py:14-17 | the hour field is the decimal hour count, with one leading '0' only when it has a single digit, so 100 hours or more keep all their digits |
| Timestamp.Fields | extractTranscript.py:17 | in a string shaped H:MM:SS whose minute and second fields have two characters, the hour field is everything before the last six characters, and the minute and second fields sit at fixed offsets from the end |
| Timestamp.FormatInjective | app.py:24-29 | different seconds give different timestamps |
| Timestamp.FormatExamples | extractTranscript.py:12-17 | 0, 65 and 3661 seconds give 00:00:00, 00:01:05 and 01:01:01 |
| Timestamp.FormatHundredHours | extractTranscript.py:12-17 | 360000 seconds give 100:00:00 |
| Timestamp.RemoveSSpec | extractTranscript.py:38 | removing 's' leaves no 's', keeps every other character present, never lengthens the string, and changes a string without 's' not at all |
| Timestamp.RemoveS | extractTranscript.py:38 | `begin.replace("s", "")`; RemoveSAppend and RemoveSChar determine it completely |
| Timestamp.RemoveSAppend | extractTranscript.py:38 | removal acts on the pieces of a concatenation independently and keeps their order |
| Timestamp.RemoveSChar | extractTranscript.py:38 | a single 's' is removed and any other single character is kept |
| Text.IsPySpace | extractTranscript.py:33 | the characters for which `str.isspace()` holds, written out by code point: the class `str.strip()` removes |
| Text.IsJsSpace | extractTranscript.js:40 | the characters `String.prototype.trim()` removes (ECMAScript WhiteSpace and LineTerminator), written out by code point |
| Text.AllInAppend | extractTranscript.py:33 | a concatenation is whitespace-only exactly when both parts are |
| Text.TrimStart | extractTranscript.py:33 | the result is a suffix of the input, starts with a non-whitespace character (or is empty), and what was removed is whitespace |
| Text.TrimEnd | extractTranscript.py:33 | the result is a prefix of the input, ends with a non-whitespace character (or is empty), and what was removed is whitespace |
| Text.Strip | extractTranscript.py:33 | `str.strip()` (also extractTranscript.py:35): trimming by Python's whitespace class; TrimBy, TrimByInfix and TrimEmptyIff state its properties |
| Text.Trim | extractTranscript.js:40 | `String.prototype.trim()`: trimming by JavaScript's whitespace class; the same lemmas state its properties |
| Text.TrimBy | extractTranscript.js:40 | a trimmed string has no whitespace of the class at either end |
| Text.TrimByInfix | extractTranscript.py:35 | the input is the whitespace removed at its start, then the trimmed string, then the whitespace removed at its end |
| Text.TrimEmptyIff | extractTranscript.py:35-36 | trimming gives "" exactly when the input is all whitespace |
| Text.TrimBare | extractTranscript.py:35 | trimming leaves a string with no whitespace at its ends unchanged |
| Text.TrimAppendSpace | extractTranscript.py:33-35 | a trailing whitespace character disappears under trimming |
| Text.TrimStartAppend | extractTranscript.py:33-35 | leading trimming stops at the first non-whitespace character, whatever is appended |
| Text.TrimAgree | extractTranscript.js:40 | a string with no whitespace at its ends under both classes is unchanged by str.strip() and by String.prototype.trim() |
| Text.PrefixedBare | extractTranscript.py:39 | a non-empty prefix that starts with a non-whitespace character, put before a non-empty bare text, gives a non-empty bare string different from the text |
| Text.Join | extractTranscript.py:45 | `"\n\n".join(transcript)` and `transcript.join("\n\n")` (extractTranscript.js:52): the parts with the separator between neighbours; JoinEnds, JoinSnoc and JoinBare state its properties |
| Text.JoinEnds | extractTranscript.py:45 | a join of no parts is ""; a join of some parts starts with the first part and ends with the last |
| Text.JoinSnoc | extractTranscript.js:52 | appending a part adds exactly one separator and the part |
| Text.JoinBare | extractTranscript.py:45 | joining non-empty strings with no whitespace at their ends gives a string with none at its ends, empty exactly when there are no parts |
| Text.EndsWith | extractTranscript.py:57 | `file.endswith(".ttml")`: the string's last characters are the suffix |
| Text.StartsWith | extractTranscript.py:58 | `b.startswith('/')` inside `os.path.join`: the string's first characters are the prefix |
| Text.LastIndex | app.py:22 | the index found holds the character and none follows it; there is none exactly when the character does not occur |
| Text.LastIndexIs | app.py:22 | a position holding the character with none after it is the last index |
| Text.LowerChar | app.py:22 | upper-case ASCII letters move to lower case, everything else is kept |
| Text.Lower | app.py:22 | lower-casing keeps the length and maps each character |
| Ttml.Descendants | extractTranscript.py:31 | `findall(".//span")`: every span of the forest in document order, each before its own descendants; DescendantsAppend, DescendantsLast and DescendantsOfLeaves state its properties |
| Ttml.DivParagraphs | extractTranscript.py:27 | the paragraphs of a list of divs, in document order |
| Ttml.BodyParagraphs | extractTranscript.py:27 | the paragraphs of a list of bodies, in document order |
| Ttml.Paragraphs | extractTranscript.py:27 | `findall(".//p")`: the paragraphs of every div of every body, in document order; ParagraphsOfSingleDiv relates it to the JavaScript path |
| Ttml.HasText | extractTranscript.py:32 | `if span.text` and `span._` (extractTranscript.js:29) are truthy: the text is present and not empty |
| Ttml.TextOf | extractTranscript.py:33 | the span's text, "" when absent |
| Ttml.IsLeaf | extractTranscript.js:27 | `span.span` is absent: the span has no child spans |
| Ttml.DescendantsAppend | extractTranscript.py:31 | the descendant spans of two forests are those of the first, then those of the second (document order) |
| Ttml.DescendantsLast | extractTranscript.py:31 | the descendants of a forest end with its last root, then that root's descendants |
| Ttml.DescendantsOfLeaves | extractTranscript.py:31 | a forest of leaf spans is its own list of descendants |
| Ttml.WordsBare | extractTranscript.py:31-33 | the texts of word spans are as many as the spans, each non-empty with no whitespace at its ends |
| Ttml.ParagraphsOfSingleDiv | extractTranscript.js:36 | for one body holding one div, all paragraphs of the document are that div's paragraphs |
| Assembly.Collect | extractTranscript.py:29-41 | the paragraph loop shared by extractTranscript.py, app.py:40-52 and extractTranscript.js:38-50, given the per-paragraph step: the segments in order, or the first exception; CollectStep, CollectErrIff and CollectContributing state its properties |
| Assembly.Contributing | extractTranscript.py:36-41 | the paragraphs whose step yields a segment, in order; ContributingSpec and ContributingAppend state its properties |
| Assembly.CollectStep | extractTranscript.py:29-41 | one turn of the loop adds the paragraph's segment, adds nothing, or raises |
| Assembly.CollectErrPrefix | extractTranscript.py:38 | once a prefix of the paragraphs raises, the whole loop raises |
| Assembly.CollectErrIff | extractTranscript.py:29-41 | the loop raises exactly when the step raises on some paragraph |
| Assembly.CollectContributing | extractTranscript.py:29-41 | without an exception, the k-th segment is the k-th contributing paragraph's segment |
| Assembly.ContributingSpec | extractTranscript.py:36 | there are no more contributing paragraphs than paragraphs; a paragraph contributes exactly when its step yields a segment |
| Assembly.ContributingAppend | extractTranscript.py:29 | filtering keeps order across a split of the paragraph list |
| Assembly.CollectAgree | extractTranscript.js:38-50 | two steps that both succeed on every paragraph, with the same value, make the loop succeed both times with the same segments |
| PyExtract.Piece | extractTranscript.py:32-33 | what one span adds to `paragraph_text`: its stripped text and one space when its text is truthy, otherwise nothing; BlankSpanAddsSpace and PieceOfWord state its properties |
| PyExtract.Accumulate | extractTranscript.py:30-33 | `paragraph_text` after the span loop: each span with text adds its stripped text and one space; AccumulateBlank and AccumulateWords state its properties |
| PyExtract.AccumulateStep | extractTranscript.py:31-33 | one more span adds exactly its piece |
| PyExtract.ParagraphText | extractTranscript.py:30-35 | the accumulated text of all descendant spans, stripped once more; ParagraphTextEmptyIff and ParagraphTextOfWords state its properties |
| PyExtract.ParagraphTextOf | extractTranscript.py:30-35 | the inner loop computes the paragraph text: each descendant span's stripped text plus one space, stripped once more |
| PyExtract.BlankSpanAddsSpace | extractTranscript.py:32-33 | a span whose text is whitespace only still adds one space |
| PyExtract.AccumulateBlank | extractTranscript.py:30-33 | the accumulated text is whitespace only exactly when every span's text is |
| PyExtract.ParagraphTextEmptyIff | extractTranscript.py:35-36 | a paragraph's text is empty exactly when every descendant span has no text or only whitespace |
| PyExtract.PieceOfWord | extractTranscript.py:33 | a span whose text has no whitespace at its ends adds that text and one space |
| PyExtract.AccumulateWords | extractTranscript.py:30-33 | word spans accumulate to the words joined by single spaces, plus a trailing space |
| PyExtract.ParagraphTextOfWords | extractTranscript.py:30-35 | a paragraph of word spans has as text the words separated by single spaces |
| PyExtract.StripJoinSpace | extractTranscript.py:35 | the final strip removes exactly the trailing space of a join of words |
| PyExtract.Raises | extractTranscript.py:37-38 | timestamps are wanted, `begin` is present, and `float()` fails on its value without 's' |
| PyExtract.Fails | extractTranscript.py:36-38 | the paragraph raises in the loop: it has text and Raises holds |
| PyExtract.SegmentOf | extractTranscript.py:35-41 | the segment of one paragraph: nothing for empty text, ValueError for an unconvertible `begin` when timestamps are wanted, otherwise the text with or without the prefix; SegmentErrIff and SegmentShape state its properties |
| PyExtract.SegmentErrIff | extractTranscript.py:36-41 | a paragraph raises exactly when it has text, timestamps are wanted, `begin` is present and its value without 's' does not convert; it gives nothing exactly when its text is empty |
| PyExtract.SegmentShape | extractTranscript.py:37-41 | a segment equals the paragraph text exactly when no prefix applies; otherwise it is "[", a timestamp that reads back as the converted `begin`, "] " and the text; it is non-empty with no whitespace at its ends |
| PyExtract.Step | extractTranscript.py:29-41 | the loop body for one paragraph, for the given flag and conversion |
| PyExtract.Segments | extractTranscript.py:29-41 | `transcript` after the paragraph loop, or the ValueError that ended it; SegmentsRaiseIff and SegmentsKept state its properties |
| PyExtract.Kept | extractTranscript.py:36-41 | the paragraphs that append a segment, in order |
| PyExtract.SegmentsRaiseIff | extractTranscript.py:29-48 | the loop raises exactly when some paragraph has text and an unconvertible `begin` that is needed |
| PyExtract.SegmentsKept | extractTranscript.py:29-41 | the contributing paragraphs are those with text that do not raise, at most as many as all; the k-th segment is the k-th of those paragraphs' segment, in paragraph order |
| PyExtract.TranscriptOf | extractTranscript.py:29-45 | the segments joined with a blank line, or the ValueError that ended the loop; SegmentsRaiseIff, SegmentsKept and TranscriptBare state its properties |
| PyExtract.TranscriptBare | extractTranscript.py:45 | the output text has no whitespace at its ends, and is "" exactly when no paragraph contributes |
| PyExtract.BuildTranscript | extractTranscript.py:24-45 | the paragraph loop and the join compute the specified transcript, or the ValueError |
| PyExtract.ParseErrorText | extractTranscript.py:49 | the diagnostic "Error parsing TTML file: " followed by the parser's message, also returned at app.py:57; ParseErrorIndistinguishable is about it |
| PyExtract.ExtractTranscript | extractTranscript.py:20-49 | the file receives the transcript; a parse error prints the diagnostic and writes nothing; a ValueError escapes |
| AppUpload.AllowedFile | app.py:21-22 | accepted exactly when the name has a '.' and what follows its last '.' lower-cases to "ttml" |
| AppUpload.AllowedAnyCase | app.py:16-22 | a name whose last extension spells "ttml" in any case is accepted, whatever its stem (empty, or with dots of its own) |
| AppUpload.AllowedWithExtension | app.py:21-22 | an extension with no dot that lower-cases to "ttml" is accepted after any stem |
| AppUpload.LowerTtml | app.py:22 | any mix of cases of "ttml" lower-cases to "ttml" and has no dot |
| AppUpload.AllowedFileRejects | app.py:16-22 | "ttml", "a.ttml.txt", "a.ttm" and "" are refused |
| AppUpload.EndsWithTtmlAllowed | app.py:21-22 | every name ending in ".ttml" is accepted |
| AppUpload.AllowedNotEndsWith | app.py:21-22 | the filter also takes names with an upper- or mixed-case extension, which the batch extractor skips |
| AppUpload.ExtractTranscript | app.py:31-57 | returns the transcript the shared loop computes, the ValueError, or the diagnostic string on a parse error |
| AppUpload.ParseErrorIndistinguishable | app.py:56-57 | a document whose one paragraph reads "Error parsing TTML file: x" returns the same value as a parse failure with message "x" |
| AppUpload.ExtractTranscriptChecked | app.py:31-57 | corrected version: a parse failure is reported as such exactly when parsing failed, otherwise the transcript or the ValueError |
| JsExtract.LeafPiece | extractTranscript.js:29-30 | what a span without children adds: its `_` and one space when `_` is truthy, otherwise nothing; LeafPiecesBlank states its property |
| JsExtract.SpanText | extractTranscript.js:24-34 | `extractTextFromSpans`: a span with children contributes its children's text, a leaf its `_` and one space; SpanTextLeaves characterises it without recursion on children |
| JsExtract.SpanTextStep | extractTranscript.js:26-32 | one more sibling adds its children's text, or its own piece when it has none |
| JsExtract.ParagraphText | extractTranscript.js:40 | the span text of the paragraph, trimmed; ParagraphTextEmptyIff and ParagraphTextOfWords state its properties |
| JsExtract.ExtractTextFromSpans | extractTranscript.js:24-34 | the recursive forEach computes the span text: a span with children contributes its children's text, a leaf its text and one space, a leaf without text nothing |
| JsExtract.LeafPieces | extractTranscript.js:24-34 | the leaf pieces of a list of spans, each taken on its own: the closed form SpanTextLeaves compares SpanText with |
| JsExtract.LeafPiecesAppend | extractTranscript.js:26-32 | leaf pieces of two span lists concatenate |
| JsExtract.SpanTextLeaves | extractTranscript.js:24-34 | the span text is the texts of the leaf spans in document order, untrimmed, each followed by one space; a parent's own text is never read |
| JsExtract.LeafPiecesBlank | extractTranscript.js:30 | the leaf pieces are whitespace only exactly when every leaf's text is |
| JsExtract.ParagraphTextEmptyIff | extractTranscript.js:40-41 | a paragraph's text is empty exactly when every leaf span below it has no text or only whitespace |
| JsExtract.SpanTextWords | extractTranscript.js:24-34 | word spans give the words joined by single spaces plus a trailing space |
| JsExtract.ParagraphTextOfWords | extractTranscript.js:40 | a paragraph of word spans has as text the words separated by single spaces |
| JsExtract.Prefixed | extractTranscript.js:42 | `includeTimestamps && paragraph.$ && paragraph.$.begin`: timestamps wanted and `begin` present and non-empty |
| JsExtract.Stamp | extractTranscript.js:43 | `formatTimestamp(parseFloat(begin))`: the timestamp of the parsed seconds, or "NaN:NaN:NaN" when parsing gives NaN |
| JsExtract.SegmentOf | extractTranscript.js:39-48 | the segment of one paragraph: nothing without spans or text, otherwise the trimmed text with the prefix when timestamps are wanted and `begin` is truthy; SegmentShape states its properties |
| JsExtract.SegmentShape | extractTranscript.js:39-48 | a paragraph contributes exactly when its text is non-empty; the segment equals the text exactly when timestamps are not wanted or `begin` is absent or empty; otherwise it is "[", a timestamp that reads back as the parsed seconds (or NaN:NaN:NaN), "] " and the text; non-empty with no whitespace at its ends |
| JsExtract.Step | extractTranscript.js:38-50 | the forEach body for one paragraph; it never throws |
| JsExtract.FirstDivParagraphs | extractTranscript.js:36 | `result.tt.body[0].div[0].p`: the paragraphs of the first div, or the TypeError of reading through a missing body, div or paragraph list |
| JsExtract.TranscriptOf | extractTranscript.js:17-52 | the rethrown parse error, the TypeError, or the segments joined with a blank line; SegmentsKept and TranscriptBare state its properties |
| JsExtract.BuildTranscript | extractTranscript.js:38-52 | the forEach over the paragraphs never throws and yields the segments joined by a blank line |
| JsExtract.ExtractTranscript | extractTranscript.js:14-56 | a parse error is rethrown; a missing body, div or paragraph list throws TypeError; otherwise the output text of the first div's paragraphs |
| JsExtract.SegmentsKept | extractTranscript.js:36-50 | the loop never throws; the contributing paragraphs are those with non-empty text, at most as many as all; the k-th segment is the k-th of them, in order |
| JsExtract.TranscriptBare | extractTranscript.js:52 | the output text has no whitespace at its ends and is "" exactly when no paragraph of the first div has text |
| Compare.WordParagraphsAgree | extractTranscript.js:24-40 | for a paragraph of words with no whitespace at their ends, both extractors give the words separated by single spaces |
| Compare.NestedSpanDivergence | extractTranscript.js:27-28 | a span "a" holding a child span "b" reads as "a b" in Python and as "b" in JavaScript |
| Compare.NestedPy | extractTranscript.py:31-35 | the Python half of that example |
| Compare.AccumulateNested | extractTranscript.py:31-33 | a span with one child accumulates the parent's piece, then the child's |
| Compare.StripWords | extractTranscript.py:35 | stripping "a b " gives "a b" |
| Compare.NestedJs | extractTranscript.js:27-40 | the JavaScript half of that example |
| Compare.SegmentsAgree | extractTranscript.js:39-48 | a word paragraph yields the same segment in both, when every needed `begin` is non-empty and converts alike |
| Compare.TranscriptsAgree | extractTranscript.js:36-52 | a one-body, one-div document of word paragraphs gives the same transcript from both extractors under those conditions |
| Discovery.MatchAt | extractTranscript.py:58 | `PodcastContent([^/]+)` matches at a position, as `re.search` and `String.match` (extractTranscript.js:69) test it: the literal, then a character other than '/'; NoMatchWithoutP and FirstMatchIs state its properties |
| Discovery.RunEnd | extractTranscript.py:58 | the greedy `[^/]+` run ends at the next '/' or the end, with no '/' inside |
| Discovery.FirstMatch | extractTranscript.py:58 | finds the leftmost position where the expression matches, or reports that none does |
| Discovery.PodcastId | extractTranscript.py:58-62 | group 1 of `PodcastContent([^/]+)` at its leftmost match, as `match.group(1)` and `match[1]` (extractTranscript.js:69-73) read it; PodcastIdSpec characterises it |
| Discovery.PodcastIdSpec | extractTranscript.py:58-62 | an id exists exactly when the expression matches; it is non-empty, has no '/', follows the leftmost match and runs to the next '/' or the end |
| Discovery.NoMatchWithoutP | extractTranscript.py:58 | no match starts at a character other than 'P' |
| Discovery.FirstMatchIs | extractTranscript.py:58 | a match with none before it is the one found |
| Discovery.PodcastIdExample | extractTranscript.py:58-62 | the id of ".../PodcastContent123/T.ttml" is "123" |
| Discovery.PodcastIdSkipsSlash | extractTranscript.js:69 | the literal directly followed by '/' is skipped for a later occurrence |
| Discovery.PodcastIdAbsent | extractTranscript.js:69-70 | a path without the literal has no id |
| Discovery.PathJoin | extractTranscript.py:58 | os.path.join's result ends with the file name |
| Discovery.FoundFile | extractTranscript.py:57-63 | what one file name adds: its joined path and id when the name ends in ".ttml" and the path has an id, otherwise nothing; FoundInFilesSpec and FoundInFilesComplete state its properties |
| Discovery.Concat | extractTranscript.py:55-63 | the results of a loop that appends one step's results per item, in order; ConcatStep, ConcatAppend and ConcatMember state its properties |
| Discovery.ConcatStep | extractTranscript.py:55-63 | one more item adds exactly its step's results |
| Discovery.ConcatAppend | extractTranscript.py:55-63 | the results over two lists side by side are the results over the first, then over the second |
| Discovery.FileStep | extractTranscript.py:56-63 | the inner loop's body for one directory |
| Discovery.FoundInFiles | extractTranscript.py:56-63 | the inner loop's additions over one directory's files, in listing order |
| Discovery.FoundInEntry | extractTranscript.py:55-63 | the outer loop's body: what one directory of the walk contributes |
| Discovery.FoundInWalk | extractTranscript.py:55-64 | `ttml_files` after the walk; FoundInWalkSpec, FoundInWalkComplete and FoundInWalkAppend state its properties |
| Discovery.FoundInFilesStep | extractTranscript.py:56-63 | one turn of the inner loop adds the file's entry or nothing |
| Discovery.FoundInWalkStep | extractTranscript.py:55-63 | one turn of the outer loop adds the directory's entries |
| Discovery.FindTtmlFiles | extractTranscript.py:52-64 | the outer loop over the walk returns exactly the specified result list, directory by directory |
| Discovery.ScanFiles | extractTranscript.py:56-63 | the inner loop over one directory's files appends exactly that directory's results to the list built so far |
| Discovery.ConcatMember | extractTranscript.py:55-63 | an entry is in the concatenated results exactly when one of the visited items contributes it |
| Discovery.FoundInFilesSpec | extractTranscript.py:56-63 | each result of one directory comes from a file ending in ".ttml", has a path ending in ".ttml" and carries that path's id |
| Discovery.FoundInWalkSpec | extractTranscript.py:52-64 | each result comes from a ".ttml" file of the walk, ends in ".ttml" and carries its path's id |
| Discovery.FoundInFilesComplete | extractTranscript.py:56-63 | every ".ttml" file of a directory whose path has an id is found |
| Discovery.FoundInWalkComplete | extractTranscript.py:52-64 | every ".ttml" file of the walk whose path has an id is found |
| Discovery.FoundInWalkAppend | extractTranscript.py:55 | results keep walk order |
| Discovery.JsJoin | extractTranscript.js:63 | `path.join(dir, file)` for a normalised directory and a listed name: the two joined by "/" |
| Discovery.IsSlash | extractTranscript.js:68 | the separator `path.extname` ignores at the end of a path |
| Discovery.Basename | extractTranscript.js:68 | the last component of a path with trailing slashes ignored, the part `path.extname` scans; BasenameOfJoin states its property |
| Discovery.Ext | extractTranscript.js:68 | the extension of one component: from its last '.' on, empty for no dot, a leading dot or ".."; ExtTtml states its property |
| Discovery.Extname | extractTranscript.js:68 | `path.extname`: the extension of the last path component, empty for no dot, a leading dot or ".."; ExtTtml and ExtnameTtml state its properties |
| Discovery.ExtTtml | extractTranscript.js:68 | a path component has extension ".ttml" exactly when it ends in ".ttml" and is longer than ".ttml" |
| Discovery.BasenameOfJoin | extractTranscript.js:63 | the last component of a directory joined with an entry name is the name |
| Discovery.ExtnameTtml | extractTranscript.js:63-68 | for a listed entry, path.extname is ".ttml" exactly when its name ends in ".ttml" and has something before the dot |
| Discovery.FoundInEntries | extractTranscript.js:62-79 | `ttmlFiles` after the forEach: a sub-directory's results in place, a ".ttml" file with an id as one entry; FoundInEntriesSpec states its properties |
| Discovery.FindTTMLFiles | extractTranscript.js:58-80 | the recursive forEach computes the specified result list over the tree, sub-directories in place |
| Discovery.FoundInEntriesSpec | extractTranscript.js:68-75 | every result has extension ".ttml" and carries the id the expression reads from its path |
| Discovery.DotTtmlDivergence | extractTranscript.js:68 | a file named exactly ".ttml" is found by the Python walk but not by the JavaScript one |
| Naming.Occurrences | extractTranscript.py:110 | how often an id came before: the value `get(id, 0)` reads; OccurrencesStep, OccurrencesPositive and OccurrencesMonotone state its properties |
| Naming.Suffix | extractTranscript.py:111 | "" for a first file, otherwise "-" and the count; SuffixInjective states its property |
| Naming.OutputName | extractTranscript.py:111-112 | the file name `{id}{suffix}.txt`; NamesDistinctPerId and CrossIdCollision state its properties |
| Naming.Counts | extractTranscript.py:106-115 | `filename_counts` after the loop, built by `get(id, 0) + 1`; CountsSpec characterises it by occurrences |
| Naming.Paths | extractTranscript.py:108-112 | the output paths of the loop; it has one path per id, and PathsSpec gives each path in closed form |
| Naming.OccurrencesStep | extractTranscript.py:110-115 | one more file adds one occurrence of its own id and none of any other |
| Naming.OccurrencesPositive | extractTranscript.py:110 | an id has occurrences exactly when it is among the ids |
| Naming.CountsSpec | extractTranscript.py:106-115 | the counter map holds exactly the ids seen, each with its number of occurrences |
| Naming.CountsOccurrences | extractTranscript.js:110-119 | after the loop an id has a counter exactly when it occurred, and the counter is its number of occurrences |
| Naming.PathsSpec | extractTranscript.py:109-112 | there is one output path per file, and the k-th path is the directory, the id, "-c" when c > 0 copies of that id came before it, and ".txt" |
| Naming.OutputPaths | extractTranscript.py:106-115 | the loop builds the specified paths and counter map |
| Naming.LoopStep | extractTranscript.py:108-115 | one turn of the batch loop adds one path and raises one counter by one |
| Naming.PathsUnderPrefix | extractTranscript.py:112 | putting a prefix in front of the output directory puts it in front of every path |
| Naming.OutputDirsAgree | extractTranscript.js:116 | the Python batch loop writes "./" followed by the path the JavaScript loop writes for the same file |
| Naming.SuffixInjective | extractTranscript.js:115 | different counts give different suffixes |
| Naming.OccurrencesMonotone | extractTranscript.py:110-115 | a later file with the same id has seen strictly more copies of it |
| Naming.NamesDistinctPerId | extractTranscript.js:112-119 | two files with the same id get different output names |
| Naming.CrossIdCollision | extractTranscript.py:108-115 | ids "a-1", "a", "a" give the first and third file the same name "a-1.txt" |

## Left out

- XML parsing (ElementTree, xml2js). The parsed tree is an input and a parse failure is its error message.
  - Namespace filtering is not modelled. Every paragraph and span of the tree is taken to be in the TTML namespace.
  - ElementTree's `span.text` (the text before the first child) and xml2js's `span._` are both the span's `text` field.
  - xml2js turns an attribute-less, text-only span into a bare string, for which the JavaScript code reads neither `span` nor `_`. It also drops whitespace-only text. Neither is modelled.
  - The tree has no nested `<div>`s and no paragraphs outside body/div: a div holds paragraphs only. On such documents `findall(".//p")` and `body[0].div[0].p` would differ further than the model shows.
- JsExtract.ExtractTranscript: a document whose root is not `tt` (so that `result.tt` is undefined) is not modelled.
  - The error thrown inside the parser callback is treated as escaping from `extractTranscript`. How xml2js re-enters the callback is not modelled.
- The numeric conversion of `begin` (`float`, `parseFloat`) is floating point, so it is a parameter yielding whole seconds or failure. Negative and infinite values are not modelled: `Format` takes a natural number.
- Python's `str.lower()` is Unicode lower-casing; the model lower-cases ASCII only. Only the ASCII letters T, M and L lower-case to t, m and l, so `allowed_file` decides the same way.
- The two whitespace classes are written out character by character: Python's `str.isspace` and the ECMAScript WhiteSpace and LineTerminator sets.
- File access is not modelled: `os.walk`, `readdirSync`, `statSync`, every read and write, and the "Transcript saved" messages. The walk triples and the directory tree are inputs, and `os.walk`'s own traversal order is whatever the input lists.
- Discovery.JsJoin: `path.join`'s normalisation is not modelled. The model concatenates with "/", which is what `path.join` yields for a normalised directory other than "/" and a listed name.
- Discovery.FoundInEntriesSpec: states what every JavaScript result satisfies, not that every qualifying file is found. The Python walk has both directions.
- The output directory is a parameter of Naming.OutputPaths: Naming.PY_OUTPUT_DIR ("./transcripts/") for Python and Naming.JS_OUTPUT_DIR ("transcripts/") for JavaScript. Creating that directory is not modelled.
- `summarize_transcript` (an OpenAI call) and test_script.py are not modelled: they are network clients.
- The Flask routes are not modelled: `flash`, `redirect`, `secure_filename`, upload saving, and viewer.py are web plumbing.
- monitor_ttml.py is not modelled: it is a watchdog thread copying files.
- Command-line dispatch (argparse, `process.argv`) is not modelled.
- The post-loop summary step of extractTranscript.py's main is not modelled. It uses the last file's name and needs the network.

## Findings

| source | as written | input that shows it | evidently intended | confidence | as-written member | corrected member |
|---|---|---|---|---|---|---|
| app.py:56-57 | a parse failure is returned as the plain string "Error parsing TTML file: …", which the upload route then summarises like a transcript | a well-formed document whose one paragraph reads "Error parsing TTML file: x", against a malformed upload whose parser message is "x": both return the same string | the caller can tell a parse failure from a transcript | medium, not executed | AppUpload.ParseErrorIndistinguishable | AppUpload.ExtractTranscriptChecked |
