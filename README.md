# PR-Helper text processing, modelled in Dafny

PR-Helper turns a project's README into a file of numbered coding rules, and
then checks a git diff against those rules with a language model. This project
models the text logic between the model calls, and proves what that logic
promises:

- `split_markdown_into_sections` cuts the README into chunks. Its two regex
  scans are modelled by a hand-written matcher, and its
  accumulate/flush/force-split loop by the method
  `Chunker.SplitMarkdownIntoSections`.
- `format_rules` takes the JSON object out of a model reply and returns its
  `rules` member.
- `aggregate_rules` merges the rule lists of all chunks, drops repeated
  descriptions and numbers the rest. The method is
  `RuleExtraction.AggregateRules`.
- `generate_rules` runs the whole pipeline. The model's replies are inputs.
- `format_response` is the line-by-line parser of the review reply. The method
  is `ReviewUtils.FormatResponse`.
- `display_issues` is modelled as the list of lines it prints.
- The exit status of `scripts/review.py` is modelled.
- The rules-text rendering of `load_rules_from_json` is modelled, together with
  its exit-status-1 outcome.

Each method is proved equal to a specification function:

- `Chunker.SplitMarkdown`;
- `RuleExtraction.Aggregate`;
- `RuleGeneration.Generate`;
- `ReviewUtils.FormatResponseSpec`.

The properties are lemmas about those functions.

Modules, one per file:

- `Wrappers`: `Option`.
- `Text`: Python `str` operations.
- `Json`: decoded values, dict lookup and iteration.
- `Chunker`, `ChunkGroups`, `RuleExtraction` and `RuleGeneration`: source/create_rules_utils.py.
- `ReviewUtils`: source/review_utils.py and the exit test of scripts/review.py.
- `RulesFile`: source/io.py.

How Python's exceptions are modelled:

- An exception that the code catches, or that ends the run, becomes `None`, or
  `Exit(1)` where the code calls `sys.exit(1)`.
- The JSON decoder is a parameter `decode: string -> Option<Json>`, where
  `None` means the text was rejected.

Where the program's own text promises more than its code does, the model
follows the code:

- Chunk length:
  - The docstring of `split_markdown_into_sections`
    (source/create_rules_utils.py:13-14) says each section should be within
    `max_length`.
  - The code allows `max_length + 1`, because the `"\n"` joiner is not counted.
  - The code also emits a later oversized section whole.
  - See `Chunker.CombinedBound` and `Chunker.OversizedLaterSectionIsWholeChunk`.
- Failed chunks:
  - When `format_rules` cannot parse a reply, it prints that it is continuing
    with the next section (source/create_rules_utils.py:64).
  - It then returns `None`, and `aggregate_rules` raises on that `None` at
    line 117. See Findings.
  - The error message at line 59 asks for a list, but the code does not check
    that `rules` is a list.
- The review's result:
  - `generate_rules` stores the review's result in `corrected_rules`
    (source/create_rules_utils.py:177).
  - That variable is never read: the aggregated rules are returned. See
    Findings.
- tests/test_review_utils.py imports a different module (`lib.review_utils`).
  Its `format_response` expectations contradict source/review_utils.py:18.
  Its no-issues and display tests agree with the source, and so do its
  `load_rules_from_json` tests (tests/test_review_utils.py:78-123, the function
  of source/io.py:14-22 re-exported by source/review_utils.py:7). Those have
  these outcomes, stated by `RulesFile.RulesListFile`, `RulesFile.MissingOrEmptyRules`
  and `RulesFile.LoadRulesFromJson`:
  - the joined lines on success;
  - `""` for a missing `rules` key and for an empty list;
  - exit status 1 for truncated JSON.

## Model

| member | source | states |
|---|---|---|
| Chunker.SplitPieces | source/create_rules_utils.py:17 | The pieces `re.split` yields. PiecesShape and SplitFrom state their shape. |
| Chunker.FindHeadings | source/create_rules_utils.py:18 | The headings `re.findall` captures. FoundAreFirstLines states what they are. |
| Chunker.Sections | source/create_rules_utils.py:26-27 | The formatted sections. SectionShape states their count and form. |
| Chunker.Step | source/create_rules_utils.py:28-37 | One iteration of the combining loop, with its three branches. ForceSplit, OversizedBufferIsKept and ChunkGroups.PlanState state its effect. |
| Chunker.Run | source/create_rules_utils.py:26-37 | The loop state after the sections so far. EmittedGrows, RunBound and BufferStaysNonEmpty hold of it. |
| Chunker.Combined | source/create_rules_utils.py:24-39 | The chunks of the combining loop, with the final flush. CombinedText, CombinedBound and ChunkGroups.CombinedGroups state what they are. |
| Chunker.SplitMarkdown | source/create_rules_utils.py:11-40 | The whole function. NoHeadingsFallback and ChunkGroups.SplitMarkdownGroups state its two cases. |
| Chunker.BoundaryEnd | source/create_rules_utils.py:17 | A heading boundary starts at a line feed and ends after the `#` run and the whitespace after it. Its end is the end of the text or a non-whitespace character, because both `\s` runs are maximal. |
| Chunker.SplitFrom | source/create_rules_utils.py:17 | The first piece `re.split` yields is a slice of the text. It ends at a line feed or at the end of the text. |
| Chunker.PiecesShape | source/create_rules_utils.py:17 | Every piece after the first, except possibly the last, is non-empty. Every piece after the first starts where a boundary ends, at a non-whitespace character. |
| Chunker.FoundAreFirstLines | source/create_rules_utils.py:17-18 | The headings `findall` captures are exactly the first lines of the non-empty pieces after the first. So heading i is the start of the piece it is zipped with. |
| Chunker.NothingAfterTrailingBoundary | source/create_rules_utils.py:18 | A boundary that runs to the end of the text captures no heading, because `[^\n]+` needs a character. |
| Chunker.SectionShape | source/create_rules_utils.py:17-27 | There is one section per heading, and no heading is lost to `zip`. Section i is `"# " + heading + "\n" + content` whatever the heading level. The content starts with the heading text again. The heading has no line feed. |
| Chunker.DiscardedFirstLine | source/create_rules_utils.py:17-26 | The document's first line lies entirely in piece 0, which is dropped, so a heading on the first line is lost. |
| Chunker.Slices | source/create_rules_utils.py:22 | Fixed-width slicing: the slices concatenate back to the input. Each is non-empty and at most the width; all but the last are exactly the width. |
| Chunker.SlicesCount | source/create_rules_utils.py:22 | There are `ceil(L / width)` slices. |
| Chunker.NoHeadingsFallback | source/create_rules_utils.py:20-22 | With no headings, the chunks concatenate to the document. There are `ceil(L/M)` chunks, all but the last of length M, and none for empty input. |
| Chunker.EmittedGrows | source/create_rules_utils.py:24-37 | The loop never takes back a chunk it has emitted. |
| Chunker.CombinedText | source/create_rules_utils.py:24-39 | The chunks' concatenation is the sections' concatenation in order, each with or without a `"\n"` joiner before it. |
| ChunkGroups.CombinedGroups | source/create_rules_utils.py:24-39 | The chunks are cut only between sections, or inside a section that is force-split. Some sequence of groups tiles the sections `0..n-1` in order. Each group is one of two kinds:<br>- a non-empty run of whole sections joined by `"\n"` into one chunk, after a leading `"\n"` when the buffer was empty;<br>- one section longer than `max_length`, emitted as its slices.<br>The chunks are the groups' chunks in order. |
| ChunkGroups.SplitMarkdownGroups | source/create_rules_utils.py:17-40 | For a document with headings, the returned chunks tile its formatted sections in that way. |
| ChunkGroups.PlanState | source/create_rules_utils.py:24-37 | After each section, the emitted chunks are the closed groups' chunks. When no run is open, the buffer is empty and the groups tile the sections so far. Otherwise the buffer is the open run's text, and the groups tile the sections before that run. |
| Chunker.CombinedBound | source/create_rules_utils.py:28-37 | Every chunk is at most `max_length + 1` long, or is a whole section. |
| Chunker.BufferStaysNonEmpty | source/create_rules_utils.py:28-37 | Once the buffer holds text it never empties again. |
| Chunker.ForceSplit | source/create_rules_utils.py:32-35 | An oversized section that arrives while the buffer is empty is emitted as consecutive slices, each at most `max_length`. They concatenate to the section, there are `ceil(len/max)` of them, and the buffer stays empty. |
| Chunker.OversizedLaterSectionIsWholeChunk | source/create_rules_utils.py:28-31 | After the buffer fills, an oversized section becomes one whole chunk, so the docstring's length promise (lines 13-14) fails. |
| Chunker.OversizedBufferIsKept | source/create_rules_utils.py:29-39 | An oversized buffer is emitted whole, by the next section or by the final flush. |
| Chunker.FirstChunkStartsWithNewline | source/create_rules_utils.py:36-37 | When the first section fits, the buffer, and so the first chunk, starts with `"\n"`. |
| Chunker.FirstCombinedChunk | source/create_rules_utils.py:36-39 | The first chunk of such a document exists and begins with a line feed. |
| Chunker.JoinerOverflowExample | source/create_rules_utils.py:28-37 | A 5-character section with `max_length` 5 gives a 6-character chunk, so the `+1` is reachable. |
| Chunker.OversizedChunkExample | source/create_rules_utils.py:28-31 | A second section of 10 characters with `max_length` 5 is emitted whole. |
| Chunker.SplitMarkdownIntoSections | source/create_rules_utils.py:11-40 | The loop over the zipped headings and pieces returns exactly `SplitMarkdown`, the specification the lemmas above are about. |
| RuleExtraction.JsonText | source/create_rules_utils.py:48-52 | The text between the first `{` and the last `}`. JsonTextMissing, JsonTextSpan and NoClosingBrace state it. |
| RuleExtraction.FormatRules | source/create_rules_utils.py:42-64 | `format_rules`, with the decoder as a parameter. FormatRulesOutcome states its outcome. |
| RuleExtraction.DescriptionOf | source/create_rules_utils.py:118 | The stripped description, or `None` where `.get` or `.strip` raises. DescriptionStripped and UndescribableRule state it. |
| RuleExtraction.Aggregate | source/create_rules_utils.py:111-129 | `aggregate_rules`. The Aggregate* lemmas state what it keeps, in which order and under which ids. |
| RuleExtraction.JsonTextMissing | source/create_rules_utils.py:48-51 | No text is extracted exactly when there is no `{`. The `json_end == -1` test never fires. |
| RuleExtraction.JsonTextSpan | source/create_rules_utils.py:48-52 | The extracted text runs from the first `{` through the last `}`. |
| RuleExtraction.NoClosingBrace | source/create_rules_utils.py:48-53 | With no `}` after the first `{`, the slice is empty and the reply is rejected. |
| RuleExtraction.FormatRulesOutcome | source/create_rules_utils.py:46-64 | `format_rules` returns a value exactly when the extracted text decodes to a dict with a `rules` key. The value is the last `rules` member. Otherwise it returns `None`, not `[]`. |
| RuleExtraction.RulesMemberIsUnchecked | source/create_rules_utils.py:56-57 | Any `rules` value is returned, list or not. |
| RuleExtraction.DescriptionStripped | source/create_rules_utils.py:118 | A description read from a rule is stripped. |
| RuleExtraction.UndescribableRule | source/create_rules_utils.py:118 | A rule that is not a dict, or whose description is not a string, makes the aggregation raise. |
| RuleExtraction.DedupMembers | source/create_rules_utils.py:119-120 | The dict's keys are exactly the non-empty descriptions, each once. |
| RuleExtraction.DedupFirstSeenOrder | source/create_rules_utils.py:119-120 | The keys are in the order their first occurrences appear. |
| RuleExtraction.DedupOfDistinct | source/create_rules_utils.py:119-120 | Distinct non-empty descriptions are kept as they are. |
| RuleExtraction.NumberedIds | source/create_rules_utils.py:123-127 | Entry k gets id `str(k+1)`, whose decimal value is k+1, and the k-th description. |
| RuleExtraction.AggregateIds | source/create_rules_utils.py:122-127 | The ids of the result are exactly "1".."n" in order. |
| RuleExtraction.AggregateDescriptions | source/create_rules_utils.py:115-127 | The descriptions are stripped, non-empty and pairwise distinct. |
| RuleExtraction.AggregateFirstSeen | source/create_rules_utils.py:115-127 | Every description comes from the input, in first-seen order. |
| RuleExtraction.AggregateKeepsEveryDescription | source/create_rules_utils.py:116-120 | A description is listed exactly when it is non-empty and some input rule has it after stripping. |
| RuleExtraction.DescriptionOfAsJson | source/create_rules_utils.py:124-127 | An aggregated entry's dict yields its description again. |
| RuleExtraction.AggregateIdempotent | source/create_rules_utils.py:115-129 | Aggregating the output again, as a single list, returns it unchanged. |
| RuleExtraction.DuplicateDescriptionExample | source/create_rules_utils.py:115-129 | Rules a, b, a give `[{"id": "1", "description": a}, {"id": "2", "description": b}]`. |
| RuleExtraction.AggregateRules | source/create_rules_utils.py:111-129 | The nested loop then the numbering loop return exactly `Aggregate`, including the `None` outcome for a rule that raises. |
| RuleGeneration.Generate | source/create_rules_utils.py:161-179 | `generate_rules` as written. CollectedStops, FailedChunkAborts and ReviewIsDiscarded state its outcomes. |
| RuleGeneration.GenerateReviewed | source/create_rules_utils.py:161-179 | `generate_rules` with both findings corrected. ReviewIsKept and FailedChunkSkipped state it. |
| RuleGeneration.CollectedAt | source/create_rules_utils.py:170-174 | The chunk loop completes exactly when every reply has content. Entry i is then `format_rules` of reply i. |
| RuleGeneration.CollectedStops | source/create_rules_utils.py:105-107 | A reply without content ends the run; later chunks cannot undo it. |
| RuleGeneration.ChunkListsAt | source/create_rules_utils.py:116-117 | Iterating the chunk values succeeds exactly when none is `None` or a scalar. List i holds chunk i's elements. |
| RuleGeneration.FailedChunkAborts | source/create_rules_utils.py:116-117 | As written: one chunk whose reply `format_rules` rejected makes the aggregation raise. |
| RuleGeneration.SkipsFailedChunk | source/create_rules_utils.py:116-117 | Corrected: a chunk for which `format_rules` gave `None` can be removed without changing the lists. This covers a rejected reply and a `rules` member that is `null`. |
| RuleGeneration.FailedChunkSkipped | source/create_rules_utils.py:116-117 | Corrected: with a chunk whose value is `None` or `null`, the lists equal those of all the other chunks. |
| RuleGeneration.SuccessfulListsAgree | source/create_rules_utils.py:116-117 | Wherever the code as written gets the lists, the corrected code gets the same lists. |
| RuleGeneration.ReviewIsDiscarded | source/create_rules_utils.py:176-179 | As written: a review that keeps no rule still leaves every aggregated rule in the result. |
| RuleGeneration.ReviewIsKept | source/create_rules_utils.py:176-179 | Corrected: for every run whose corrected aggregation succeeds, failed chunks skipped, the result is exactly the `format_rules` value of the review's reply. |
| RuleGeneration.GenerateRules | source/create_rules_utils.py:161-179 | The function returns exactly `Generate`. It exits with status 1 on a reply without content and raises on a failed chunk. Otherwise it returns the aggregated rules. |
| ReviewUtils.Records | source/review_utils.py:18-34 | The records the parsing loop builds. RecordCount, GroupsWellGrouped, BuildRecordKeys and LastValueWins state them. |
| ReviewUtils.FormatResponseSpec | source/review_utils.py:10-39 | `format_response`. NoIssuesIff and FormatLines state its result. |
| ReviewUtils.Parse | source/review_utils.py:18 | A stripped line is recognised exactly when it starts with one of the four keys in any case, immediately followed by `:`. The value is the rest, less its leading whitespace. |
| ReviewUtils.KeyUnique | source/review_utils.py:18 | At most one key fits a line. |
| ReviewUtils.ParseAnyCase | source/review_utils.py:18-32 | Any casing of a key followed by `:` is stored under the canonical spelling, with the left-stripped rest as its value. |
| ReviewUtils.RecordsFirst | source/review_utils.py:22-32 | The first recognised line opens the first record. |
| ReviewUtils.RecordsOpen | source/review_utils.py:22-26 | A later "Rule Violated" line pushes the record so far and opens a new one. |
| ReviewUtils.RecordsExtend | source/review_utils.py:27-32 | Any other line is stored in the current record. |
| ReviewUtils.GroupsFlat | source/review_utils.py:18-34 | Records take up every recognised line, in text order. |
| ReviewUtils.GroupsWellGrouped | source/review_utils.py:22-26 | Each record's lines are non-empty. Every record but the first opens with "Rule Violated", and no other line in a record is one. |
| ReviewUtils.RecordCount | source/review_utils.py:20-34 | There is one record per "Rule Violated" line, plus one when another recognised line comes first. |
| ReviewUtils.BuildRecordKeys | source/review_utils.py:26-32 | A record holds exactly the keys of its lines, under the canonical spellings. |
| ReviewUtils.LastValueWins | source/review_utils.py:26-32 | A key repeated within a record keeps the last value given. |
| ReviewUtils.RecordsWellFormed | source/review_utils.py:18-34 | Every record is non-empty, uses only the four canonical keys, and never holds "Message". |
| ReviewUtils.FormatLines | source/review_utils.py:36-39 | The result is never empty. |
| ReviewUtils.NoIssuesIff | source/review_utils.py:33-39 | The result is exactly `[{"Message": "No issues found."}]` exactly when no line is recognised. |
| ReviewUtils.UnrecognisedLineIgnored | source/review_utils.py:13-19 | Deleting a blank or unrecognised line leaves the result unchanged. |
| ReviewUtils.FormatResponse | source/review_utils.py:10-39 | The loop over the stripped lines returns exactly `FormatResponseSpec`, the specification the lemmas above are about. |
| ReviewUtils.DisplayIssues | source/review_utils.py:78-90 | The lines `display_issues` prints. DisplayLayout states them. |
| ReviewUtils.AllIssueLinesLayout | source/review_utils.py:85-90 | There are five lines per issue, in order. Line `5i+j` is line j of issue i's block. |
| ReviewUtils.DisplayLayout | source/review_utils.py:82-90 | A sentinel first record prints exactly "No issues found.". Otherwise each issue prints four `"Key: value"` lines, "N/A" where a field is missing, then 80 dashes. |
| ReviewUtils.DisplayMissingFields | tests/test_review_utils.py:286-304 | An issue without line numbers or suggestion prints "N/A" for both. |
| ReviewUtils.ReviewFailsOnIssues | scripts/review.py:25-26 | On a parsed reply the review exits with 1 exactly when some line was recognised. When none was, it prints only "No issues found.". |
| RulesFile.RuleLine | source/io.py:18 | `f"{rule['id']}. {rule['description']}"`, `None` where it raises. RuleLineDefined states it. |
| RulesFile.RenderLines | source/io.py:18 | The lines of all rules. RenderLinesDefined and RenderLinesAt state them. |
| RulesFile.LoadRulesFromJson | source/io.py:14-22 | Every failure ends in exit status 1. |
| RulesFile.RuleLineDefined | source/io.py:18 | A rule renders exactly when it is a dict with both `id` and `description`. |
| RulesFile.RenderLinesDefined | source/io.py:18 | The list renders exactly when every rule does. |
| RulesFile.RenderLinesAt | source/io.py:18 | Line i is rule i's `"<id>. <description>"`. |
| RulesFile.LoadOutcome | source/io.py:14-22 | The file renders exactly when all of these hold:<br>- it is readable;<br>- it decodes to a dict;<br>- its `rules` value iterates, a missing key counting as `[]`;<br>- every rule has both keys. |
| RulesFile.MissingOrEmptyRules | source/io.py:17 | A missing `rules` key, or an empty list, renders as `""`. |
| RulesFile.RuleWithoutKeyExits | source/io.py:18-22 | A rule lacking `id` or `description` gives exit status 1. |
| RulesFile.RenderedLines | source/io.py:18 | With no line feed inside a line, the text splits back into one line per rule, in order. There is no trailing newline. |
| RulesFile.RuleLineOfAsJson | source/io.py:18 | An aggregated entry renders as its id, `". "` and its description. |
| RulesFile.RenderNumbered | source/io.py:18 | A list numbered from 1 renders as `"1. d1"`, `"2. d2"` and so on. |
| RulesFile.RenderAggregate | source/io.py:18 | The output of `aggregate_rules` renders as consecutively numbered lines. |
| RulesFile.RulesListFile | source/io.py:16-19 | A file whose only member is a `rules` list renders that list's lines joined by `"\n"`, or exits. |
| RulesFile.TwoRuleLines | tests/test_io.py:13-15 | The two rules of the test render as "1. Rule one" and "2. Rule two". |
| RulesFile.TwoRuleFile | tests/test_io.py:13-17 | The test's file loads as `"1. Rule one\n2. Rule two"`. |
| Text.Strip | source/review_utils.py:14 | `strip()` leaves no whitespace at either end and never lengthens the text. |
| Text.StripRemovesEnds | source/review_utils.py:14 | `strip()` removes whitespace only, and only at the two ends. |
| Text.StripPadded | source/review_utils.py:14 | Whitespace around stripped text is exactly what `strip()` removes. |
| Text.LStripRemovesLead | source/review_utils.py:18 | The `\s*` before the value removes exactly the leading whitespace. |
| Text.SplitLines | source/review_utils.py:13 | `splitlines()` yields lines without line breaks, and none for the empty text. |
| Text.SplitLinesSingle | source/review_utils.py:13 | A non-empty text without line breaks is one line. |
| Text.Find | source/create_rules_utils.py:48 | `find` gives the first position of the character, or -1 when it is absent. |
| Text.RFind | source/create_rules_utils.py:49 | `rfind` gives the last position of the character, or -1 when it is absent. |
| Text.NatToString | source/create_rules_utils.py:125 | `str(idx)` is a non-empty string of digits without a leading zero. |
| Text.DecimalOfNatToString | source/create_rules_utils.py:125 | `str(idx)` reads back as idx. |
| Text.NatToStringInjective | source/create_rules_utils.py:125 | Distinct indices give distinct ids. |
| Text.SplitOnJoin | source/io.py:18 | Splitting on `"\n"` undoes the join when no line contains `"\n"`. |
| Text.JoinSplitOn | source/io.py:18 | Joining with `"\n"` undoes the split. |
| Json.LookupLast | source/create_rules_utils.py:56-57 | A dict lookup finds a value exactly when some member has the key. The value is the last such member's. |

## Findings

| source | as written | input that shows it | evidently intended | confidence | as-written member | corrected member |
|---|---|---|---|---|---|---|
| source/create_rules_utils.py:176-179 | `corrected_rules = review_rules(...)` is computed, then `{"rules": aggregated_rules}` is returned. | A run whose review reply is `{"rules": []}` while the aggregate is non-empty: the saved file still holds every aggregated rule. | Return the reviewed rules. | medium (not executed) | RuleGeneration.ReviewIsDiscarded | RuleGeneration.ReviewIsKept |
| source/create_rules_utils.py:116-117 | `format_rules` returns `None` on a bad reply and prints "Continuing parsing next section...". `for rule in None` then raises `TypeError`. | One chunk whose reply contains no `{`: the whole aggregation raises. | Skip the chunk: `if rules is None: continue` before line 117. | medium (not executed) | RuleGeneration.FailedChunkAborts | RuleGeneration.FailedChunkSkipped |

`RuleGeneration.GenerateReviewed` is the corrected `generate_rules`, with both
fixes applied.

## Left out

- The language-model calls are not modelled:
  - `generate_rules_from_chunk`, `review_rules` and `check_diff_with_gpt`(`source/create_rules_utils.py:66-108, 131-158`; `source/review_utils.py:41-76`).
  - Their prompts are not modelled. Their replies are function inputs, and a reply without content is `None`.
- JSON decoding and encoding are not modelled. `json.loads`/`json.load` are the `decode` parameter. `json.dump` and `save_rules_to_json` are not modelled.
- File I/O is not modelled: `open`, `load_markdown` and the file handling of `load_rules_from_json`. The file's text is an input, `None` when it cannot be read.
- The messages printed before `sys.exit(1)` are not modelled; only the status is.
- The diagnostic prints of `format_rules` (`source/create_rules_utils.py:61-64`) and the progress prints of `generate_rules` are I/O, and are not modelled.
- source/git_helpers.py, the argparse and credential checks of the scripts, and the empty-diff short cut (`scripts/review.py:15-18`) are I/O plumbing, and are not modelled.
- The regex engine is not modelled in full:
  - backtracking corner cases at the end of the input are not modelled;
  - `\s` and `str.strip()` use the ASCII whitespace set, not Python's Unicode whitespace;
  - `re.IGNORECASE` folds ASCII letters only, with no Unicode case folding.
- Chunker.SplitMarkdownIntoSections: requires `max_length > 0`. The caller passes 3000. For 0, Python's `range` raises.
- RuleExtraction.AggregateRules: the `suggestion` that the dict stores is never read, so it is not kept.
- ReviewUtils.UnrecognisedLineIgnored: stated over the list of lines rather than over the raw text, so deleting a line's terminator is not covered.
- Json.Iterate: a key repeated in a decoded document is visited as often as it occurs. Every caller fails on the first key, so no outcome changes.
- Json.Repr:
  - `repr()` escaping and the choice of quote are not modelled.
  - A number is carried as the text Python prints for it.
- RuleGeneration.Generate:
  - The returned dict is modelled as its `rules` value.
  - Which reply ended the run is not kept; every such exit has status 1.
- The stderr and stdout of the scripts are not modelled.
