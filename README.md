# Translation assistant and review report, modelled in Dafny

This project models two small tools from one repository.

- **qt-translation-assistant** fills in unfinished entries of Qt `.ts`
  translation files. It does this in four steps:
  1. It scans a file for `<translation type="unfinished">` elements that
     follow a `<source>` line.
  2. It cuts the items into batches and sends each batch to a translation
     service, with retries.
  3. It collects the per-batch results in whatever order the batches complete.
  4. It writes each translation back into the opening line of its element.
- **github-review-report** classifies pull-request reviews:
  - a problem type from a keyword table, and a severity;
  - a filter for approval-only or automated reviews, and a filter that admits
    only the `sourcery-ai` reviewer;
  - a date truncation, and an impact snippet;
  - a length-bounded summary of AI reviews;
  - the extraction of report rows from a pull request's reviews.

The model follows the code as written, in the code's own form:
- **Loops become methods.** The scanning and writing loops, the batching loop,
  the retry loop, the aggregation loop, the fence, label, sentence and budget
  loops of the AI summary, and the review filter loop are methods with loop
  invariants. Each is proved equal to a specification function.
- **In-place writes use an array.** The file's lines are an `array<string>`
  that `WriteTranslationsBack` and `TranslateSingleFile` update in place.
- **The rest are functions.** The expression-level and early-return helpers are
  functions and recursive functions.

The translation service is a parameter, `Service = (Request, nat) -> Attempt`.
Because it is a function, two batches with the same strings, language and file
get the same answers at the same attempt number; no lemma relies on this.
It gives, for each request and attempt number, one of:
- a failure, meaning any exception;
- a parsed list of pairs;
- an unparseable response, which the parser turns into the identity list.

The order in which the thread pool completes batches is a parameter too: any
permutation of the batch indices.

Where the documented behaviour and the code differ, the model follows the code:
- **A capped multi-line element is emitted.** When no closing line turns up
  within the 21 lines the look-ahead inspects after the opening line, the element is still emitted, with
  `end_line_number` equal to `line_number + 21`. It is dropped only when the
  look-ahead runs off the end of the file.
- **A multi-line element is never written.** Every accepted opening line also
  closes on that line (`TsPatch.UnfinishedLineCloses`). So the multi-line
  branch of the write-back never runs for items from the scan.
- **An unclosed-looking tag is counted but not rewritten.** The second
  unfinished pattern (translate.py:309) accepts
  `<translation type="unfinished"</translation>`, with no `>` after the
  attribute. Neither substitution matches that line, because both need a `>`
  or a `/>` after the attribute. The line is written back unchanged, yet the
  item adds one to the modified count (`TsPatch.UnclosedUnfinishedCountedUnchanged`,
  `TsPatch.UnclosedItemCounted`).
- **An unparseable response is not retried.** The parser returns the identity
  list, whose length matches, and the retry loop accepts it.
- **A failed service call is not retried.** The `except` clause at
  translate.py:34 names `requests`, a name bound only inside `_call_llm_api`.
  Any exception from an attempt therefore leaves `translate_batch` as a
  `NameError`. `_translate_batches_parallel` then falls back to the identity
  pairs for that batch.
- **A batch size of 0 raises `ValueError`.** It escapes `translate_single_file`
  and leaves the file unchanged. A negative batch size produces no batches and
  reports a count of 0; the file is then rewritten with its own lines, unchanged.
- **Only `sourcery-ai` is ever included.** `should_include_reviewer` returns
  `False` for every other name before its pattern checks.
- **Sentences can repeat in the AI summary.** The summary splits the whole text
  again for each separator, so a sentence may appear once per separator. The
  text never holds a newline by then, so the newline pass adds the whole
  stripped text as one more sentence (`ReviewSummary.NewlinePassRepeatsText`).
- **The first two summary sentences run together.** generator.py:356 reads
  `result += sentence + '。' if result else sentence`. Python parses this as
  `result += (sentence + '。' if result else sentence)`. So the first sentence
  is added bare, the second follows it with no separator, and every later
  sentence is added with a "。" after it rather than before it.
  `ReviewSummary.Take` does the same.

## Model

| member | source | states |
|---|---|---|
| TsExtract.FindUnfinishedTranslations | qt-translation-assistant/translate.py:144-188 | the scan's result is exactly `Extracted(lines, path)`, the fold of the per-line step over the file |
| TsExtract.ScanToClose | qt-translation-assistant/translate.py:173-177 | the look-ahead loop stops where `ScanEnd` says |
| TsExtract.ScanEnd | qt-translation-assistant/translate.py:173-177 | the look-ahead stops at the first later line holding `</translation>`, at the end of the file, or one past the 21st line after the opening one, and no line it passes closes the element |
| TsExtract.EmitAtUnit | qt-translation-assistant/translate.py:158-185 | a line yields at most one item, numbered with its 1-based line number, and only when it is a marked translation line under a pending source |
| TsExtract.EmittedSound | qt-translation-assistant/translate.py:152-186 | every item carries its pending source, an empty translation, the file path and a valid span, and item line numbers strictly increase |
| TsExtract.EmittedComplete | qt-translation-assistant/translate.py:152-186 | line `i` has an item exactly when the scan emits there |
| TsExtract.PendingNonEmpty | qt-translation-assistant/translate.py:153-155 | a captured source is non-empty and holds no `<` |
| TsExtract.SourceLineBetweenUnits | qt-translation-assistant/translate.py:153-186 | between two items there is a `<source>` line, because the pending source is cleared after each marked line |
| TsPatch.UnfinishedLineCloses | qt-translation-assistant/translate.py:307-315 | a line accepted by the five unfinished patterns closes on the same line (`</translation>` or `/>`) |
| TsPatch.TranslationMap | qt-translation-assistant/translate.py:288 | the map's keys are exactly the result sources |
| TsPatch.TranslationMapLastWins | qt-translation-assistant/translate.py:288 | for a source listed more than once, the last translation wins |
| TsPatch.SubFromNoMatch | qt-translation-assistant/translate.py:322-339 | with no match left, substitution copies the rest of the line |
| TsPatch.SubFromCopies | qt-translation-assistant/translate.py:322-339 | where no match starts, substitution copies the line character by character |
| TsPatch.SubFromFirstMatch | qt-translation-assistant/translate.py:322-339 | substitution copies the line up to its first match, then puts the replacement there |
| TsPatch.PatchUnit | qt-translation-assistant/translate.py:291-345 | an item that fails a check leaves the lines unchanged and does not count; one that passes changes only its own span, and a single-line item changes only its opening line |
| TsPatch.RewriteEmptyUnfinished | qt-translation-assistant/translate.py:315-333 | a line holding one empty `<translation type="unfinished"></translation>` is unfinished and becomes the same line with `<translation>` + translation + `</translation>` in its place |
| TsPatch.RewriteSelfClosedUnfinished | qt-translation-assistant/translate.py:315-333 | a line holding one `<translation type="unfinished"/>` is unfinished and, when no `</translation>` follows it, becomes the same line with `<translation>` + translation + `</translation>` in its place |
| TsPatch.RewriteOpenUnfinished | qt-translation-assistant/translate.py:335-340 | on the multi-line branch, the opening tag `<translation type="unfinished">` becomes `<translation>` followed by the translation, and the rest of the line is kept |
| TsPatch.UnclosedUnfinishedCountedUnchanged | qt-translation-assistant/translate.py:307-333 | a line holding `<translation type="unfinished"</translation>` is accepted as unfinished and both substitutions leave it unchanged |
| TsPatch.UnclosedItemCounted | qt-translation-assistant/translate.py:291-345 | a single-line item on such a line, with a translation, leaves the file unchanged yet counts as modified |
| TsPatch.FilledUnfinishedSkipped | qt-translation-assistant/translate.py:307-319 | a line whose unfinished translation already holds non-blank text is not accepted, so the item is skipped |
| TsPatch.PatchExtractedWrites | qt-translation-assistant/translate.py:291-345 | after the write-back, the opening line of each scanned item is its substituted line when the item passes the three checks, and its old line otherwise |
| TsPatch.PatchAllFrame | qt-translation-assistant/translate.py:291-343 | a line outside every item's span is unchanged |
| TsPatch.PatchAllNoneApplies | qt-translation-assistant/translate.py:293-295 | with no translation for any source, nothing changes and the count is 0 |
| TsPatch.PatchExtractedOnlyOpeningLines | qt-translation-assistant/translate.py:291-343 | for items from the scan, only their opening lines can change |
| TsPatch.PatchExtractedCount | qt-translation-assistant/translate.py:345 | the modified count is the number of items that pass all three checks |
| TsPatch.BlankRange | qt-translation-assistant/translate.py:342-343 | the lines in `[a, b)` become empty and no other line changes |
| TsPatch.WriteTranslationsBack | qt-translation-assistant/translate.py:284-350 | the new lines and the count are those of `PatchAll` over the items, in order, with the translation map |
| TsTranslate.IdentityMap | qt-translation-assistant/translate.py:215-220 | in the identity results every source maps to itself |
| TsTranslate.LanguageIsAfterFirstUnderscore | qt-translation-assistant/translate.py:190-196 | the language is the stem after its first `_`, or "unknown" when the stem has no `_` |
| TsTranslate.LanguageExample | qt-translation-assistant/translate.py:190-196 | "app_zh_CN.ts" gives "zh_CN" |
| TsTranslate.LanguageExampleEmpty | qt-translation-assistant/translate.py:192-195 | "app_.ts" gives the empty language |
| TsTranslate.LanguageExampleUnknown | qt-translation-assistant/translate.py:196 | "app.ts" gives "unknown" |
| TsTranslate.BatchesOfBounds | qt-translation-assistant/translate.py:242-245 | the batch count `c` is 0 exactly for no items, and otherwise `(c - 1) * size < n <= c * size` |
| TsTranslate.BatchesOfCount | qt-translation-assistant/translate.py:242-245 | the number of batches is `ceil(n / size)` |
| TsTranslate.BatchesOfFlatten | qt-translation-assistant/translate.py:242-245 | the batches, concatenated, are the items in order |
| TsTranslate.BatchesOfSizes | qt-translation-assistant/translate.py:242-245 | every batch is non-empty and at most `size` long, all but the last are exactly `size` long, and all carry the language and file |
| TsTranslate.CreateBatches | qt-translation-assistant/translate.py:239-246 | batch size 0 raises `ValueError`, a negative size gives no batches, a positive one gives `BatchesOf` |
| TsTranslate.TranslateBatch | qt-translation-assistant/translate.py:17-43 | the retry loop's outcome is `TranslateBatchSpec` |
| TsTranslate.AttemptsFromLength | qt-translation-assistant/translate.py:24-43 | a returned list has one pair per input string |
| TsTranslate.TranslateBatchLength | qt-translation-assistant/translate.py:17-43 | a returned list has one pair per input string |
| TsTranslate.FirstMatchAccepted | qt-translation-assistant/translate.py:24-32 | after mismatched responses, the first response of the right length is returned |
| TsTranslate.FailureEscapes | qt-translation-assistant/translate.py:25-41 | an exception in any attempt, after mismatches only, escapes as `NameError` |
| TsTranslate.ExhaustedFallsBack | qt-translation-assistant/translate.py:24-43 | when every attempt is mismatched, the identity pairs are returned |
| TsTranslate.UnparseableAccepted | qt-translation-assistant/translate.py:26-30 | an unparseable first response is accepted as the identity pairs, with no retry |
| TsTranslate.TranslateSingleBatch | qt-translation-assistant/translate.py:274-282 | the worker returns `SingleBatchSpec`: a length mismatch falls back to identity and an exception propagates |
| TsTranslate.BatchBlock | qt-translation-assistant/translate.py:259-270 | each batch contributes exactly one pair per item, also on the fallback path |
| TsTranslate.AllFailedBlock | qt-translation-assistant/translate.py:264-270 | when every service call fails, a batch contributes its identity pairs |
| TsTranslate.CompletionOrderBounds | qt-translation-assistant/translate.py:252-258 | a completion order lists each batch index exactly once |
| TsTranslate.SizeSumPermutation | qt-translation-assistant/translate.py:258-270 | the total size of the batches does not depend on the completion order |
| TsTranslate.AggregateLength | qt-translation-assistant/translate.py:248-272 | in any completion order, the aggregate has one pair per item |
| TsTranslate.TranslateBatchesParallel | qt-translation-assistant/translate.py:248-272 | the collected results are the fold over the completion order, one pair per item |
| TsPipeline.BatchesFor | qt-translation-assistant/translate.py:227-246 | the item list gives `ceil(n / size)` batches, or none for a size that is not positive |
| TsPipeline.CopySources | qt-translation-assistant/translate.py:217-219 | the unknown-language results are the identity pairs of the item sources |
| TsPipeline.TranslateSingleFile | qt-translation-assistant/translate.py:198-237 | the status and the new file contents are `FileOutcome` of the old contents |
| TsPipeline.SkippedIffNothingFound | qt-translation-assistant/translate.py:201-208 | the file is skipped exactly when the scan finds nothing, and is then unchanged |
| TsPipeline.ReportedCount | qt-translation-assistant/translate.py:215-236 | the reported count and language for unknown, known, negative and zero batch sizes |
| TsPipeline.OnlyOpeningLinesChange | qt-translation-assistant/translate.py:220-343 | translating a file changes only opening lines of scanned items, and keeps the line count |
| TsPipeline.UnknownLanguageCopiesSources | qt-translation-assistant/translate.py:215-220 | for an unknown language, an item is written, with its own source, exactly when its opening line is unfinished; its opening line is then the substituted line with the source as translation |
| TsPipeline.OpeningLineWritten | qt-translation-assistant/translate.py:215-229 | whenever the file is written, each item's opening line is the write-back's line for it with the translations of the collected results |
| TsPipeline.UnknownLanguageFillsEmpty | qt-translation-assistant/translate.py:215-220 | for an unknown language, an empty unfinished translation on an item's opening line is filled with the item's source text, and the rest of the line is kept |
| ReviewRules.FirstKeywordType | github-review-report/generator.py:98-102 | the type is 15 exactly when no keyword of the table occurs, and in 1..15 otherwise |
| ReviewRules.FirstKeywordDecides | github-review-report/generator.py:98-100 | the first keyword in table order that occurs decides the type |
| ReviewRules.ProblemType | github-review-report/generator.py:63-102 | the type is in 1..15, and is 15 exactly when none of the 23 keywords occurs in the lower-cased text |
| ReviewRules.ProblemTypeOfFirstKeyword | github-review-report/generator.py:69-100 | otherwise the type is that of the first keyword present, in table order |
| ReviewRules.MemoryBeforeComment | github-review-report/generator.py:72-100 | a text with "内存" and "注释" and no security keyword is type 12 |
| ReviewRules.Severity | github-review-report/generator.py:105-114 | "严重" exactly for types 8 and 12, "一般" otherwise |
| ReviewRules.CriticalOfFirstKeyword | github-review-report/generator.py:98-114 | a review is critical exactly when its first keyword is a security or memory keyword |
| ReviewRules.AnyOccursSpec | github-review-report/generator.py:144-146 | the phrase loop rejects exactly when some phrase occurs |
| ReviewRules.MergeCoversLaterPatterns | github-review-report/generator.py:131-142 | the six phrases after "merge" all contain "merge" |
| ReviewRules.ValidPersonReviewIff | github-review-report/generator.py:117-152 | a review counts exactly when its body is not blank and has at least 10 characters, and its lower-cased, stripped body holds none of "approved", "lgtm", "looks good to me", "merge"; the state plays no part |
| ReviewRules.FormatDateOnly | github-review-report/generator.py:200-209 | the result is the prefix before the first `T`, or the whole input, and holds no `T` |
| ReviewRules.FormatDateOnlyIdempotent | github-review-report/generator.py:207-209 | truncating twice is truncating once |
| ReviewRules.FormatDateOnlyExample | github-review-report/generator.py:209 | "2026-01-22T14:30:00Z" gives "2026-01-22" |
| ReviewRules.OnlySourceryIncluded | github-review-report/generator.py:238-265 | a reviewer is included exactly when the lower-cased name is "sourcery-ai", whatever the patterns |
| ReviewRules.SummarizeForPerson | github-review-report/generator.py:268-278 | the result is the body's own text between its leading and its trailing white space: a run of the body with only white space around it, starting and ending with a non-space, and empty only for an all-space body |
| ReviewRules.SummarizeForPersonUnique | github-review-report/generator.py:278 | any run of the body with only white space around it and no white space at its ends is the summary |
| ReviewRules.SummarizeForPersonIdempotent | github-review-report/generator.py:278 | summarizing twice is summarizing once |
| ReviewRules.FirstPresent | github-review-report/generator.py:300-301 | none exactly when no keyword occurs, otherwise the first keyword in list order that occurs |
| ReviewRules.ImpactAnalysisNone | github-review-report/generator.py:281-310 | "无" exactly when the stripped text is shorter than 10 characters or holds none of the 15 keywords |
| ReviewRules.ImpactSnippet | github-review-report/generator.py:300-307 | otherwise the result has at most 25 characters, is stripped, is part of the text and holds the first keyword present |
| ReviewRules.SnippetAround | github-review-report/generator.py:302-306 | the window from 5 before to 20 after an occurrence of a keyword, stripped, has 2 to 25 characters, is part of the text and holds the keyword |
| ReviewSummary.ProseLines | github-review-report/generator.py:325-331 | the fence loop's kept lines are those of the `ScanFrom` fold |
| ReviewSummary.ScanInsideBlock | github-review-report/generator.py:327-331 | inside a code block, lines that are not fences change nothing |
| ReviewSummary.ScanKeptClean | github-review-report/generator.py:327-331 | every kept line is stripped, non-blank and not a fence |
| ReviewSummary.FencedBlockIgnored | github-review-report/generator.py:327-331 | a block from a fence line to the next fence line contributes nothing to the kept lines |
| ReviewSummary.StripLabels | github-review-report/generator.py:336-340 | the label loop's result is `RemovePrefixes` over the six labels in order |
| ReviewSummary.RemovePrefixesPart | github-review-report/generator.py:337-340 | what remains is part of the text and no longer than it |
| ReviewSummary.RemovePrefixesSettled | github-review-report/generator.py:337-340 | each label is tried once, so labels after the last match change nothing |
| ReviewSummary.LabelOrderMatters | github-review-report/generator.py:337-340 | "Warning: Note: x" gives "Note: x", because "Note:" is tried before "Warning:" |
| ReviewSummary.Pieces | github-review-report/generator.py:344-346 | the pieces are the fields of the split that are not blank once stripped, stripped: each such field gives a piece, every piece is such a field, and no piece holds the separator |
| ReviewSummary.NonBlank | github-review-report/generator.py:345-346 | a field is kept, stripped, exactly when it is not blank once stripped: each such field gives a piece and every piece is a stripped field |
| ReviewSummary.NoNewlinePieces | github-review-report/generator.py:344-346 | splitting a text without newlines at `\n` gives the stripped text alone |
| ReviewSummary.NewlinePassRepeatsText | github-review-report/generator.py:327-346 | the text to split holds no newline, so its `\n` pass yields the stripped text alone |
| ReviewSummary.CollectSentences | github-review-report/generator.py:342-346 | the sentence list is the pieces for each separator in turn, each split taken from the whole text |
| ReviewSummary.Meaningful | github-review-report/generator.py:349 | a sentence of the list is kept exactly when it is longer than 10 characters |
| ReviewSummary.MeaningfulKeepsLong | github-review-report/generator.py:349 | a list of long sentences is kept whole |
| ReviewSummary.MeaningfulSnoc | github-review-report/generator.py:349 | a sentence added at the end of the list is kept after the others exactly when it is longer than 10 characters |
| ReviewSummary.MeaningfulAppend | github-review-report/generator.py:349 | the filter keeps the list's order: filtering a concatenation is concatenating the filtered parts |
| ReviewSummary.TakeSentences | github-review-report/generator.py:351-356 | the budget loop's result is `Take` |
| ReviewSummary.TakeBound | github-review-report/generator.py:352-356 | the accumulated text exceeds the budget by at most its last "。" |
| ReviewSummary.TakeNothing | github-review-report/generator.py:353-355 | when every sentence is longer than the budget, nothing is taken |
| ReviewSummary.SliceTo | github-review-report/generator.py:360 | `s[:k]` is the prefix of `s` of length `k`, with a negative `k` counting from the end |
| ReviewSummary.SummarizeForAi | github-review-report/generator.py:313-362 | the summary is `SummaryOf` the body and budget |
| ReviewSummary.SummaryWithinBudget | github-review-report/generator.py:351-362 | for a budget of 0 or more, the summary has at most that many characters |
| ReviewSummary.SentenceSummaryWithinBudget | github-review-report/generator.py:351-362 | for any list of sentences longer than 10 characters and a budget of 0 or more, the accumulated, trimmed and stripped summary has at most that many characters |
| ReviewSummary.SummaryNegativeBudget | github-review-report/generator.py:358-362 | a negative budget gives "..." |
| ReviewSummary.SummaryIgnoresFencedCode | github-review-report/generator.py:325-362 | fenced code does not change the summary |
| ReviewExtract.SuggestionOf | github-review-report/generator.py:399-404 | an entry keeps the body, author and time, and its type is the body's problem type |
| ReviewExtract.KeptFollowsReviews | github-review-report/generator.py:382-404 | the kept reviews keep their order, each at most once, and a review is kept exactly when the filter accepts it |
| ReviewExtract.SuggestionsOfKept | github-review-report/generator.py:382-404 | the entries are the accepted reviews, each turned into its entry |
| ReviewExtract.SuggestionsFollowReviews | github-review-report/generator.py:382-404 | entry `k` comes from review `idx[k]`, positions strictly increase, and a review has an entry exactly when it passes all three filters |
| ReviewExtract.SuggestionsCount | github-review-report/generator.py:382-404 | there is at most one entry per review, and one per review exactly when all pass |
| ReviewExtract.SuggestionsSound | github-review-report/generator.py:388-404 | every entry is a valid person review by "sourcery-ai", typed by its own body |
| ReviewExtract.ExtractReviewSuggestions | github-review-report/generator.py:365-407 | the loop's result is `Suggestions(reviews)` |

## Left out

- The HTTP call `_call_llm_api`, the `time.sleep` backoff and the prompt text are
  not modelled. The service is the `Service` parameter.
- JSON parsing and the regular-expression search in
  `_parse_translation_response` are not modelled. Their outcome is part of each
  service answer.
- Threads are not modelled: the `ThreadPoolExecutor`, `as_completed` and the
  unused lock. Aggregation is a sequential fold over a completion order given
  as a parameter. The model has no `max_workers`, so it cannot show that
  `ThreadPoolExecutor(max_workers=self.max_workers)` (translate.py:252) raises
  `ValueError` when `max_workers <= 0`.
- File and process I/O are not modelled: reading and writing files, `load_config`,
  `process_directory`, its directory walk, timing and printing. Two facts about
  that code are kept here only as notes:
  - the unknown-language result lacks the 'language' key that
    `process_directory` reads;
  - no path of `translate_single_file` produces the status 'failed'.
- `re.sub` template semantics are not modelled. The translation is inserted
  literally, whereas the source passes it as a replacement template, so
  backslashes in it would be interpreted there. Some translations make `re.sub`
  raise `re.error` at translate.py:322-339: a group reference such as `\1` or
  `\g<x>`, an escaped ASCII letter such as `\d`, or a trailing backslash. That
  error escapes `write_translations_back` and `translate_single_file`. The model
  instead writes such a translation literally. Neither model nor source escapes
  XML.
- The regular expressions are hand-coded as string predicates for the specific
  patterns used. Their `\s` means the ASCII whitespace characters of `Text.IsSpace`.
- `lower()` and `strip()` are ASCII-only. Python's Unicode case folding and
  whitespace set are not modelled.
- TsTranslate.FileName and TsTranslate.Stem cover `os.path.basename` and
  `Path.stem` for plain file names only. Trailing slashes and names made only of
  dots are not modelled as pathlib treats them.
- `fnmatch` bracket classes are not modelled in `ReviewRules.Glob`. They cannot
  matter, because the pattern checks are never reached.
- Report generation is not modelled: `parse_time_range` (system clock),
  `run_gh_command` (subprocess), `generate_review_report` (gh CLI and Excel
  export) and `main`.
- JSON `null` values are not modelled: `Review` holds the fields after the
  dictionary defaults of generator.py:383-385 apply. A `null` author, which
  would make `.get` fail in the source, is not covered.
- Unit line numbers are 1 or more. Python's negative indexing of `lines`, which
  only a hand-built item with line number 0 could reach, is not modelled.
- The `target_reviewers` argument of `extract_review_suggestions` is accepted and
  ignored, as in the source.
