/** `translate_single_file` (qt-translation-assistant/translate.py 198-237):
    scan the file, pick the target language from the file name, translate the
    units (or copy their sources when the language is unknown) and write the
    results back into the lines. The lines read by the scan are the lines the
    write-back rewrites. */
module TsPipeline {
  import opened Text
  import opened TsExtract
  import opened TsPatch
  import opened TsTranslate

  /** The status and count of the dictionary `translate_single_file` returns;
      `language` is absent for the unknown-language shortcut (translate.py 221-225). */
  datatype FileResult = Skipped | Completed(count: nat, language: Option<string>)

  /** The language `translate_single_file` derives for `path`: `os.path.basename`,
      then `get_language_from_filename`. */
  function LanguageOf(path: string): string {
    LanguageFromFilename(FileName(path))
  }

  /** The batches of a known language: none for a negative batch size. */
  function BatchesFor(units: seq<Unit>, path: string, language: string, batchSize: int): (bs: seq<Batch>)
    ensures |bs| == BatchCount(|units|, batchSize)
  {
    if batchSize > 0 then
      BatchesOfCount(units, batchSize, language, path);
      BatchesOf(units, batchSize, language, path)
    else []
  }

  /** The translation results for a known language and a non-zero batch size. */
  function ResultsFor(units: seq<Unit>, path: string, language: string, batchSize: int, maxRetries: int,
                      service: Service, order: seq<nat>): seq<Pair>
    requires IsCompletionOrder(order, BatchCount(|units|, batchSize))
  {
    var batches := BatchesFor(units, path, language, batchSize);
    CompletionOrderBounds(order, |batches|);
    Aggregate(batches, order, |order|, maxRetries, service)
  }

  /** The result list that is written back, for a file with units. */
  function WrittenResults(units: seq<Unit>, path: string, batchSize: int, maxRetries: int,
                          service: Service, order: seq<nat>): seq<Pair>
    requires IsCompletionOrder(order, BatchCount(|units|, batchSize))
  {
    if LanguageOf(path) == "unknown" then Identity(Sources(units))
    else ResultsFor(units, path, LanguageOf(path), batchSize, maxRetries, service, order)
  }

  /** What the call returns or raises, and the lines it writes. */
  function FileOutcome(lines: seq<string>, path: string, batchSize: int, maxRetries: int,
                       service: Service, order: seq<nat>): (Outcome<FileResult>, seq<string>)
    requires IsCompletionOrder(order, BatchCount(|Extracted(lines, path)|, batchSize))
  {
    var units := Extracted(lines, path);
    var language := LanguageOf(path);
    if units == [] then (Returned(Skipped), lines)
    else if language == "unknown" then
      var results := Identity(Sources(units));
      (Returned(Completed(|results|, None)), PatchAll(lines, units, TranslationMap(results)).lines)
    else if batchSize == 0 then (Raised("ValueError"), lines)
    else
      var results := WrittenResults(units, path, batchSize, maxRetries, service, order);
      (Returned(Completed(|results|, Some(language))), PatchAll(lines, units, TranslationMap(results)).lines)
  }

  /** The loop of translate.py 216-219: each unit's source as its own translation. */
  method CopySources(units: seq<Unit>) returns (translationResults: seq<Pair>)
    ensures translationResults == Identity(Sources(units))
  {
    translationResults := [];
    for k := 0 to |units|
      invariant translationResults == Identity(Sources(units[..k]))
    {
      IdentitySnoc(units, k);
      translationResults := translationResults + [Pair(units[k].source, units[k].source)];
    }
    assert units[..|units|] == units;
  }

  method TranslateSingleFile(lines: array<string>, path: string, batchSize: int, maxRetries: int,
                             service: Service, order: seq<nat>) returns (r: Outcome<FileResult>)
    requires IsCompletionOrder(order, BatchCount(|Extracted(lines[..], path)|, batchSize))
    modifies lines
    ensures (r, lines[..]) == FileOutcome(old(lines[..]), path, batchSize, maxRetries, service, order)
  {
    var units := FindUnfinishedTranslations(lines[..], path);
    if |units| == 0 {
      return Returned(Skipped);
    }
    var languageCode := LanguageFromFilename(FileName(path));
    ghost var original := lines[..];
    assert units == Extracted(original, path);
    if languageCode == "unknown" {
      var translationResults := CopySources(units);
      var _ := WriteTranslationsBack(lines, units, translationResults);
      return Returned(Completed(|translationResults|, None));
    }
    var batches := CreateBatches(units, path, languageCode, batchSize);
    if batches.Raised? {
      return Raised(batches.error);
    }
    assert batches.value == BatchesFor(units, path, languageCode, batchSize);
    var translationResults := TranslateBatchesParallel(batches.value, order, maxRetries, service);
    assert translationResults == WrittenResults(units, path, batchSize, maxRetries, service, order);
    var _ := WriteTranslationsBack(lines, units, translationResults);
    return Returned(Completed(|translationResults|, Some(languageCode)));
  }

  /** A file is skipped exactly when the scan finds nothing, and then no line changes. */
  lemma SkippedIffNothingFound(lines: seq<string>, path: string, batchSize: int, maxRetries: int,
                               service: Service, order: seq<nat>)
    requires IsCompletionOrder(order, BatchCount(|Extracted(lines, path)|, batchSize))
    ensures var out := FileOutcome(lines, path, batchSize, maxRetries, service, order);
      (out.0 == Returned(Skipped) <==> Extracted(lines, path) == []) &&
      (out.0 == Returned(Skipped) ==> out.1 == lines)
  {
  }

  /** Whatever the service does, the call changes no line other than the
      opening line of a unit, and keeps the number of lines. */
  lemma OnlyOpeningLinesChange(lines: seq<string>, path: string, batchSize: int, maxRetries: int,
                               service: Service, order: seq<nat>, k: nat)
    requires IsCompletionOrder(order, BatchCount(|Extracted(lines, path)|, batchSize))
    requires k < |lines| && !IsOpeningLine(Extracted(lines, path), k)
    ensures var out := FileOutcome(lines, path, batchSize, maxRetries, service, order);
      |out.1| == |lines| && out.1[k] == lines[k]
  {
    var out := FileOutcome(lines, path, batchSize, maxRetries, service, order);
    var units := Extracted(lines, path);
    if units != [] && !(LanguageOf(path) != "unknown" && batchSize == 0) {
      var m := TranslationMap(WrittenResults(units, path, batchSize, maxRetries, service, order));
      assert out.1 == PatchAll(lines, units, m).lines;
      PatchExtractedOnlyOpeningLines(lines, path, m, k);
    }
  }

  /** The reported count: every unit when the language is unknown or the
      batch size is positive; none when it is negative, and then no line
      changes, because the empty result list translates no source. */
  lemma ReportedCount(lines: seq<string>, path: string, batchSize: int, maxRetries: int,
                      service: Service, order: seq<nat>)
    requires IsCompletionOrder(order, BatchCount(|Extracted(lines, path)|, batchSize))
    requires Extracted(lines, path) != []
    ensures var out := FileOutcome(lines, path, batchSize, maxRetries, service, order);
      var n := |Extracted(lines, path)|;
      (LanguageOf(path) == "unknown" ==> out.0 == Returned(Completed(n, None))) &&
      (LanguageOf(path) != "unknown" && batchSize > 0 ==> out.0 == Returned(Completed(n, Some(LanguageOf(path))))) &&
      (LanguageOf(path) != "unknown" && batchSize < 0 ==> out == (Returned(Completed(0, Some(LanguageOf(path)))), lines)) &&
      (LanguageOf(path) != "unknown" && batchSize == 0 ==> out == (Raised("ValueError"), lines))
  {
    var units := Extracted(lines, path);
    var language := LanguageOf(path);
    if language != "unknown" && batchSize > 0 {
      var batches := BatchesFor(units, path, language, batchSize);
      CompletionOrderBounds(order, |batches|);
      AggregateLength(batches, order, maxRetries, service);
      BatchesOfFlatten(units, batchSize, language, path);
    } else if language != "unknown" && batchSize < 0 {
      CompletionOrderBounds(order, 0);
      assert order == [];
      PatchAllNoneApplies(lines, units, TranslationMap([]));
    }
  }

  /** The unknown-language shortcut gives every unit its own source as its
      translation, so each unit is written exactly when its opening line
      carries an unfinished pattern, and then with its source text. */
  lemma UnknownLanguageCopiesSources(lines: seq<string>, path: string, j: nat)
    requires j < |Extracted(lines, path)|
    ensures var units := Extracted(lines, path);
      var m := TranslationMap(Identity(Sources(units)));
      units[j].source in m && m[units[j].source] == units[j].source &&
      units[j].lineNumber - 1 < |lines| &&
      (Applies(lines, units[j], m) <==> IsUnfinished(lines[units[j].lineNumber - 1])) &&
      WrittenLine(lines, units[j], m) ==
        (var line := lines[units[j].lineNumber - 1];
         if IsUnfinished(line) then SingleLineRewrite(line, units[j].source) else line)
  {
    var units := Extracted(lines, path);
    var sources := Sources(units);
    assert sources[j] == units[j].source;
    IdentityMap(sources, units[j].source);
    ExtractedAt(lines, path, j);
  }

  /** Whenever the call writes the file, each unit's opening line ends up as
      `WrittenLine` says, with the translations of the results written back. */
  lemma OpeningLineWritten(lines: seq<string>, path: string, batchSize: int, maxRetries: int,
                           service: Service, order: seq<nat>, j: nat)
    requires IsCompletionOrder(order, BatchCount(|Extracted(lines, path)|, batchSize))
    requires j < |Extracted(lines, path)|
    requires LanguageOf(path) == "unknown" || batchSize != 0
    ensures var units := Extracted(lines, path);
      var m := TranslationMap(WrittenResults(units, path, batchSize, maxRetries, service, order));
      units[j].lineNumber - 1 < |lines| &&
      FileOutcome(lines, path, batchSize, maxRetries, service, order).1[units[j].lineNumber - 1] ==
        WrittenLine(lines, units[j], m)
  {
    var units := Extracted(lines, path);
    var m := TranslationMap(WrittenResults(units, path, batchSize, maxRetries, service, order));
    assert FileOutcome(lines, path, batchSize, maxRetries, service, order).1 == PatchAll(lines, units, m).lines;
    PatchExtractedWrites(lines, path, m, j);
  }

  /** A file with an unrecognised language: a unit whose opening line holds
      an empty `<translation type="unfinished"></translation>` gets its own
      source text written between `<translation>` and `</translation>`. */
  lemma UnknownLanguageFillsEmpty(lines: seq<string>, path: string, batchSize: int, maxRetries: int,
                                  service: Service, order: seq<nat>, j: nat, pre: string, post: string)
    requires IsCompletionOrder(order, BatchCount(|Extracted(lines, path)|, batchSize))
    requires j < |Extracted(lines, path)| && LanguageOf(path) == "unknown"
    requires var k := Extracted(lines, path)[j].lineNumber - 1;
      k < |lines| && lines[k] == pre + EmptyUnfinished + post
    requires !Contains(pre, "<translation") && !Contains(post, "<translation")
    ensures var u := Extracted(lines, path)[j];
      FileOutcome(lines, path, batchSize, maxRetries, service, order).1[u.lineNumber - 1] ==
        pre + "<translation>" + u.source + "</translation>" + post
  {
    var units := Extracted(lines, path);
    OpeningLineWritten(lines, path, batchSize, maxRetries, service, order, j);
    UnknownLanguageCopiesSources(lines, path, j);
    RewriteEmptyUnfinished(pre, post, units[j].source);
  }
}
