/** Batching and the translation control flow of the Qt translation
    assistant (qt-translation-assistant/translate.py): the target language
    taken from a file name, the partition of the units into batches, the
    retry loop of `TranslationWorker.translate_batch`, the per-batch length
    check, and the aggregation of the batch results in completion order.

    The translation service is a parameter: `service(request, attempt)` is
    what the attempt numbered `attempt` produced. An attempt either raises
    (`Failed`: the HTTP call or the response parser threw) or yields what
    `_parse_translation_response` returned for the response text: a list of
    pairs, or `Unparseable` when neither JSON strategy succeeded. */
module TsTranslate {
  import opened Text
  import opened TsExtract
  import opened TsPatch

  /** A Python call that either returns a value or raises an exception of the named class. */
  datatype Outcome<T> = Returned(value: T) | Raised(error: string)

  /** A `TranslationBatch` (translate.py 122-126). */
  datatype Batch = Batch(items: seq<Unit>, targetLanguage: string, sourceFile: string)

  /** `[item['source'] for item in items]`. */
  function Sources(items: seq<Unit>): (r: seq<string>)
    ensures |r| == |items|
    ensures forall i :: 0 <= i < |items| ==> r[i] == items[i].source
  {
    seq(|items|, i requires 0 <= i < |items| => items[i].source)
  }

  /** `[{'source': s, 'translation': s} for s in strings]`, the fallback of
      translate.py 43, 119, 266-269 and 280. */
  function Identity(strings: seq<string>): (r: seq<Pair>)
    ensures |r| == |strings|
    ensures forall i :: 0 <= i < |strings| ==> r[i] == Pair(strings[i], strings[i])
  {
    seq(|strings|, i requires 0 <= i < |strings| => Pair(strings[i], strings[i]))
  }

  /** The identity list of the first `k + 1` sources extends that of the first `k`. */
  lemma IdentitySnoc(items: seq<Unit>, k: nat)
    requires k < |items|
    ensures Identity(Sources(items[..k + 1])) ==
      Identity(Sources(items[..k])) + [Pair(items[k].source, items[k].source)]
  {
    var a := Identity(Sources(items[..k + 1]));
    var b := Identity(Sources(items[..k])) + [Pair(items[k].source, items[k].source)];
    assert |a| == |b|;
    forall i | 0 <= i < |a|
      ensures a[i] == b[i]
    {
      assert items[..k + 1][i] == items[i];
      if i < k {
        assert items[..k][i] == items[i];
      }
    }
  }

  /** A map built from identity pairs sends every string to itself. */
  lemma {:induction false} IdentityMap(strings: seq<string>, s: string)
    requires s in strings
    ensures s in TranslationMap(Identity(strings))
    ensures TranslationMap(Identity(strings))[s] == s
    decreases |strings|
  {
    var last := strings[|strings| - 1];
    var init := strings[..|strings| - 1];
    assert Identity(strings)[..|strings| - 1] == Identity(init);
    if s != last {
      assert s in init by {
        var i :| 0 <= i < |strings| && strings[i] == s;
        assert init[i] == s;
      }
      IdentityMap(init, s);
    }
  }

  // ---------------------------------------------------------------------
  // Target language (translate.py 190-196)

  /** `Path(filename).name`: the part after the last `/`. */
  function FileName(filename: string): (r: string)
    ensures '/' !in r
  {
    filename[LastIndexOfChar(filename, '/') + 1..]
  }

  /** `Path(name).stem`: `name` without its suffix. The suffix starts at the
      last `.`, provided that dot is neither the first nor the last character. */
  function Stem(name: string): (r: string)
    ensures |r| <= |name| && r == name[..|r|]
  {
    var i := LastIndexOfChar(name, '.');
    if 0 < i < |name| - 1 then name[..i] else name
  }

  /** `get_language_from_filename`. */
  function LanguageFromFilename(filename: string): string {
    var name := Stem(FileName(filename));
    if '_' in name then
      var parts := Split(name, '_');
      if |parts| >= 2 then Join(parts[1..], "_") else "unknown"
    else "unknown"
  }

  /** The language is the stem minus its first `_`-field and that
      underscore, or "unknown" when the stem has no underscore. */
  lemma LanguageIsAfterFirstUnderscore(filename: string)
    ensures var name := Stem(FileName(filename));
      LanguageFromFilename(filename) ==
        if '_' in name then name[IndexOfChar(name, '_') + 1..] else "unknown"
  {
    var name := Stem(FileName(filename));
    if '_' in name {
      var k := IndexOfChar(name, '_');
      var rest := name[k + 1..];
      var parts := Split(name, '_');
      assert parts == [name[..k]] + Split(rest, '_');
      assert parts[1..] == Split(rest, '_') && |parts| >= 2;
      assert LanguageFromFilename(filename) == Join(parts[1..], "_");
      JoinSplit(rest, '_');
    }
  }

  lemma LanguageExample()
    ensures LanguageFromFilename("app_zh_CN.ts") == "zh_CN"
  {
    StemExample();
    var name := "app_zh_CN";
    assert name[..3] == "app";
    LanguageAfter("app_zh_CN.ts", name, 3);
    assert name[4..] == "zh_CN";
  }

  /** The language when the first `_` of the stem is at `k`. */
  lemma LanguageAfter(filename: string, name: string, k: nat)
    requires Stem(FileName(filename)) == name
    requires k < |name| && name[k] == '_' && '_' !in name[..k]
    ensures LanguageFromFilename(filename) == name[k + 1..]
  {
    IndexOfCharAt(name, '_', k);
    LanguageIsAfterFirstUnderscore(filename);
  }

  lemma StemExample()
    ensures Stem(FileName("app_zh_CN.ts")) == "app_zh_CN"
  {
    assert LastIndexOfChar("app_zh_CN.ts", '/') == -1;
    assert FileName("app_zh_CN.ts") == "app_zh_CN.ts";
    assert LastIndexOfChar("app_zh_CN.ts", '.') == 9;
  }

  lemma LanguageExampleEmpty()
    ensures LanguageFromFilename("app_.ts") == ""
  {
    assert LastIndexOfChar("app_.ts", '/') == -1;
    assert FileName("app_.ts") == "app_.ts";
    assert LastIndexOfChar("app_.ts", '.') == 4;
    assert Stem("app_.ts") == "app_";
    assert IndexOfChar("app_", '_') == 3;
    LanguageIsAfterFirstUnderscore("app_.ts");
  }

  lemma LanguageExampleUnknown()
    ensures LanguageFromFilename("app.ts") == "unknown"
  {
    assert LastIndexOfChar("app.ts", '/') == -1;
    assert FileName("app.ts") == "app.ts";
    assert LastIndexOfChar("app.ts", '.') == 3;
    assert Stem("app.ts") == "app";
    assert '_' !in "app";
  }

  // ---------------------------------------------------------------------
  // Batches (translate.py 239-246)

  /** The batches `items[i:i + size]` for `i` in `range(0, len(items), size)`. */
  function BatchesOf(items: seq<Unit>, size: nat, targetLanguage: string, sourceFile: string): seq<Batch>
    requires size > 0
    decreases |items|
  {
    if items == [] then []
    else
      var k := if |items| < size then |items| else size;
      [Batch(items[..k], targetLanguage, sourceFile)] + BatchesOf(items[k..], size, targetLanguage, sourceFile)
  }

  /** The items of the batches, in batch order. */
  function Flatten(batches: seq<Batch>): seq<Unit> {
    if batches == [] then [] else batches[0].items + Flatten(batches[1..])
  }

  /** The number of batches for `n` items: `ceil(n / size)`. */
  function BatchCount(n: nat, size: int): nat {
    if size > 0 then (n + size - 1) / size else 0
  }

  lemma MulAtLeast(k: int, b: int)
    requires k >= 1 && b > 0
    ensures k * b >= b
  {
  }

  /** Euclidean division has one quotient. */
  lemma DivUnique(a: int, b: int, q: int, r: int)
    requires b > 0 && 0 <= r < b && a == q * b + r
    ensures a / b == q
  {
    var q' := a / b;
    var r' := a % b;
    assert a == q' * b + r' && 0 <= r' < b;
    assert (q - q') * b == r' - r;
    assert (q' - q) * b == r - r';
    if q > q' {
      MulAtLeast(q - q', b);
    } else if q < q' {
      MulAtLeast(q' - q, b);
    }
  }

  /** `c` is the ceiling of `n / size` when `c - 1` batches are too few and `c` enough. */
  lemma CeilDiv(n: nat, size: nat, c: nat)
    requires size > 0 && (c - 1) * size < n <= c * size
    ensures (n + size - 1) / size == c
  {
    DivUnique(n + size - 1, size, c, n + size - 1 - c * size);
  }

  /** One batch fewer would not hold the items; the batches there are do. */
  lemma {:induction false} BatchesOfBounds(items: seq<Unit>, size: nat, lang: string, file: string)
    requires size > 0
    ensures var c := |BatchesOf(items, size, lang, file)|;
      (c == 0 <==> items == []) && (items != [] ==> (c - 1) * size < |items| <= c * size)
    decreases |items|
  {
    if items != [] {
      var k := if |items| < size then |items| else size;
      var rest := BatchesOf(items[k..], size, lang, file);
      BatchesOfBounds(items[k..], size, lang, file);
      assert |BatchesOf(items, size, lang, file)| == 1 + |rest|;
      if |items| <= size {
        assert items[k..] == [];
      } else {
        BoundsStep(|rest|, size, |items|);
      }
    }
  }

  /** One more batch of `size` covers `size` more items. */
  lemma BoundsStep(c: int, size: int, n: int)
    requires (c - 1) * size < n - size <= c * size
    ensures (c + 1 - 1) * size < n <= (c + 1) * size
  {
    assert (c - 1) * size == c * size - size;
    assert (c + 1) * size == c * size + size;
  }

  /** With a positive size there are `ceil(N / size)` batches. */
  lemma BatchesOfCount(items: seq<Unit>, size: nat, lang: string, file: string)
    requires size > 0
    ensures |BatchesOf(items, size, lang, file)| == BatchCount(|items|, size)
  {
    BatchesOfBounds(items, size, lang, file);
    if items == [] {
      DivUnique(size - 1, size, 0, size - 1);
    } else {
      CeilDiv(|items|, size, |BatchesOf(items, size, lang, file)|);
    }
  }

  /** The batches, concatenated, give back the items in order. */
  lemma {:induction false} BatchesOfFlatten(items: seq<Unit>, size: nat, lang: string, file: string)
    requires size > 0
    ensures Flatten(BatchesOf(items, size, lang, file)) == items
    decreases |items|
  {
    if items != [] {
      var k := if |items| < size then |items| else size;
      var bs := BatchesOf(items, size, lang, file);
      BatchesOfFlatten(items[k..], size, lang, file);
      assert bs[1..] == BatchesOf(items[k..], size, lang, file);
      assert items == items[..k] + items[k..];
    }
  }

  /** Every batch is non-empty, holds at most `size` items and carries the
      file's language and path, and every batch but the last holds exactly
      `size` items. */
  predicate WellSized(bs: seq<Batch>, size: nat, lang: string, file: string) {
    forall i :: 0 <= i < |bs| ==>
      0 < |bs[i].items| <= size && bs[i].targetLanguage == lang && bs[i].sourceFile == file &&
      (i < |bs| - 1 ==> |bs[i].items| == size)
  }

  lemma {:induction false} BatchesOfSizes(items: seq<Unit>, size: nat, lang: string, file: string)
    requires size > 0
    ensures WellSized(BatchesOf(items, size, lang, file), size, lang, file)
    decreases |items|
  {
    if items != [] {
      var k := if |items| < size then |items| else size;
      var bs := BatchesOf(items, size, lang, file);
      var rest := BatchesOf(items[k..], size, lang, file);
      BatchesOfSizes(items[k..], size, lang, file);
      assert bs == [Batch(items[..k], lang, file)] + rest;
      if rest != [] {
        assert items[k..] != [];
        assert k == size;
      }
      forall i | 0 <= i < |bs|
        ensures 0 < |bs[i].items| <= size && bs[i].targetLanguage == lang && bs[i].sourceFile == file &&
          (i < |bs| - 1 ==> |bs[i].items| == size)
      {
        if i > 0 {
          assert bs[i] == rest[i - 1];
        }
      }
    }
  }

  function Min(a: int, b: int): int {
    if a < b then a else b
  }

  /** The batches from index `i` on: the slice `items[i:i + size]`, then the rest. */
  lemma BatchesOfStep(items: seq<Unit>, i: nat, size: nat, lang: string, file: string)
    requires size > 0 && i < |items|
    ensures BatchesOf(items[i..], size, lang, file) ==
      [Batch(items[i..Min(i + size, |items|)], lang, file)] +
      (if i + size < |items| then BatchesOf(items[i + size..], size, lang, file) else [])
  {
    var rest := items[i..];
    var k := if |rest| < size then |rest| else size;
    assert rest[..k] == items[i..Min(i + size, |items|)];
    if i + size < |items| {
      assert rest[k..] == items[i + size..];
    } else {
      assert rest[k..] == [];
    }
  }

  /** `_create_batches`: `range` with step 0 raises, a negative step gives no batches. */
  method CreateBatches(items: seq<Unit>, sourceFile: string, targetLanguage: string, batchSize: int)
    returns (r: Outcome<seq<Batch>>)
    ensures batchSize == 0 ==> r == Raised("ValueError")
    ensures batchSize < 0 ==> r == Returned([])
    ensures batchSize > 0 ==> r == Returned(BatchesOf(items, batchSize, targetLanguage, sourceFile))
  {
    if batchSize == 0 {
      return Raised("ValueError");
    }
    var batches: seq<Batch> := [];
    if batchSize < 0 {
      return Returned(batches);
    }
    ghost var all := BatchesOf(items, batchSize, targetLanguage, sourceFile);
    var i := 0;
    assert items[0..] == items;
    while i < |items|
      invariant 0 <= i
      invariant i < |items| ==> batches + BatchesOf(items[i..], batchSize, targetLanguage, sourceFile) == all
      invariant i >= |items| ==> batches == all
      decreases |items| - i
    {
      BatchesOfStep(items, i, batchSize, targetLanguage, sourceFile);
      batches := batches + [Batch(items[i..Min(i + batchSize, |items|)], targetLanguage, sourceFile)];
      i := i + batchSize;
    }
    return Returned(batches);
  }

  // ---------------------------------------------------------------------
  // One batch (translate.py 17-43 and 274-282)

  /** What the worker sends: the prompt is built from these three. */
  datatype Request = Request(strings: seq<string>, targetLanguage: string, sourceFile: string)

  /** What `_parse_translation_response` made of a response. */
  datatype Parsed = Pairs(pairs: seq<Pair>) | Unparseable

  /** One attempt: an exception, or a parsed response. */
  datatype Attempt = Responded(parsed: Parsed) | Failed

  type Service = (Request, nat) -> Attempt

  /** The list the parser returns: on failure, the identity list (translate.py 118-119). */
  function ParsedResults(request: Request, parsed: Parsed): seq<Pair> {
    match parsed
    case Pairs(ps) => ps
    case Unparseable => Identity(request.strings)
  }

  /** Attempt `a` produced a list whose length differs from the input's. */
  predicate Mismatched(request: Request, a: nat, service: Service) {
    service(request, a).Responded? &&
    |ParsedResults(request, service(request, a).parsed)| != |request.strings|
  }

  /** The retry loop from attempt `a` on. An exception is not handled: the
      first `except` clause (translate.py 34) names `requests`, which is
      bound only inside `_call_llm_api`, so evaluating it raises `NameError`. */
  function AttemptsFrom(request: Request, a: nat, maxRetries: int, service: Service): Outcome<seq<Pair>>
    decreases maxRetries - a
  {
    if a >= maxRetries then Returned(Identity(request.strings))
    else match service(request, a)
      case Failed => Raised("NameError")
      case Responded(parsed) =>
        var results := ParsedResults(request, parsed);
        if |results| == |request.strings| then Returned(results)
        else AttemptsFrom(request, a + 1, maxRetries, service)
  }

  /** `TranslationWorker.translate_batch`. */
  function TranslateBatchSpec(strings: seq<string>, targetLanguage: string, sourceFile: string,
                              maxRetries: int, service: Service): Outcome<seq<Pair>> {
    if strings == [] then Returned([])
    else AttemptsFrom(Request(strings, targetLanguage, sourceFile), 0, maxRetries, service)
  }

  method TranslateBatch(strings: seq<string>, targetLanguage: string, sourceFile: string,
                        maxRetries: int, service: Service) returns (r: Outcome<seq<Pair>>)
    ensures r == TranslateBatchSpec(strings, targetLanguage, sourceFile, maxRetries, service)
  {
    if strings == [] {
      return Returned([]);
    }
    var request := Request(strings, targetLanguage, sourceFile);
    var attempt: nat := 0;
    while attempt < maxRetries
      invariant AttemptsFrom(request, attempt, maxRetries, service) ==
        TranslateBatchSpec(strings, targetLanguage, sourceFile, maxRetries, service)
      decreases maxRetries - attempt
    {
      var outcome := service(request, attempt);
      if outcome.Failed? {
        return Raised("NameError");
      }
      var results := ParsedResults(request, outcome.parsed);
      if |results| == |strings| {
        return Returned(results);
      }
      attempt := attempt + 1;
    }
    return Returned(Identity(strings));
  }

  /** Whatever the retry loop returns is as long as its input. */
  lemma {:induction false} AttemptsFromLength(request: Request, a: nat, maxRetries: int, service: Service)
    ensures AttemptsFrom(request, a, maxRetries, service).Returned? ==>
      |AttemptsFrom(request, a, maxRetries, service).value| == |request.strings|
    decreases maxRetries - a
  {
    if a < maxRetries && service(request, a).Responded? {
      AttemptsFromLength(request, a + 1, maxRetries, service);
    }
  }

  /** `translate_batch` returns `[]` for `[]` and otherwise, when it returns,
      a list as long as its input. */
  lemma TranslateBatchLength(strings: seq<string>, lang: string, file: string, maxRetries: int, service: Service)
    ensures var r := TranslateBatchSpec(strings, lang, file, maxRetries, service);
      r.Returned? ==> |r.value| == |strings|
  {
    AttemptsFromLength(Request(strings, lang, file), 0, maxRetries, service);
  }

  /** The first attempt that yields a list of the right length is accepted,
      after any number of attempts of the wrong length. */
  lemma {:induction false} FirstMatchAccepted(request: Request, a: nat, b: nat, maxRetries: int, service: Service)
    requires a <= b < maxRetries
    requires forall i :: a <= i < b ==> Mismatched(request, i, service)
    requires service(request, b).Responded?
    requires |ParsedResults(request, service(request, b).parsed)| == |request.strings|
    ensures AttemptsFrom(request, a, maxRetries, service) ==
      Returned(ParsedResults(request, service(request, b).parsed))
    decreases b - a
  {
    if a < b {
      assert Mismatched(request, a, service);
      FirstMatchAccepted(request, a + 1, b, maxRetries, service);
    }
  }

  /** An attempt that raises, after attempts of the wrong length, makes the
      whole call raise. */
  lemma {:induction false} FailureEscapes(request: Request, a: nat, b: nat, maxRetries: int, service: Service)
    requires a <= b < maxRetries
    requires forall i :: a <= i < b ==> Mismatched(request, i, service)
    requires service(request, b).Failed?
    ensures AttemptsFrom(request, a, maxRetries, service) == Raised("NameError")
    decreases b - a
  {
    if a < b {
      assert Mismatched(request, a, service);
      FailureEscapes(request, a + 1, b, maxRetries, service);
    }
  }

  /** When every attempt has the wrong length, the identity list is returned. */
  lemma {:induction false} ExhaustedFallsBack(request: Request, a: nat, maxRetries: int, service: Service)
    requires forall i :: a <= i < maxRetries ==> Mismatched(request, i, service)
    ensures AttemptsFrom(request, a, maxRetries, service) == Returned(Identity(request.strings))
    decreases maxRetries - a
  {
    if a < maxRetries {
      assert Mismatched(request, a, service);
      ExhaustedFallsBack(request, a + 1, maxRetries, service);
    }
  }

  /** An unparseable response is not retried: the parser's identity list
      has the right length and is accepted at once. */
  lemma UnparseableAccepted(strings: seq<string>, lang: string, file: string, maxRetries: int, service: Service)
    requires strings != [] && 0 < maxRetries
    requires service(Request(strings, lang, file), 0) == Responded(Unparseable)
    ensures TranslateBatchSpec(strings, lang, file, maxRetries, service) == Returned(Identity(strings))
  {
  }

  /** `_translate_single_batch`: an exception of `translate_batch` passes
      through; a list of the wrong length is replaced by the identity list. */
  function SingleBatchSpec(batch: Batch, maxRetries: int, service: Service): Outcome<seq<Pair>> {
    var strings := Sources(batch.items);
    match TranslateBatchSpec(strings, batch.targetLanguage, batch.sourceFile, maxRetries, service)
    case Raised(e) => Raised(e)
    case Returned(results) => Returned(if |results| != |strings| then Identity(strings) else results)
  }

  method TranslateSingleBatch(batch: Batch, maxRetries: int, service: Service) returns (r: Outcome<seq<Pair>>)
    ensures r == SingleBatchSpec(batch, maxRetries, service)
  {
    var strings := Sources(batch.items);
    var results := TranslateBatch(strings, batch.targetLanguage, batch.sourceFile, maxRetries, service);
    if results.Raised? {
      return Raised(results.error);
    }
    if |results.value| != |strings| {
      return Returned(Identity(strings));
    }
    return results;
  }

  // ---------------------------------------------------------------------
  // Aggregation (translate.py 248-272)

  /** The block a batch contributes: its results, or the identity list of
      its sources when the batch raised (translate.py 264-270). */
  function BatchBlock(batch: Batch, maxRetries: int, service: Service): (r: seq<Pair>)
    ensures |r| == |batch.items|
  {
    match SingleBatchSpec(batch, maxRetries, service)
    case Raised(_) => Identity(Sources(batch.items))
    case Returned(results) => results
  }

  /** `[0, n)` as a sequence. */
  function Range(n: nat): (r: seq<nat>)
    ensures |r| == n
    ensures forall i :: 0 <= i < n ==> r[i] == i
  {
    if n == 0 then [] else Range(n - 1) + [n - 1]
  }

  /** `as_completed` yields every batch exactly once, in some order. */
  predicate IsCompletionOrder(order: seq<nat>, n: nat) {
    multiset(order) == multiset(Range(n))
  }

  lemma CompletionOrderInRange(order: seq<nat>, n: nat, i: nat)
    requires IsCompletionOrder(order, n) && i < |order|
    ensures order[i] < n
  {
    assert order[i] in multiset(order);
    assert order[i] in multiset(Range(n));
    var j :| 0 <= j < n && Range(n)[j] == order[i];
  }

  /** A completion order names each of the `n` batches exactly once. */
  lemma CompletionOrderBounds(order: seq<nat>, n: nat)
    requires IsCompletionOrder(order, n)
    ensures |order| == n
    ensures forall i :: 0 <= i < |order| ==> order[i] < n
  {
    assert |order| == |multiset(order)| == |multiset(Range(n))| == n;
    forall i | 0 <= i < |order|
      ensures order[i] < n
    {
      CompletionOrderInRange(order, n, i);
    }
  }

  /** `all_results` after the first `k` completions. */
  function Aggregate(batches: seq<Batch>, order: seq<nat>, k: nat, maxRetries: int, service: Service): seq<Pair>
    requires k <= |order|
    requires forall i :: 0 <= i < |order| ==> order[i] < |batches|
  {
    if k == 0 then []
    else Aggregate(batches, order, k - 1, maxRetries, service) + BatchBlock(batches[order[k - 1]], maxRetries, service)
  }

  /** The sum of the sizes of the batches listed in `idx`. */
  function SizeSum(batches: seq<Batch>, idx: seq<nat>): nat
    requires forall i :: 0 <= i < |idx| ==> idx[i] < |batches|
  {
    if idx == [] then 0 else SizeSum(batches, idx[..|idx| - 1]) + |batches[idx[|idx| - 1]].items|
  }

  lemma {:induction false} SizeSumConcat(batches: seq<Batch>, a: seq<nat>, b: seq<nat>)
    requires forall i :: 0 <= i < |a| ==> a[i] < |batches|
    requires forall i :: 0 <= i < |b| ==> b[i] < |batches|
    ensures forall i :: 0 <= i < |a + b| ==> (a + b)[i] < |batches|
    ensures SizeSum(batches, a + b) == SizeSum(batches, a) + SizeSum(batches, b)
    decreases |b|
  {
    if b == [] {
      assert a + b == a;
    } else {
      var b' := b[..|b| - 1];
      assert (a + b)[..|a + b| - 1] == a + b';
      assert (a + b)[|a + b| - 1] == b[|b| - 1];
      SizeSumConcat(batches, a, b');
    }
  }

  /** The size sum depends only on which indices are listed, not on their order. */
  /** Removing the same element from two sequences with equal multisets
      leaves sequences with equal multisets. */
  lemma MultisetRemove(a: seq<nat>, b: seq<nat>, j: nat)
    requires a != [] && j < |b| && b[j] == a[|a| - 1]
    requires multiset(a) == multiset(b)
    ensures multiset(a[..|a| - 1]) == multiset(b[..j] + b[j + 1..])
  {
    var x := a[|a| - 1];
    assert a == a[..|a| - 1] + [x];
    assert b == b[..j] + [x] + b[j + 1..];
    assert multiset(a[..|a| - 1]) == multiset(a) - multiset{x};
    assert multiset(b[..j] + b[j + 1..]) == multiset(b) - multiset{x};
  }

  /** The size sum of `b` with its element at `j` moved to the end. */
  lemma SizeSumMoveLast(batches: seq<Batch>, b: seq<nat>, j: nat)
    requires forall i :: 0 <= i < |b| ==> b[i] < |batches|
    requires j < |b|
    ensures var rest := b[..j] + b[j + 1..];
      (forall i :: 0 <= i < |rest| ==> rest[i] < |batches|) &&
      SizeSum(batches, b) == SizeSum(batches, rest) + |batches[b[j]].items|
  {
    var x := b[j];
    assert b == b[..j] + [x] + b[j + 1..];
    SizeSumConcat(batches, b[..j], [x]);
    SizeSumConcat(batches, b[..j] + [x], b[j + 1..]);
    SizeSumConcat(batches, b[..j], b[j + 1..]);
    assert [x][..0] == [];
  }

  /** The size sum depends only on which indices are listed, not on their order. */
  lemma {:induction false} SizeSumPermutation(batches: seq<Batch>, a: seq<nat>, b: seq<nat>)
    requires forall i :: 0 <= i < |a| ==> a[i] < |batches|
    requires forall i :: 0 <= i < |b| ==> b[i] < |batches|
    requires multiset(a) == multiset(b)
    ensures SizeSum(batches, a) == SizeSum(batches, b)
    decreases |a|
  {
    if a == [] {
      assert |b| == |multiset(b)| == 0;
    } else {
      var x := a[|a| - 1];
      assert x in multiset(b) by {
        assert a[|a| - 1] in a;
      }
      var j :| 0 <= j < |b| && b[j] == x;
      MultisetRemove(a, b, j);
      SizeSumMoveLast(batches, b, j);
      SizeSumPermutation(batches, a[..|a| - 1], b[..j] + b[j + 1..]);
    }
  }

  lemma {:induction false} AggregatePrefixLength(batches: seq<Batch>, order: seq<nat>, k: nat, maxRetries: int, service: Service)
    requires k <= |order|
    requires forall i :: 0 <= i < |order| ==> order[i] < |batches|
    ensures |Aggregate(batches, order, k, maxRetries, service)| == SizeSum(batches, order[..k])
  {
    if k > 0 {
      AggregatePrefixLength(batches, order, k - 1, maxRetries, service);
      assert order[..k][..k - 1] == order[..k - 1];
    }
  }

  lemma {:induction false} SizeSumFlatten(batches: seq<Batch>)
    ensures SizeSum(batches, Range(|batches|)) == |Flatten(batches)|
    decreases |batches|
  {
    if batches != [] {
      var n := |batches|;
      var init := batches[..n - 1];
      SizeSumFlatten(init);
      SizeSumSameBatches(init, batches, Range(n - 1));
      assert Range(n)[..n - 1] == Range(n - 1);
      FlattenSnoc(init, batches[n - 1]);
      assert init + [batches[n - 1]] == batches;
    }
  }

  lemma {:induction false} SizeSumSameBatches(init: seq<Batch>, batches: seq<Batch>, idx: seq<nat>)
    requires |init| <= |batches| && init == batches[..|init|]
    requires forall i :: 0 <= i < |idx| ==> idx[i] < |init|
    ensures SizeSum(init, idx) == SizeSum(batches, idx)
    decreases |idx|
  {
    if idx != [] {
      SizeSumSameBatches(init, batches, idx[..|idx| - 1]);
    }
  }

  lemma {:induction false} FlattenSnoc(batches: seq<Batch>, b: Batch)
    ensures Flatten(batches + [b]) == Flatten(batches) + b.items
    decreases |batches|
  {
    if batches != [] {
      assert (batches + [b])[1..] == batches[1..] + [b];
      FlattenSnoc(batches[1..], b);
    }
  }

  /** The aggregate holds exactly one entry per item of the batches,
      whatever the completion order. */
  lemma AggregateLength(batches: seq<Batch>, order: seq<nat>, maxRetries: int, service: Service)
    requires IsCompletionOrder(order, |batches|)
    requires forall i :: 0 <= i < |order| ==> order[i] < |batches|
    ensures |Aggregate(batches, order, |order|, maxRetries, service)| == |Flatten(batches)|
  {
    AggregatePrefixLength(batches, order, |order|, maxRetries, service);
    assert order[..|order|] == order;
    SizeSumPermutation(batches, order, Range(|batches|));
    SizeSumFlatten(batches);
  }

  /** When every attempt raises, each batch's block is the identity list of its sources. */
  lemma AllFailedBlock(batch: Batch, maxRetries: int, service: Service)
    requires forall r: Request, a: nat :: service(r, a) == Failed
    ensures BatchBlock(batch, maxRetries, service) == Identity(Sources(batch.items))
  {
  }

  /** `_translate_batches_parallel` with the batches completing in `order`. */
  method TranslateBatchesParallel(batches: seq<Batch>, order: seq<nat>, maxRetries: int, service: Service)
    returns (allResults: seq<Pair>)
    requires IsCompletionOrder(order, |batches|)
    ensures forall i :: 0 <= i < |order| ==> order[i] < |batches|
    ensures allResults == Aggregate(batches, order, |order|, maxRetries, service)
    ensures |allResults| == |Flatten(batches)|
  {
    CompletionOrderBounds(order, |batches|);
    allResults := [];
    for k := 0 to |order|
      invariant allResults == Aggregate(batches, order, k, maxRetries, service)
    {
      var batch := batches[order[k]];
      var results := TranslateSingleBatch(batch, maxRetries, service);
      if results.Raised? {
        allResults := allResults + Identity(Sources(batch.items));
      } else {
        allResults := allResults + results.value;
      }
    }
    AggregateLength(batches, order, maxRetries, service);
  }
}
