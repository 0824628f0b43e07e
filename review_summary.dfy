/** `summarize_for_ai` (github-review-report/generator.py 313-362): drop
    fenced code, join the remaining lines, remove a few leading labels, split
    into sentences, keep the long ones and take as many as fit into
    `max_length` characters. */
module ReviewSummary {
  import opened Text

  // ---------------------------------------------------------------------
  // Code fences (325-332)

  /** A line that opens or closes a fenced code block. */
  predicate IsFence(line: string) {
    StartsWith(Strip(line), "```")
  }

  /** The kept lines so far and whether the scan is inside a code block. */
  datatype Scan = Scan(kept: seq<string>, inCode: bool)

  /** One line of the fence loop: a fence toggles the flag, a non-blank
      line outside a block is kept stripped, anything else is dropped. */
  function ScanStep(s: Scan, line: string): (r: Scan)
    ensures IsFence(line) ==> r == Scan(s.kept, !s.inCode)
    ensures !IsFence(line) ==> r.inCode == s.inCode
    ensures !IsFence(line) && s.inCode ==> r == s
  {
    if IsFence(line) then Scan(s.kept, !s.inCode)
    else if !s.inCode && Strip(line) != "" then Scan(s.kept + [Strip(line)], s.inCode)
    else s
  }

  /** The fence loop run over `lines` from state `s`. */
  function ScanFrom(s: Scan, lines: seq<string>): Scan
    decreases |lines|
  {
    if lines == [] then s else ScanStep(ScanFrom(s, lines[..|lines| - 1]), lines[|lines| - 1])
  }

  const Start: Scan := Scan([], false)

  /** Scanning `a + b` is scanning `a`, then `b` from where `a` left off. */
  lemma {:induction false} ScanConcat(s: Scan, a: seq<string>, b: seq<string>)
    ensures ScanFrom(s, a + b) == ScanFrom(ScanFrom(s, a), b)
    decreases |b|
  {
    if b == [] {
      assert a + b == a;
    } else {
      assert (a + b)[..|a + b| - 1] == a + b[..|b| - 1];
      ScanConcat(s, a, b[..|b| - 1]);
    }
  }

  /** Inside a block, lines without a fence change nothing. */
  lemma {:induction false} ScanInsideBlock(s: Scan, block: seq<string>)
    requires s.inCode
    requires forall i :: 0 <= i < |block| ==> !IsFence(block[i])
    ensures ScanFrom(s, block) == s
    decreases |block|
  {
    if block != [] {
      ScanInsideBlock(s, block[..|block| - 1]);
    }
  }

  /** Every kept line is stripped, non-blank and no fence. */
  predicate Clean(kept: seq<string>) {
    forall i :: 0 <= i < |kept| ==> kept[i] != "" && Strip(kept[i]) == kept[i] && !IsFence(kept[i])
  }

  lemma {:induction false} ScanKeptClean(s: Scan, lines: seq<string>)
    requires Clean(s.kept)
    ensures Clean(ScanFrom(s, lines).kept)
    decreases |lines|
  {
    if lines != [] {
      ScanKeptClean(s, lines[..|lines| - 1]);
      var prev := ScanFrom(s, lines[..|lines| - 1]);
      assert Clean(prev.kept);
      var line := lines[|lines| - 1];
      if !IsFence(line) && !prev.inCode && Strip(line) != "" {
        StripIdempotent(line);
        var k := prev.kept + [Strip(line)];
        assert ScanFrom(s, lines).kept == k;
        assert IsFence(Strip(line)) == IsFence(line);
        assert k[|k| - 1] == Strip(line);
        assert forall i :: 0 <= i < |prev.kept| ==> k[i] == prev.kept[i];
      } else {
        assert ScanFrom(s, lines).kept == prev.kept;
      }
    }
  }

  /** A block from a fence line up to the next fence line contributes
      nothing: dropping it leaves the kept lines and the final flag alone. */
  lemma FencedBlockIgnored(pre: seq<string>, open: string, block: seq<string>, close: string, post: seq<string>)
    requires !ScanFrom(Start, pre).inCode
    requires IsFence(open) && IsFence(close)
    requires forall i :: 0 <= i < |block| ==> !IsFence(block[i])
    ensures ScanFrom(Start, pre + [open] + block + [close] + post) == ScanFrom(Start, pre + post)
  {
    var s := ScanFrom(Start, pre);
    var afterOpen := ScanStep(s, open);
    ScanConcat(Start, pre, [open]);
    assert ScanFrom(s, [open]) == afterOpen;
    ScanConcat(Start, pre + [open], block);
    ScanInsideBlock(afterOpen, block);
    ScanConcat(Start, pre + [open] + block, [close]);
    assert ScanFrom(afterOpen, [close]) == s;
    ScanConcat(Start, pre + [open] + block + [close], post);
    ScanConcat(Start, pre, post);
  }

  /** The fence loop at 327-331. */
  method ProseLines(lines: seq<string>) returns (kept: seq<string>)
    ensures kept == ScanFrom(Start, lines).kept
  {
    kept := [];
    var inCodeBlock := false;
    for i := 0 to |lines|
      invariant Scan(kept, inCodeBlock) == ScanFrom(Start, lines[..i])
    {
      var line := lines[i];
      assert lines[..i + 1][..i] == lines[..i];
      if StartsWith(Strip(line), "```") {
        inCodeBlock := !inCodeBlock;
      } else if !inCodeBlock && Strip(line) != "" {
        kept := kept + [Strip(line)];
      }
    }
    assert lines[..|lines|] == lines;
  }

  /** No line of `lines` holds `c`. */
  predicate Avoids(lines: seq<string>, c: char) {
    forall i :: 0 <= i < |lines| ==> c !in lines[i]
  }

  /** Kept lines are stripped copies of scanned lines, so a character that
      no scanned line holds is in no kept line. */
  lemma {:induction false} ScanKeptAvoids(s: Scan, lines: seq<string>, c: char)
    requires Avoids(s.kept, c) && Avoids(lines, c)
    ensures Avoids(ScanFrom(s, lines).kept, c)
    decreases |lines|
  {
    if lines != [] {
      var init := lines[..|lines| - 1];
      assert forall i :: 0 <= i < |init| ==> init[i] == lines[i];
      ScanKeptAvoids(s, init, c);
      var prev := ScanFrom(s, init);
      assert Avoids(prev.kept, c);
      var line := lines[|lines| - 1];
      assert c !in line;
      if !IsFence(line) && !prev.inCode && Strip(line) != "" {
        var a := LeadingSpaces(line);
        assert forall j :: 0 <= j < |Strip(line)| ==> Strip(line)[j] == line[a + j];
        var k := prev.kept + [Strip(line)];
        assert ScanFrom(s, lines).kept == k;
        assert forall i :: 0 <= i < |prev.kept| ==> k[i] == prev.kept[i];
        assert k[|k| - 1] == Strip(line);
      } else {
        assert ScanFrom(s, lines).kept == prev.kept;
      }
    }
  }

  // ---------------------------------------------------------------------
  // Leading labels (337-340)

  const Prefixes: seq<string> := ["Note:", "Warning:", "Suggestion:", "建议:", "Fix:", "Change:"]

  /** One step of the prefix loop. */
  function RemovePrefix(text: string, prefix: string): (r: string)
    ensures StartsWith(text, prefix) ==> r == Strip(text[|prefix|..])
    ensures !StartsWith(text, prefix) ==> r == text
  {
    if StartsWith(text, prefix) then Strip(text[|prefix|..]) else text
  }

  /** The prefix loop over `prefixes`, in order, each tried once. */
  function RemovePrefixes(text: string, prefixes: seq<string>): string
    decreases |prefixes|
  {
    if prefixes == [] then text
    else RemovePrefix(RemovePrefixes(text, prefixes[..|prefixes| - 1]), prefixes[|prefixes| - 1])
  }

  /** What is left is a part of the text, no longer than it. */
  lemma {:induction false} RemovePrefixesPart(text: string, prefixes: seq<string>)
    ensures Contains(text, RemovePrefixes(text, prefixes))
    ensures |RemovePrefixes(text, prefixes)| <= |text|
    decreases |prefixes|
  {
    if prefixes == [] {
      assert text[0..|text|] == text;
      ContainsAtContains(text, text, 0);
    } else {
      var t := RemovePrefixes(text, prefixes[..|prefixes| - 1]);
      RemovePrefixesPart(text, prefixes[..|prefixes| - 1]);
      var p := prefixes[|prefixes| - 1];
      if StartsWith(t, p) {
        StripOfSliceInText(t, |p|, |t|);
        assert t[|p|..|t|] == t[|p|..];
        ContainsTrans(text, t, RemovePrefixes(text, prefixes));
      }
    }
  }

  /** Once no later label matches, the later labels change nothing. */
  lemma {:induction false} RemovePrefixesSettled(text: string, prefixes: seq<string>, k: nat)
    requires k <= |prefixes|
    requires forall j :: k <= j < |prefixes| ==> !StartsWith(RemovePrefixes(text, prefixes[..k]), prefixes[j])
    ensures RemovePrefixes(text, prefixes) == RemovePrefixes(text, prefixes[..k])
    decreases |prefixes|
  {
    if k < |prefixes| {
      var init := prefixes[..|prefixes| - 1];
      assert init[..k] == prefixes[..k];
      RemovePrefixesSettled(text, init, k);
    } else {
      assert prefixes[..k] == prefixes;
    }
  }

  /** A label is removed only where the list reaches it: a later label in
      front of an earlier one uncovers the earlier one, which then stays. */
  lemma LabelOrderMatters()
    ensures RemovePrefixes("Warning: Note: x", Prefixes) == "Note: x"
  {
    WarningThenNote();
    NoLaterLabel("Note: x");
    RemovePrefixesSettled("Warning: Note: x", Prefixes, 2);
  }

  /** No label after the second one starts with `N`. */
  lemma NoLaterLabel(n: string)
    requires n != "" && n[0] == 'N'
    ensures forall j :: 2 <= j < |Prefixes| ==> !StartsWith(n, Prefixes[j])
  {
    assert forall j :: 2 <= j < |Prefixes| ==> Prefixes[j][0] != 'N';
  }

  lemma WarningThenNote()
    ensures RemovePrefixes("Warning: Note: x", Prefixes[..2]) == "Note: x"
  {
    RemovePrefixesTwo("Warning: Note: x", Prefixes);
    WarningLabelOnly();
    SpacedNote();
  }

  /** The text starts with the second label and not with the first. */
  lemma WarningLabelOnly()
    ensures !StartsWith("Warning: Note: x", Prefixes[0])
    ensures StartsWith("Warning: Note: x", Prefixes[1])
    ensures "Warning: Note: x"[|Prefixes[1]|..] == " Note: x"
  {
    var w := "Warning: Note: x";
    assert w[..5][0] == 'W';
    assert w[..8] == Prefixes[1];
  }

  /** Stripping the rest after the label drops its one leading space. */
  lemma SpacedNote()
    ensures Strip(" Note: x") == "Note: x"
  {
    assert LeadingSpaces(" Note: x") == 1;
    assert TrailingStart(" Note: x") == |" Note: x"|;
  }

  /** The first two steps of the prefix loop. */
  lemma RemovePrefixesTwo(text: string, prefixes: seq<string>)
    requires |prefixes| >= 2
    ensures RemovePrefixes(text, prefixes[..2]) == RemovePrefix(RemovePrefix(text, prefixes[0]), prefixes[1])
  {
    var two := prefixes[..2];
    var one := prefixes[..1];
    assert two[..|two| - 1] == one && two[|two| - 1] == prefixes[1];
    assert one[..|one| - 1] == [] && one[|one| - 1] == prefixes[0];
    assert RemovePrefixes(text, one) == RemovePrefix(text, prefixes[0]);
  }

  /** The prefix loop at 337-340. */
  method StripLabels(text0: string) returns (text: string)
    ensures text == RemovePrefixes(text0, Prefixes)
  {
    text := text0;
    for i := 0 to |Prefixes|
      invariant text == RemovePrefixes(text0, Prefixes[..i])
    {
      var prefix := Prefixes[i];
      assert Prefixes[..i + 1][..i] == Prefixes[..i];
      if StartsWith(text, prefix) {
        text := Strip(text[|prefix|..]);
      }
    }
    assert Prefixes[..|Prefixes|] == Prefixes;
  }

  // ---------------------------------------------------------------------
  // Sentences (343-349)

  const Separators: seq<char> := ['。', '.', '\n', ';']

  /** The stripped, non-blank members of `parts`, in order: every member
      that is not blank once stripped is there, and nothing else is. */
  function NonBlank(parts: seq<string>): (r: seq<string>)
    ensures |r| <= |parts|
    ensures forall i :: 0 <= i < |r| ==> r[i] != "" && Strip(r[i]) == r[i]
    ensures forall j :: 0 <= j < |parts| && Strip(parts[j]) != "" ==> Strip(parts[j]) in r
    ensures forall i :: 0 <= i < |r| ==> exists j :: 0 <= j < |parts| && r[i] == Strip(parts[j])
    decreases |parts|
  {
    if parts == [] then []
    else
      var init := parts[..|parts| - 1];
      var rest := NonBlank(init);
      var p := Strip(parts[|parts| - 1]);
      StripIdempotent(parts[|parts| - 1]);
      NonBlankStep(parts, init, rest, p);
      if p != "" then rest + [p] else rest
  }

  /** One more part: what the pieces of the earlier parts say about them
      carries over, and the new part's piece is added when it is not blank. */
  lemma NonBlankStep(parts: seq<string>, init: seq<string>, rest: seq<string>, p: string)
    requires parts != [] && init == parts[..|parts| - 1] && p == Strip(parts[|parts| - 1])
    requires forall j :: 0 <= j < |init| && Strip(init[j]) != "" ==> Strip(init[j]) in rest
    requires forall i :: 0 <= i < |rest| ==> exists j :: 0 <= j < |init| && rest[i] == Strip(init[j])
    ensures var r := if p != "" then rest + [p] else rest;
      (forall j :: 0 <= j < |parts| && Strip(parts[j]) != "" ==> Strip(parts[j]) in r) &&
      (forall i :: 0 <= i < |r| ==> exists j :: 0 <= j < |parts| && r[i] == Strip(parts[j]))
  {
    var r := if p != "" then rest + [p] else rest;
    forall j | 0 <= j < |parts| && Strip(parts[j]) != ""
      ensures Strip(parts[j]) in r
    {
      if j < |init| {
        assert init[j] == parts[j];
      }
    }
    forall i | 0 <= i < |r|
      ensures exists j :: 0 <= j < |parts| && r[i] == Strip(parts[j])
    {
      if i < |rest| {
        var j :| 0 <= j < |init| && rest[i] == Strip(init[j]);
        assert init[j] == parts[j];
        assert r[i] == Strip(parts[j]);
      } else {
        assert r[i] == Strip(parts[|parts| - 1]);
      }
    }
  }

  /** A character absent from every part is absent from every piece. */
  lemma NonBlankAvoids(parts: seq<string>, c: char)
    requires forall j :: 0 <= j < |parts| ==> c !in parts[j]
    ensures forall i :: 0 <= i < |NonBlank(parts)| ==> c !in NonBlank(parts)[i]
  {
    var r := NonBlank(parts);
    forall i | 0 <= i < |r|
      ensures c !in r[i]
    {
      var j :| 0 <= j < |parts| && r[i] == Strip(parts[j]);
      StripAvoids(parts[j], c);
    }
  }

  /** Stripping adds no character. */
  lemma StripAvoids(s: string, c: char)
    requires c !in s
    ensures c !in Strip(s)
  {
    var p := Strip(s);
    var a := LeadingSpaces(s);
    assert forall k :: 0 <= k < |p| ==> p[k] == s[a + k];
  }

  /** `[s.strip() for s in text.split(sep) if s.strip()]`: each field of
      the split that is not blank once stripped gives a piece, and every
      piece is such a field, stripped. */
  function Pieces(text: string, sep: char): (r: seq<string>)
    ensures forall i :: 0 <= i < |r| ==> r[i] != "" && sep !in r[i]
    ensures var parts := Split(text, sep);
      forall j :: 0 <= j < |parts| && Strip(parts[j]) != "" ==> Strip(parts[j]) in r
    ensures var parts := Split(text, sep);
      forall i :: 0 <= i < |r| ==> exists j :: 0 <= j < |parts| && r[i] == Strip(parts[j])
  {
    var parts := Split(text, sep);
    NonBlankAvoids(parts, sep);
    NonBlank(parts)
  }

  /** A text with no second line is its own only non-blank "line". */
  lemma NoNewlinePieces(text: string)
    requires '\n' !in text
    ensures Pieces(text, '\n') == if Strip(text) == "" then [] else [Strip(text)]
  {
    assert IndexOfChar(text, '\n') == |text|;
    assert Split(text, '\n') == [text];
    assert [text][..0] == [];
  }

  /** The sentence loop over `seps`: every separator splits the whole text
      again, so a sentence may be listed once per separator. */
  function SentencesBy(text: string, seps: seq<char>): (r: seq<string>)
    ensures forall i :: 0 <= i < |r| ==> r[i] != ""
    decreases |seps|
  {
    if seps == [] then []
    else SentencesBy(text, seps[..|seps| - 1]) + Pieces(text, seps[|seps| - 1])
  }

  /** The nested loops at 343-346. */
  method CollectSentences(text: string) returns (sentences: seq<string>)
    ensures sentences == SentencesBy(text, Separators)
  {
    sentences := [];
    for i := 0 to |Separators|
      invariant sentences == SentencesBy(text, Separators[..i])
    {
      var sep := Separators[i];
      assert Separators[..i + 1][..i] == Separators[..i];
      var parts := Split(text, sep);
      var found := NonBlank(parts);
      sentences := sentences + found;
    }
    assert Separators[..|Separators|] == Separators;
  }

  /** `[s for s in sentences if len(s) > 10]`. */
  function Meaningful(sentences: seq<string>): (r: seq<string>)
    ensures |r| <= |sentences|
    ensures forall i :: 0 <= i < |r| ==> |r[i]| > 10 && r[i] in sentences
    ensures forall i :: 0 <= i < |sentences| && |sentences[i]| > 10 ==> sentences[i] in r
    decreases |sentences|
  {
    if sentences == [] then []
    else
      var init := sentences[..|sentences| - 1];
      var rest := Meaningful(init);
      var s := sentences[|sentences| - 1];
      assert forall i :: 0 <= i < |init| ==> init[i] == sentences[i];
      if |s| > 10 then rest + [s] else rest
  }

  /** Every sentence of at least eleven characters is used, in order. */
  lemma {:induction false} MeaningfulKeepsLong(sentences: seq<string>)
    ensures (forall i :: 0 <= i < |sentences| ==> |sentences[i]| > 10) ==> Meaningful(sentences) == sentences
    decreases |sentences|
  {
    if sentences != [] {
      var init := sentences[..|sentences| - 1];
      var last := sentences[|sentences| - 1];
      MeaningfulKeepsLong(init);
      if forall i :: 0 <= i < |sentences| ==> |sentences[i]| > 10 {
        assert forall i :: 0 <= i < |init| ==> init[i] == sentences[i];
        assert Meaningful(sentences) == Meaningful(init) + [last];
        assert init + [last] == sentences;
      }
    }
  }

  /** One step of the filter: a sentence added at the end is kept after
      the others exactly when it is longer than 10 characters. */
  lemma MeaningfulSnoc(s: seq<string>, x: string)
    ensures Meaningful(s + [x]) == Meaningful(s) + (if |x| > 10 then [x] else [])
  {
    assert (s + [x])[..|s + [x]| - 1] == s;
    assert (s + [x])[|s + [x]| - 1] == x;
  }

  /** The filter keeps the order of the list: filtering two lists one
      after the other is filtering their concatenation. */
  lemma {:induction false} MeaningfulAppend(a: seq<string>, b: seq<string>)
    ensures Meaningful(a + b) == Meaningful(a) + Meaningful(b)
    decreases |b|
  {
    if b == [] {
      assert a + b == a;
    } else {
      var init := b[..|b| - 1];
      var last := b[|b| - 1];
      var keep: seq<string> := if |last| > 10 then [last] else [];
      assert b == init + [last];
      assert a + b == (a + init) + [last];
      calc {
        Meaningful(a + b);
        Meaningful((a + init) + [last]);
        { MeaningfulSnoc(a + init, last); }
        Meaningful(a + init) + keep;
        { MeaningfulAppend(a, init); }
        (Meaningful(a) + Meaningful(init)) + keep;
        Meaningful(a) + (Meaningful(init) + keep);
        { MeaningfulSnoc(init, last); }
        Meaningful(a) + Meaningful(init + [last]);
        Meaningful(a) + Meaningful(b);
      }
    }
  }

  // ---------------------------------------------------------------------
  // The length budget (352-360)

  /** The accumulation loop from `result` on: stop at the first sentence
      that does not fit; join with "。" once something is there. */
  function Take(result: string, sentences: seq<string>, maxLength: int): string
    decreases |sentences|
  {
    if sentences == [] || |result| + |sentences[0]| > maxLength then result
    else Take(result + (if result != "" then sentences[0] + "。" else sentences[0]), sentences[1..], maxLength)
  }

  /** The loop stays within one character of the budget: only the "。" of
      the last sentence taken may exceed it. */
  lemma {:induction false} TakeBound(result: string, sentences: seq<string>, maxLength: int)
    requires result == "" || |result| <= maxLength + 1
    ensures var r := Take(result, sentences, maxLength); r == "" || |r| <= maxLength + 1
    decreases |sentences|
  {
    if sentences != [] && |result| + |sentences[0]| <= maxLength {
      TakeBound(result + (if result != "" then sentences[0] + "。" else sentences[0]), sentences[1..], maxLength);
    }
  }

  /** With nothing taken yet and every sentence longer than the budget,
      nothing is taken. */
  lemma TakeNothing(sentences: seq<string>, maxLength: int)
    requires forall i :: 0 <= i < |sentences| ==> |sentences[i]| > maxLength
    ensures Take("", sentences, maxLength) == ""
  {
  }

  /** `s[:k]` with Python's reading of a negative `k`. */
  function SliceTo(s: string, k: int): (r: string)
    ensures |r| == (if k >= 0 then Min(k, |s|) else Max(0, |s| + k))
    ensures r == s[..|r|]
  {
    if k >= 0 then s[..Min(k, |s|)] else s[..Max(0, |s| + k)]
  }

  function Min(a: int, b: int): int {
    if a < b then a else b
  }

  function Max(a: int, b: int): int {
    if a < b then b else a
  }

  /** The trim at 358-360. */
  function Trim(result: string, maxLength: int): string {
    if |result| > maxLength then SliceTo(result, maxLength - 3) + "..." else result
  }

  /** The accumulation loop at 352-356. */
  method TakeSentences(sentences: seq<string>, maxLength: int) returns (result: string)
    ensures result == Take("", sentences, maxLength)
  {
    result := "";
    var i := 0;
    while i < |sentences|
      invariant 0 <= i <= |sentences|
      invariant Take("", sentences, maxLength) == Take(result, sentences[i..], maxLength)
    {
      var sentence := sentences[i];
      if |result| + |sentence| > maxLength {
        break;
      }
      assert sentences[i..][1..] == sentences[i + 1..];
      result := result + (if result != "" then sentence + "。" else sentence);
      i := i + 1;
    }
  }

  // ---------------------------------------------------------------------
  // The whole summary

  /** The text that is split into sentences, for the lines of a body. */
  function SummaryText(lines: seq<string>): string {
    RemovePrefixes(Join(ScanFrom(Start, lines).kept, " "), Prefixes)
  }

  /** What `summarize_for_ai` returns for the lines of a review body. */
  function SummaryOfLines(lines: seq<string>, maxLength: int): string {
    var text := SummaryText(lines);
    Strip(Trim(Take("", Meaningful(SentencesBy(text, Separators)), maxLength), maxLength))
  }

  function SummaryOf(reviewBody: string, maxLength: int): string {
    SummaryOfLines(Split(reviewBody, '\n'), maxLength)
  }

  /** `summarize_for_ai`. */
  method SummarizeForAi(reviewBody: string, maxLength: int) returns (r: string)
    ensures r == SummaryOf(reviewBody, maxLength)
  {
    var lines := ProseLines(Split(reviewBody, '\n'));
    var text := Join(lines, " ");
    text := StripLabels(text);
    var sentences := CollectSentences(text);
    var meaningful := Meaningful(sentences);
    var result := TakeSentences(meaningful, maxLength);
    if |result| > maxLength {
      result := SliceTo(result, maxLength - 3) + "...";
    }
    r := Strip(result);
  }

  /** The lines of a body hold no newline, and neither does the text joined
      from them, so the newline pass of the sentence loop yields the whole
      stripped text as one more sentence. */
  lemma NewlinePassRepeatsText(reviewBody: string)
    ensures var text := SummaryText(Split(reviewBody, '\n'));
      '\n' !in text && Pieces(text, '\n') == if Strip(text) == "" then [] else [Strip(text)]
  {
    var lines := Split(reviewBody, '\n');
    ScanKeptAvoids(Start, lines, '\n');
    assert Avoids(ScanFrom(Start, lines).kept, '\n');
    var joined := Join(ScanFrom(Start, lines).kept, " ");
    JoinAvoids(ScanFrom(Start, lines).kept, " ", '\n');
    RemovePrefixesPart(joined, Prefixes);
    ContainsAvoids(joined, SummaryText(lines), '\n');
    NoNewlinePieces(SummaryText(lines));
  }

  /** A summary never exceeds a budget of zero or more characters. */
  lemma SummaryWithinBudget(lines: seq<string>, maxLength: int)
    requires maxLength >= 0
    ensures |SummaryOfLines(lines, maxLength)| <= maxLength
  {
    var text := SummaryText(lines);
    SentenceSummaryWithinBudget(Meaningful(SentencesBy(text, Separators)), maxLength);
  }

  /** The budget step on any list of sentences longer than 10 characters. */
  lemma SentenceSummaryWithinBudget(ms: seq<string>, maxLength: int)
    requires maxLength >= 0
    requires forall i :: 0 <= i < |ms| ==> |ms[i]| > 10
    ensures |Strip(Trim(Take("", ms, maxLength), maxLength))| <= maxLength
  {
    if maxLength <= 10 {
      TakeNothing(ms, maxLength);
    } else {
      TakeBound("", ms, maxLength);
    }
  }

  /** A negative budget leaves only the ellipsis, as Python's slice with a
      negative stop does. */
  lemma SummaryNegativeBudget(lines: seq<string>, maxLength: int)
    requires maxLength < 0
    ensures SummaryOfLines(lines, maxLength) == "..."
  {
    var text := SummaryText(lines);
    var ms := Meaningful(SentencesBy(text, Separators));
    TakeNothing(ms, maxLength);
    EllipsisOnly(maxLength);
  }

  lemma EllipsisOnly(maxLength: int)
    requires maxLength < 0
    ensures Strip(Trim("", maxLength)) == "..."
  {
    assert Trim("", maxLength) == "...";
    assert LeadingSpaces("...") == 0;
    assert TrailingStart("...") == 3;
  }

  /** Fenced code does not reach the summary. */
  lemma SummaryIgnoresFencedCode(pre: seq<string>, open: string, block: seq<string>, close: string, post: seq<string>, maxLength: int)
    requires !ScanFrom(Start, pre).inCode
    requires IsFence(open) && IsFence(close)
    requires forall i :: 0 <= i < |block| ==> !IsFence(block[i])
    ensures SummaryOfLines(pre + [open] + block + [close] + post, maxLength) == SummaryOfLines(pre + post, maxLength)
  {
    FencedBlockIgnored(pre, open, block, close, post);
  }
}
