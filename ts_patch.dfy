/** The line rewrite that writes translations back into a `.ts` file
    (`write_translations_back`, qt-translation-assistant/translate.py
    284-350). The regular expressions of lines 307-313, 323, 329 and 336 are
    written out as string predicates; `re.sub` is a left-to-right scan that
    replaces every non-overlapping match. */
module TsPatch {
  import opened Text
  import opened TsExtract

  /** A `{'source': ..., 'translation': ...}` result entry. */
  datatype Pair = Pair(source: string, translation: string)

  /** The five patterns of translate.py 307-313 that count as an unfinished
      marker on the opening line: an opening literal, then whitespace (`\s*`),
      then a closing literal. */
  const UnfinishedPatterns: seq<(string, string)> := [
    (OpenUnfinished, "</translation>"),
    (UnfinishedOpenTag, "</translation>"),
    (UnfinishedOpenTagSingle + ">", "</translation>"),
    (UnfinishedOpenTag, "/>"),
    (UnfinishedOpenTagSingle, "/>")
  ]

  /** `<translation type="unfinished"`, the opening literal of the patterns
      of translate.py 308, 309 and 311. */
  const UnfinishedOpenTag: string := "<translation" + " type=\"unfinished\""

  /** `<translation type='unfinished'`, that of the patterns of 310 and 312. */
  const UnfinishedOpenTagSingle: string := "<translation" + " type='unfinished'"

  /** `<translation type="unfinished">`. */
  const OpenUnfinished: string := UnfinishedOpenTag + ">"

  /** The end of the whitespace run starting at `i`. */
  function SkipSpaces(s: string, i: nat): (k: nat)
    requires i <= |s|
    ensures i <= k <= |s|
    ensures forall j :: i <= j < k ==> IsSpace(s[j])
    ensures k < |s| ==> !IsSpace(s[k])
    decreases |s| - i
  {
    if i < |s| && IsSpace(s[i]) then SkipSpaces(s, i + 1) else i
  }

  /** The pattern `open \s* close` matches at `p`. The closing literal begins
      with a non-space character, so `\s*` must take the whole whitespace run. */
  predicate PatternAt(line: string, p: nat, pat: (string, string)) {
    ContainsAt(line, pat.0, p) && ContainsAt(line, pat.1, SkipSpaces(line, p + |pat.0|))
  }

  /** `re.search(pattern, line)` from position `p` on. */
  predicate SearchFrom(line: string, pat: (string, string), p: nat)
    decreases |line| - p
  {
    p <= |line| && (PatternAt(line, p, pat) || SearchFrom(line, pat, p + 1))
  }

  /** `any(re.search(pattern, line) for pattern in patterns)`. */
  predicate AnyPattern(line: string, pats: seq<(string, string)>) {
    |pats| > 0 && (SearchFrom(line, pats[0], 0) || AnyPattern(line, pats[1..]))
  }

  /** The opening-line check of translate.py 315. */
  predicate IsUnfinished(line: string) {
    AnyPattern(line, UnfinishedPatterns)
  }

  lemma {:induction false} SearchFromFindsClose(line: string, pat: (string, string), p: nat)
    requires SearchFrom(line, pat, p)
    ensures Contains(line, pat.1)
    decreases |line| - p
  {
    if PatternAt(line, p, pat) {
      ContainsAtContains(line, pat.1, SkipSpaces(line, p + |pat.0|));
    } else {
      SearchFromFindsClose(line, pat, p + 1);
    }
  }

  lemma {:induction false} AnyPatternFindsClose(line: string, pats: seq<(string, string)>)
    requires AnyPattern(line, pats)
    requires forall j :: 0 <= j < |pats| ==> pats[j].1 == "</translation>" || pats[j].1 == "/>"
    ensures ClosesOnLine(line)
  {
    if SearchFrom(line, pats[0], 0) {
      SearchFromFindsClose(line, pats[0], 0);
    } else {
      AnyPatternFindsClose(line, pats[1..]);
    }
  }

  /** Every accepted unfinished pattern holds `</translation>` or `/>` on
      the opening line, so a line the extractor took for the start of a
      multi-line element never passes the check. */
  lemma UnfinishedLineCloses(line: string)
    requires IsUnfinished(line)
    ensures ClosesOnLine(line)
  {
    AnyPatternFindsClose(line, UnfinishedPatterns);
  }

  /** `type=["']unfinished["']` occurs in the segment. */
  predicate HasTypeMarker(seg: string) {
    Contains(seg, "type=\"unfinished\"") || Contains(seg, "type=\"unfinished'") ||
    Contains(seg, "type='unfinished\"") || Contains(seg, "type='unfinished'")
  }

  // The three rewriting patterns: the tag followed by whitespace and
  // `</translation>` (line 323), the self-closing tag (line 329), and the bare
  // opening tag (line 336). Each starts `<translation[^>]*type=["']unfinished["'][^>]*`.
  datatype Form = CloseForm | SelfCloseForm | OpenForm

  /** Where a match of `form` starting at `p` ends, if there is one. Because
      `[^>]*` cannot pass a `>`, the marker must lie before the first `>`
      after `<translation`, and that `>` ends the opening tag. */
  function MatchEnd(line: string, p: nat, form: Form): (r: Option<nat>)
    ensures r.Some? ==> p < r.value <= |line|
  {
    if !ContainsAt(line, "<translation", p) then None
    else
      var g := NextIndexOf(line, '>', p + 12);
      if g == |line| then None
      else match form
        case CloseForm =>
          var k := SkipSpaces(line, g + 1);
          if HasTypeMarker(line[p + 12..g]) && ContainsAt(line, "</translation>", k) then Some(k + 14) else None
        case SelfCloseForm =>
          if p + 12 < g && line[g - 1] == '/' && HasTypeMarker(line[p + 12..g - 1]) then Some(g + 1) else None
        case OpenForm =>
          if HasTypeMarker(line[p + 12..g]) then Some(g + 1) else None
  }

  /** `re.sub(form, repl, line[p..])`, with `repl` taken literally. */
  function SubFrom(line: string, p: nat, form: Form, repl: string): string
    decreases |line| - p
  {
    if p >= |line| then ""
    else match MatchEnd(line, p, form)
      case Some(e) => repl + SubFrom(line, e, form, repl)
      case None => [line[p]] + SubFrom(line, p + 1, form, repl)
  }

  function Sub(line: string, form: Form, repl: string): string {
    SubFrom(line, 0, form, repl)
  }

  /** With no match at or after `p`, substitution leaves the rest of the line as it is. */
  lemma {:induction false} SubFromNoMatch(line: string, p: nat, form: Form, repl: string)
    requires p <= |line|
    requires forall q :: p <= q < |line| ==> MatchEnd(line, q, form).None?
    ensures SubFrom(line, p, form, repl) == line[p..]
    decreases |line| - p
  {
    if p < |line| {
      SubFromNoMatch(line, p + 1, form, repl);
      assert line[p..] == [line[p]] + line[p + 1..];
    }
  }

  lemma SubFromStep(line: string, p: nat, form: Form, repl: string)
    requires p < |line| && MatchEnd(line, p, form).None?
    ensures SubFrom(line, p, form, repl) == [line[p]] + SubFrom(line, p + 1, form, repl)
  {
  }

  lemma SubFromMatchStep(line: string, p: nat, form: Form, repl: string)
    requires p < |line| && MatchEnd(line, p, form).Some?
    ensures SubFrom(line, p, form, repl) == repl + SubFrom(line, MatchEnd(line, p, form).value, form, repl)
  {
  }

  lemma ConsConcat(whole: string, x: char, tail: string, mid: string, rest: string)
    requires whole == [x] + tail && tail == mid + rest
    ensures whole == ([x] + mid) + rest
  {
  }

  /** No match of `form` starts in `[p, q)`. */
  predicate NoMatchIn(line: string, p: nat, q: nat, form: Form) {
    forall k :: p <= k < q ==> MatchEnd(line, k, form).None?
  }

  /** Substitution copies the line up to its first match and puts the
      replacement there. */
  lemma SubFromFirstMatch(line: string, p: nat, q: nat, form: Form, repl: string)
    requires p <= q < |line|
    requires MatchEnd(line, q, form).Some?
    requires NoMatchIn(line, p, q, form)
    ensures SubFrom(line, p, form, repl) ==
      line[p..q] + repl + SubFrom(line, MatchEnd(line, q, form).value, form, repl)
  {
    SubFromCopies(line, p, q, form, repl);
    SubFromMatchStep(line, q, form, repl);
  }

  /** Before the first match, substitution copies the line. */
  lemma SubFromCopies(line: string, p: nat, q: nat, form: Form, repl: string)
    requires p <= q <= |line|
    requires forall k :: p <= k < q ==> MatchEnd(line, k, form).None?
    ensures SubFrom(line, p, form, repl) == line[p..q] + SubFrom(line, q, form, repl)
  {
    var f: nat -> string := (k: nat) => SubFrom(line, k, form, repl);
    forall k | p <= k < q
      ensures f(k) == [line[k]] + f(k + 1)
    {
      SubFromStep(line, k, form, repl);
    }
    CopiesPrefix(line, f, p, q);
  }

  /** A tail `f` that copies one character per step from `p` to `q`. */
  lemma {:induction false} CopiesPrefix(line: string, f: nat -> string, p: nat, q: nat)
    requires p <= q <= |line|
    requires forall k :: p <= k < q ==> f(k) == [line[k]] + f(k + 1)
    ensures f(p) == line[p..q] + f(q)
    decreases q - p
  {
    if p < q {
      CopiesPrefix(line, f, p + 1, q);
      SliceCons(line, p, q);
      ConsConcat(f(p), line[p], f(p + 1), line[p + 1..q], f(q));
    } else {
      assert line[p..q] == [];
    }
  }

  /** The single-line rewrite of translate.py 322-332: the explicit-close
      form first, the self-closing form when the first changed nothing. */
  function SingleLineRewrite(line: string, translation: string): string {
    var repl := "<translation>" + translation + "</translation>";
    var first := Sub(line, CloseForm, repl);
    if first == line then Sub(line, SelfCloseForm, repl) else first
  }

  /** The opening-line rewrite of translate.py 335-339 for a multi-line element. */
  function OpenRewrite(line: string, translation: string): string {
    Sub(line, OpenForm, "<translation>" + translation)
  }

  /** `translation_map` (translate.py 288): for a source that occurs more than
      once, the last entry wins. */
  function TranslationMap(results: seq<Pair>): (m: map<string, string>)
    ensures m.Keys == set j | 0 <= j < |results| :: results[j].source
    decreases |results|
  {
    if results == [] then map[]
    else
      var last := results[|results| - 1];
      TranslationMap(results[..|results| - 1])[last.source := last.translation]
  }

  /** The translation recorded for a source is that of its last entry, so
      every unit with that source receives the same text. */
  lemma {:induction false} TranslationMapLastWins(results: seq<Pair>, j: nat)
    requires j < |results|
    requires forall k :: j < k < |results| ==> results[k].source != results[j].source
    ensures results[j].source in TranslationMap(results)
    ensures TranslationMap(results)[results[j].source] == results[j].translation
    decreases |results|
  {
    if j < |results| - 1 {
      var init := results[..|results| - 1];
      TranslationMapLastWins(init, j);
      assert init[j] == results[j];
    }
  }

  /** The line indices a unit may change: its opening line and the lines
      strictly between the opening line and `endLineNumber - 1`. */
  predicate InSpan(u: Unit, k: int) {
    k == u.lineNumber - 1 || u.lineNumber - 1 < k < u.endLineNumber - 1
  }

  /** The three checks of translate.py 293-319 that an item must pass to be
      written: its source has a translation, both indices are inside the
      file, and the opening line matches one of the unfinished patterns. */
  predicate Applies(lines: seq<string>, u: Unit, m: map<string, string>) {
    u.source in m && u.lineNumber - 1 < |lines| && u.endLineNumber - 1 < |lines| &&
    IsUnfinished(lines[u.lineNumber - 1])
  }

  /** `lines` with the indices in `[a, b)` set to the empty string. */
  function Blank(lines: seq<string>, a: int, b: int): (r: seq<string>)
    ensures |r| == |lines|
  {
    seq(|lines|, k requires 0 <= k < |lines| => if a <= k < b then "" else lines[k])
  }

  /** One iteration of the loop of translate.py 291-345: the new lines and
      whether the item was counted. An item that fails a check leaves every
      line as it was; one that passes changes only lines in its span. */
  function PatchUnit(lines: seq<string>, u: Unit, m: map<string, string>): (r: (seq<string>, bool))
    ensures |r.0| == |lines|
    ensures r.1 == Applies(lines, u, m)
    ensures !r.1 ==> r.0 == lines
    ensures forall k :: 0 <= k < |lines| && !InSpan(u, k) ==> r.0[k] == lines[k]
    ensures r.1 && u.endLineNumber == u.lineNumber ==>
      forall k :: 0 <= k < |lines| && k != u.lineNumber - 1 ==> r.0[k] == lines[k]
  {
    if !Applies(lines, u, m) then (lines, false)
    else
      var ln := u.lineNumber - 1;
      var en := u.endLineNumber - 1;
      var translation := m[u.source];
      if en == ln then (lines[ln := SingleLineRewrite(lines[ln], translation)], true)
      else (Blank(lines[ln := OpenRewrite(lines[ln], translation)], ln + 1, en), true)
  }

  /** The lines and the modified count after the loop has handled the items. */
  datatype Patched = Patched(lines: seq<string>, modified: nat)

  function PatchAll(lines: seq<string>, units: seq<Unit>, m: map<string, string>): (r: Patched)
    ensures |r.lines| == |lines|
    ensures r.modified <= |units|
    decreases |units|
  {
    if units == [] then Patched(lines, 0)
    else
      var prev := PatchAll(lines, units[..|units| - 1], m);
      var step := PatchUnit(prev.lines, units[|units| - 1], m);
      Patched(step.0, prev.modified + if step.1 then 1 else 0)
  }

  /** Frame rule: a line outside the span of every item is never changed. */
  lemma {:induction false} PatchAllFrame(lines: seq<string>, units: seq<Unit>, m: map<string, string>, k: nat)
    requires k < |lines|
    requires forall j :: 0 <= j < |units| ==> !InSpan(units[j], k)
    ensures PatchAll(lines, units, m).lines[k] == lines[k]
    decreases |units|
  {
    if units != [] {
      PatchAllFrame(lines, units[..|units| - 1], m, k);
    }
  }

  /** Items that all fail a check change nothing and are not counted; in
      particular, results that mention none of the items' sources. */
  lemma {:induction false} PatchAllNoneApplies(lines: seq<string>, units: seq<Unit>, m: map<string, string>)
    requires forall j :: 0 <= j < |units| ==> units[j].source !in m
    ensures PatchAll(lines, units, m) == Patched(lines, 0)
    decreases |units|
  {
    if units != [] {
      PatchAllNoneApplies(lines, units[..|units| - 1], m);
    }
  }

  /** The index of some unit's opening line. */
  ghost predicate IsOpeningLine(units: seq<Unit>, k: int) {
    exists j :: 0 <= j < |units| && units[j].lineNumber - 1 == k
  }

  /** The facts about the scan's output that the write-back relies on: a
      unit's lines lie inside the file, a unit that closes on its opening
      line ends there, and units come in line order. */
  lemma ExtractedAt(lines: seq<string>, path: string, j: nat)
    requires j < |Extracted(lines, path)|
    ensures var u := Extracted(lines, path)[j];
      u.lineNumber - 1 < |lines| && u.endLineNumber - 1 < |lines| &&
      (ClosesOnLine(lines[u.lineNumber - 1]) ==> u.endLineNumber == u.lineNumber)
    ensures j + 1 < |Extracted(lines, path)| ==>
      Extracted(lines, path)[j].lineNumber < Extracted(lines, path)[j + 1].lineNumber
  {
    EmittedSound(lines, |lines|, path);
    assert IsExtractedUnit(lines, path, Extracted(lines, path)[j]);
  }

  /** An item whose opening line is still as in the file, and which ends on
      that line whenever the line closes the element (as every item of the
      scan does), changes at most that line: when it passes the pattern
      check the line closes, so the single-line branch runs. */
  lemma ExtractedItemTouchesOneLine(lines: seq<string>, u: Unit, cur: seq<string>, m: map<string, string>)
    requires u.lineNumber - 1 < |lines| && (ClosesOnLine(lines[u.lineNumber - 1]) ==> u.endLineNumber == u.lineNumber)
    requires |cur| == |lines| && cur[u.lineNumber - 1] == lines[u.lineNumber - 1]
    ensures forall k :: 0 <= k < |cur| && k != u.lineNumber - 1 ==> PatchUnit(cur, u, m).0[k] == cur[k]
  {
    if PatchUnit(cur, u, m).1 {
      UnfinishedLineCloses(lines[u.lineNumber - 1]);
    }
  }

  /** After the first `n` items of the scan's output: every line that is not
      the opening line of one of them is as in the file, and so is every line
      from the next item's opening line on. */
  ghost predicate PrefixUntouched(lines: seq<string>, path: string, m: map<string, string>, n: nat)
    requires n <= |Extracted(lines, path)|
  {
    var us := Extracted(lines, path);
    var out := PatchAll(lines, us[..n], m).lines;
    (forall k :: 0 <= k < |lines| && (forall j :: 0 <= j < n ==> us[j].lineNumber - 1 != k) ==> out[k] == lines[k]) &&
    (n < |us| ==> forall k :: us[n].lineNumber - 1 <= k < |lines| ==> out[k] == lines[k])
  }

  lemma {:induction false} PatchExtractedPrefix(lines: seq<string>, path: string, m: map<string, string>, n: nat)
    requires n <= |Extracted(lines, path)|
    ensures PrefixUntouched(lines, path, m, n)
  {
    var us := Extracted(lines, path);
    if n == 0 {
      assert us[..0] == [];
    } else {
      PatchExtractedPrefix(lines, path, m, n - 1);
      PatchExtractedStep(lines, path, m, n);
    }
  }

  /** The induction step of `PatchExtractedPrefix`. */
  lemma PatchExtractedStep(lines: seq<string>, path: string, m: map<string, string>, n: nat)
    requires 0 < n <= |Extracted(lines, path)|
    requires PrefixUntouched(lines, path, m, n - 1)
    ensures PrefixUntouched(lines, path, m, n)
  {
    var us := Extracted(lines, path);
    var prev := PatchAll(lines, us[..n - 1], m).lines;
    var u := us[n - 1];
    assert us[..n][..n - 1] == us[..n - 1];
    assert us[..n][n - 1] == u;
    var out := PatchUnit(prev, u, m).0;
    assert PatchAll(lines, us[..n], m).lines == out;
    ExtractedAt(lines, path, n - 1);
    ExtractedItemTouchesOneLine(lines, u, prev, m);
    UntouchedStep(lines, us, n, prev, out);
  }

  /** The frame facts of `PrefixUntouched` carried from `n - 1` items to
      `n`, when item `n - 1` changes at most its own opening line. */
  lemma UntouchedStep(lines: seq<string>, us: seq<Unit>, n: nat, prev: seq<string>, out: seq<string>)
    requires 0 < n <= |us| && |prev| == |lines| && |out| == |lines|
    requires forall k :: 0 <= k < |lines| && (forall j :: 0 <= j < n - 1 ==> us[j].lineNumber - 1 != k) ==> prev[k] == lines[k]
    requires forall k :: us[n - 1].lineNumber - 1 <= k < |lines| ==> prev[k] == lines[k]
    requires forall k :: 0 <= k < |lines| && k != us[n - 1].lineNumber - 1 ==> out[k] == prev[k]
    requires n < |us| ==> us[n - 1].lineNumber < us[n].lineNumber
    ensures forall k :: 0 <= k < |lines| && (forall j :: 0 <= j < n ==> us[j].lineNumber - 1 != k) ==> out[k] == lines[k]
    ensures n < |us| ==> forall k :: us[n].lineNumber - 1 <= k < |lines| ==> out[k] == lines[k]
  {
    if n < |us| {
      forall k | us[n].lineNumber - 1 <= k < |lines|
        ensures out[k] == lines[k]
      {
        assert k != us[n - 1].lineNumber - 1;
      }
    }
  }

  /** The write-back on the scan's output of the same file changes no line
      other than the opening line of some unit: the multi-line branch
      (translate.py 334-343) never runs on that output and no line is blanked. */
  lemma PatchExtractedOnlyOpeningLines(lines: seq<string>, path: string, m: map<string, string>, k: nat)
    requires k < |lines|
    requires !IsOpeningLine(Extracted(lines, path), k)
    ensures PatchAll(lines, Extracted(lines, path), m).lines[k] == lines[k]
  {
    var us := Extracted(lines, path);
    PatchExtractedPrefix(lines, path, m, |us|);
    assert us[..|us|] == us;
  }

  /** The text the write-back leaves on the opening line of `u`: the
      single-line rewrite with the item's translation when the item passes
      the checks, the line as read otherwise. */
  function WrittenLine(lines: seq<string>, u: Unit, m: map<string, string>): string
    requires u.lineNumber - 1 < |lines|
  {
    if Applies(lines, u, m) then SingleLineRewrite(lines[u.lineNumber - 1], m[u.source])
    else lines[u.lineNumber - 1]
  }

  /** Before item `n` is handled, its opening line is still as read. */
  lemma NextOpeningUntouched(lines: seq<string>, path: string, m: map<string, string>, n: nat)
    requires n < |Extracted(lines, path)|
    ensures var u := Extracted(lines, path)[n];
      u.lineNumber - 1 < |lines| &&
      (ClosesOnLine(lines[u.lineNumber - 1]) ==> u.endLineNumber == u.lineNumber) &&
      PatchAll(lines, Extracted(lines, path)[..n], m).lines[u.lineNumber - 1] == lines[u.lineNumber - 1]
  {
    PatchExtractedPrefix(lines, path, m, n);
    ExtractedAt(lines, path, n);
  }

  /** Item `j` of the scan writes its opening line as `WrittenLine` says. */
  lemma PatchExtractedFirstWrite(lines: seq<string>, path: string, m: map<string, string>, j: nat)
    requires j < |Extracted(lines, path)|
    ensures var u := Extracted(lines, path)[j];
      u.lineNumber - 1 < |lines| &&
      PatchAll(lines, Extracted(lines, path)[..j + 1], m).lines[u.lineNumber - 1] == WrittenLine(lines, u, m)
  {
    var us := Extracted(lines, path);
    var u := us[j];
    PatchAllSnoc(lines, us, j, m);
    NextOpeningUntouched(lines, path, m, j);
    var prev := PatchAll(lines, us[..j], m).lines;
    WriteOnFreshLine(lines, prev, u, m);
  }

  /** An item whose opening line is as read writes `WrittenLine` there. */
  lemma WriteOnFreshLine(lines: seq<string>, prev: seq<string>, u: Unit, m: map<string, string>)
    requires |prev| == |lines| && u.lineNumber - 1 < |lines|
    requires ClosesOnLine(lines[u.lineNumber - 1]) ==> u.endLineNumber == u.lineNumber
    requires prev[u.lineNumber - 1] == lines[u.lineNumber - 1]
    ensures PatchUnit(prev, u, m).0[u.lineNumber - 1] == WrittenLine(lines, u, m)
  {
    assert Applies(prev, u, m) == Applies(lines, u, m);
    if Applies(lines, u, m) {
      UnfinishedLineCloses(lines[u.lineNumber - 1]);
    }
  }

  /** A later item of the scan leaves the opening line of item `j` alone. */
  lemma PatchExtractedLaterKeeps(lines: seq<string>, path: string, m: map<string, string>, j: nat, n: nat)
    requires j + 1 < n <= |Extracted(lines, path)|
    ensures var us := Extracted(lines, path); var k := us[j].lineNumber - 1;
      k < |lines| && PatchAll(lines, us[..n], m).lines[k] == PatchAll(lines, us[..n - 1], m).lines[k]
  {
    var us := Extracted(lines, path);
    PatchAllSnoc(lines, us, n - 1, m);
    NextOpeningUntouched(lines, path, m, n - 1);
    ExtractedIncreasing(lines, path, j, n - 1);
    var prev := PatchAll(lines, us[..n - 1], m).lines;
    var u := us[n - 1];
    var out := PatchUnit(prev, u, m).0;
    assert PatchAll(lines, us[..n], m).lines == out;
    ExtractedItemTouchesOneLine(lines, u, prev, m);
    KeepsOther(prev, out, u.lineNumber - 1, us[j].lineNumber - 1);
  }

  lemma KeepsOther(prev: seq<string>, out: seq<string>, a: int, b: nat)
    requires |out| == |prev| && b < |prev| && a != b
    requires forall k :: 0 <= k < |prev| && k != a ==> out[k] == prev[k]
    ensures out[b] == prev[b]
  {
  }

  lemma {:induction false} PatchExtractedKeeps(lines: seq<string>, path: string, m: map<string, string>, j: nat, n: nat)
    requires j < n <= |Extracted(lines, path)|
    ensures var u := Extracted(lines, path)[j];
      u.lineNumber - 1 < |lines| &&
      PatchAll(lines, Extracted(lines, path)[..n], m).lines[u.lineNumber - 1] == WrittenLine(lines, u, m)
    decreases n
  {
    if n == j + 1 {
      PatchExtractedFirstWrite(lines, path, m, j);
    } else {
      PatchExtractedKeeps(lines, path, m, j, n - 1);
      PatchExtractedLaterKeeps(lines, path, m, j, n);
    }
  }

  /** On the scan's output, every item's opening line ends up as the
      single-line rewrite of the line as read, with the translation its
      source maps to, when the item passes the checks of translate.py
      293-319, and as read otherwise: an item's own write is never undone
      by a later one. */
  lemma PatchExtractedWrites(lines: seq<string>, path: string, m: map<string, string>, j: nat)
    requires j < |Extracted(lines, path)|
    ensures var u := Extracted(lines, path)[j];
      u.lineNumber - 1 < |lines| &&
      PatchAll(lines, Extracted(lines, path), m).lines[u.lineNumber - 1] == WrittenLine(lines, u, m)
  {
    var us := Extracted(lines, path);
    PatchExtractedKeeps(lines, path, m, j, |us|);
    assert us[..|us|] == us;
  }

  /** The number of items that pass the checks of translate.py 293-319
      against the lines as they were read. */
  function CountApplying(lines: seq<string>, units: seq<Unit>, m: map<string, string>): (c: nat)
    ensures c <= |units|
  {
    if units == [] then 0
    else CountApplying(lines, units[..|units| - 1], m) + if Applies(lines, units[|units| - 1], m) then 1 else 0
  }

  /** On the scan's output, `modified_count` is the number of items whose
      source has a translation and whose opening line, as read from the
      file, carries one of the five unfinished patterns: no earlier item
      changes a later item's opening line. */
  lemma {:induction false} PatchExtractedCount(lines: seq<string>, path: string, m: map<string, string>, n: nat)
    requires n <= |Extracted(lines, path)|
    ensures PatchAll(lines, Extracted(lines, path)[..n], m).modified == CountApplying(lines, Extracted(lines, path)[..n], m)
  {
    var us := Extracted(lines, path);
    if n > 0 {
      PatchExtractedCount(lines, path, m, n - 1);
      PatchExtractedPrefix(lines, path, m, n - 1);
      var prev := PatchAll(lines, us[..n - 1], m).lines;
      var u := us[n - 1];
      assert us[..n][..n - 1] == us[..n - 1];
      assert us[..n][n - 1] == u;
      if u.lineNumber - 1 < |lines| {
        assert prev[u.lineNumber - 1] == lines[u.lineNumber - 1];
      }
      assert Applies(prev, u, m) == Applies(lines, u, m);
    }
  }

  /** The blanking loop of translate.py 342-343: `range(a, b)` set to "". */
  method BlankRange(lines: array<string>, a: nat, b: int)
    requires b <= lines.Length
    modifies lines
    ensures lines[..] == Blank(old(lines[..]), a, b)
  {
    var k := a;
    while k < b
      invariant a <= k && (k <= b || k == a)
      invariant lines[..] == Blank(old(lines[..]), a, k)
    {
      lines[k] := "";
      k := k + 1;
    }
  }

  /** One more item: the fold over `units[..n + 1]` is one step after the
      fold over `units[..n]`. */
  lemma PatchAllSnoc(lines: seq<string>, units: seq<Unit>, n: nat, m: map<string, string>)
    requires n < |units|
    ensures PatchAll(lines, units[..n + 1], m) ==
      var prev := PatchAll(lines, units[..n], m);
      var step := PatchUnit(prev.lines, units[n], m);
      Patched(step.0, prev.modified + if step.1 then 1 else 0)
  {
    assert units[..n + 1][..n] == units[..n];
  }

  /** The loop of translate.py 288-345 on the file's lines, in place. */
  method WriteTranslationsBack(lines: array<string>, units: seq<Unit>, results: seq<Pair>) returns (modifiedCount: nat)
    modifies lines
    ensures lines[..] == PatchAll(old(lines[..]), units, TranslationMap(results)).lines
    ensures modifiedCount == PatchAll(old(lines[..]), units, TranslationMap(results)).modified
  {
    var translationMap := TranslationMap(results);
    ghost var original := lines[..];
    modifiedCount := 0;
    for n := 0 to |units|
      invariant lines[..] == PatchAll(original, units[..n], translationMap).lines
      invariant modifiedCount == PatchAll(original, units[..n], translationMap).modified
    {
      var u := units[n];
      PatchAllSnoc(original, units, n, translationMap);
      ghost var before := lines[..];
      ghost var step := PatchUnit(before, u, translationMap);
      if u.source !in translationMap {
        assert !step.1;
        continue;
      }
      var newTranslation := translationMap[u.source];
      var lineNum := u.lineNumber - 1;
      var endLineNum := u.endLineNumber - 1;
      if lineNum >= lines.Length || endLineNum >= lines.Length {
        assert !step.1;
        continue;
      }
      var originalLine := lines[lineNum];
      if !IsUnfinished(originalLine) {
        assert !step.1;
        continue;
      }
      assert step.1;
      if endLineNum == lineNum {
        var newLine := Sub(originalLine, CloseForm, "<translation>" + newTranslation + "</translation>");
        if newLine == originalLine {
          newLine := Sub(originalLine, SelfCloseForm, "<translation>" + newTranslation + "</translation>");
        }
        lines[lineNum] := newLine;
        assert lines[..] == step.0;
      } else {
        lines[lineNum] := OpenRewrite(originalLine, newTranslation);
        BlankRange(lines, lineNum + 1, endLineNum);
        assert lines[..] == step.0;
      }
      modifiedCount := modifiedCount + 1;
    }
    assert units[..|units|] == units;
  }

  // What the write-back puts on a line. The lemmas below take the three
  // shapes an empty unfinished element has in Qt Linguist output, with any
  // text around it that holds no other `<translation` tag.

  /** `<translation type="unfinished"></translation>`. */
  const EmptyUnfinished: string := UnfinishedOpenTag + ">" + "</translation>"

  /** `<translation type="unfinished"/>`. */
  const SelfClosedUnfinished: string := UnfinishedOpenTag + "/>"

  /** `<translation type="unfinished"</translation>`: the opening tag lacks its `>`. */
  const UnclosedUnfinished: string := UnfinishedOpenTag + "</translation" + ">"

  lemma Around(line: string, pre: string, w: string, post: string)
    requires line == pre + w + post
    ensures ContainsAt(line, w, |pre|) && line[..|pre|] == pre && line[|pre| + |w|..] == post
  {
    assert line[|pre|..|pre| + |w|] == w;
  }

  lemma SplitAt(line: string, p: nat, x: string, y: string)
    requires ContainsAt(line, x + y, p)
    ensures ContainsAt(line, x, p) && ContainsAt(line, y, p + |x|)
  {
    assert line[p..p + |x|] == line[p..p + |x| + |y|][..|x|];
    assert line[p + |x|..p + |x| + |y|] == line[p..p + |x| + |y|][|x|..];
  }

  lemma JoinAt(line: string, p: nat, x: string, y: string)
    requires ContainsAt(line, x, p) && ContainsAt(line, y, p + |x|)
    ensures ContainsAt(line, x + y, p)
  {
    assert line[p..p + |x| + |y|] == line[p..p + |x|] + line[p + |x|..p + |x| + |y|];
  }

  lemma CharAt(line: string, w: string, p: nat, i: nat)
    requires ContainsAt(line, w, p) && i < |w|
    ensures line[p + i] == w[i]
  {
    assert line[p + i] == line[p..p + |w|][i];
  }

  lemma ContainsTail(line: string, w: string, p: nat)
    requires ContainsAt(line, w, p) && |w| > 0
    ensures ContainsAt(line, w[1..], p + 1)
  {
    assert line[p + 1..p + |w|] == line[p..p + |w|][1..];
  }

  /** Where `w` occurs at `p` and `c` is absent from `w`, the line holds
      no `c` in the positions `w` covers. */
  lemma NoCharIn(line: string, p: nat, w: string, c: char)
    requires ContainsAt(line, w, p) && c !in w
    ensures forall j :: p <= j < p + |w| ==> line[j] != c
  {
    forall j | p <= j < p + |w|
      ensures line[j] != c
    {
      CharAt(line, w, p, j - p);
    }
  }

  /** An occurrence at or after `e` lies in `line[e..]`. */
  lemma ContainsInSuffix(line: string, e: nat, w: string, k: nat)
    requires e <= k && ContainsAt(line, w, k)
    ensures Contains(line[e..], w)
  {
    assert line[e..][k - e..k - e + |w|] == line[k..k + |w|];
    ContainsAtContains(line[e..], w, k - e);
  }

  lemma MarkerInTag()
    ensures HasTypeMarker(" type=\"unfinished\"")
  {
    assert ContainsAt(" type=\"unfinished\"", "type=\"unfinished\"", 1);
    ContainsAtContains(" type=\"unfinished\"", "type=\"unfinished\"", 1);
  }

  /** The literal `<translation type="unfinished"` at `p`: the opening tag
      starts there, no other `<` falls inside it, and the type marker
      follows the tag name before any `>`. */
  lemma OpenTagAt(line: string, p: nat)
    requires ContainsAt(line, UnfinishedOpenTag, p)
    ensures ContainsAt(line, "<translation", p)
    ensures line[p + 12..p + 30] == " type=\"unfinished\"" && HasTypeMarker(line[p + 12..p + 30])
    ensures forall j :: p < j < p + 30 ==> line[j] != '<'
    ensures forall j :: p + 12 <= j < p + 30 ==> line[j] != '>'
  {
    var marker := " type=\"unfinished\"";
    SplitAt(line, p, "<translation", marker);
    ContainsTail(line, "<translation", p);
    assert '<' !in "<translation"[1..];
    NoCharIn(line, p + 1, "<translation"[1..], '<');
    NoCharIn(line, p + 12, marker, '<');
    NoCharIn(line, p + 12, marker, '>');
    MarkerInTag();
  }

  /** `SkipSpaces` stops at once on a character that is not white space. */
  lemma SkipNone(s: string, i: nat)
    requires i < |s| && !IsSpace(s[i])
    ensures SkipSpaces(s, i) == i
  {
  }

  /** The first `>` at or after `i` is at `g`. */
  lemma NextGtAt(s: string, i: nat, g: nat)
    requires i <= g < |s| && s[g] == '>'
    requires forall j :: i <= j < g ==> s[j] != '>'
    ensures NextIndexOf(s, '>', i) == g
  {
  }

  /** A match of any form starts with `<translation`. */
  lemma NoTagNoMatch(line: string, q: nat, form: Form)
    requires !ContainsAt(line, "<translation", q)
    ensures MatchEnd(line, q, form).None?
  {
  }

  /** `<translation` cannot start where there is no `<`. */
  lemma NoLtNoMatch(line: string, q: nat, form: Form)
    requires q < |line| && line[q] != '<'
    ensures MatchEnd(line, q, form).None?
  {
    if ContainsAt(line, "<translation", q) {
      CharAt(line, "<translation", q, 0);
    }
  }

  /** Text before a `<` that holds no `<translation` holds no such tag
      either: a tag ending past that text would need a second `<` inside
      `<translation`. */
  lemma NoTagBefore(line: string, p: nat)
    requires p < |line| && line[p] == '<' && !Contains(line[..p], "<translation")
    ensures forall q :: 0 <= q < p ==> !ContainsAt(line, "<translation", q)
  {
    forall q | 0 <= q < p
      ensures !ContainsAt(line, "<translation", q)
    {
      if ContainsAt(line, "<translation", q) {
        if q + 12 <= p {
          assert line[..p][q..q + 12] == line[q..q + 12];
          ContainsAtContains(line[..p], "<translation", q);
        } else {
          ContainsTail(line, "<translation", q);
          assert '<' !in "<translation"[1..];
          NoCharIn(line, q + 1, "<translation"[1..], '<');
        }
      }
    }
  }

  lemma NoMatchBefore(line: string, p: nat, form: Form)
    requires p < |line| && line[p] == '<' && !Contains(line[..p], "<translation")
    ensures NoMatchIn(line, 0, p, form)
  {
    NoTagBefore(line, p);
    forall q | 0 <= q < p
      ensures MatchEnd(line, q, form).None?
    {
      NoTagNoMatch(line, q, form);
    }
  }

  /** Text after `e` that holds no `<translation` holds no such tag. */
  lemma NoTagAfter(line: string, e: nat)
    requires e <= |line| && !Contains(line[e..], "<translation")
    ensures forall q :: e <= q ==> !ContainsAt(line, "<translation", q)
  {
    forall q | e <= q
      ensures !ContainsAt(line, "<translation", q)
    {
      if ContainsAt(line, "<translation", q) {
        ContainsInSuffix(line, e, "<translation", q);
      }
    }
  }

  lemma NoMatchAfter(line: string, e: nat, form: Form)
    requires e <= |line| && !Contains(line[e..], "<translation")
    ensures forall q :: e <= q < |line| ==> MatchEnd(line, q, form).None?
  {
    NoTagAfter(line, e);
    forall q | e <= q < |line|
      ensures MatchEnd(line, q, form).None?
    {
      NoTagNoMatch(line, q, form);
    }
  }

  /** A substitution with exactly one match, at `p` and ending at `e`:
      the text around it is copied and the match becomes `repl`. */
  lemma SubOneMatch(line: string, p: nat, e: nat, form: Form, repl: string)
    requires p < |line| && MatchEnd(line, p, form) == Some(e)
    requires NoMatchIn(line, 0, p, form)
    requires forall q :: e <= q < |line| ==> MatchEnd(line, q, form).None?
    ensures Sub(line, form, repl) == line[..p] + repl + line[e..]
  {
    SubFromFirstMatch(line, 0, p, form, repl);
    SubFromNoMatch(line, e, form, repl);
    assert line[0..p] == line[..p];
  }

  /** A substitution with no match at all leaves the line as it is. */
  lemma SubNoMatch(line: string, form: Form, repl: string)
    requires NoMatchIn(line, 0, |line|, form)
    ensures Sub(line, form, repl) == line
  {
    SubFromNoMatch(line, 0, form, repl);
  }

  /** `re.search` from `i` finds a match that starts at `p`. */
  lemma {:induction false} SearchFromReaches(line: string, pat: (string, string), i: nat, p: nat)
    requires i <= p <= |line| && PatternAt(line, p, pat)
    ensures SearchFrom(line, pat, i)
    decreases p - i
  {
    if i < p {
      SearchFromReaches(line, pat, i + 1, p);
    }
  }

  /** One pattern of the list that matches makes `any(...)` hold. */
  lemma {:induction false} AnyPatternAt(line: string, pats: seq<(string, string)>, i: nat)
    requires i < |pats| && SearchFrom(line, pats[i], 0)
    ensures AnyPattern(line, pats)
  {
    if i > 0 {
      AnyPatternAt(line, pats[1..], i - 1);
    }
  }

  /** Pattern `i` of translate.py 307-313 matching at `p` makes the line unfinished. */
  lemma UnfinishedAt(line: string, p: nat, i: nat)
    requires i < 5 && p <= |line| && PatternAt(line, p, UnfinishedPatterns[i])
    ensures IsUnfinished(line)
  {
    SearchFromReaches(line, UnfinishedPatterns[i], 0, p);
    AnyPatternAt(line, UnfinishedPatterns, i);
  }

  /** The patterns of translate.py 308, 309 and 311 in terms of the tag pieces. */
  lemma PatternLiterals()
    ensures UnfinishedPatterns[0] == (OpenUnfinished, "</translation>")
    ensures UnfinishedPatterns[1] == (UnfinishedOpenTag, "</translation" + ">")
    ensures UnfinishedPatterns[3] == (UnfinishedOpenTag, "/>")
  {
    assert "</translation" + ">" == "</translation>";
  }

  /** The replacement differs from the line at the character after the tag
      name: `>` in the replacement, a space in the unfinished tag. */
  lemma ReplDiffers(pre: string, post: string, t: string, line: string)
    requires |pre| + 12 < |line| && line[|pre| + 12] == ' '
    ensures pre + ("<translation>" + t + "</translation>") + post != line
  {
    var repl := "<translation>" + t + "</translation>";
    assert repl[12] == '>';
    assert (pre + repl + post)[|pre| + 12] == repl[12];
  }

  lemma Regroup(a: string, b: string, c: string, d: string, e: string)
    ensures a + (b + c + d) + e == a + b + c + d + e
  {
  }

  /** At an occurrence of `<translation type="unfinished"></translation>`, the
      explicit-close form matches the whole element and pattern 0 of
      translate.py 308 matches too. */
  lemma EmptyAt(line: string, p: nat)
    requires ContainsAt(line, EmptyUnfinished, p)
    ensures MatchEnd(line, p, CloseForm) == Some(p + 45)
    ensures PatternAt(line, p, UnfinishedPatterns[0])
    ensures line[p] == '<' && line[p + 12] == ' '
  {
    SplitAt(line, p, OpenUnfinished, "</translation>");
    SplitAt(line, p, UnfinishedOpenTag, ">");
    OpenTagAt(line, p);
    CharAt(line, ">", p + 30, 0);
    CharAt(line, "</translation>", p + 31, 0);
    CharAt(line, "<translation", p, 0);
    CharAt(line, " type=\"unfinished\"", p + 12, 0);
    NextGtAt(line, p + 12, p + 30);
    SkipNone(line, p + 31);
    PatternLiterals();
  }

  /** An empty element closed by `</translation>` passes the check of
      translate.py 315 and the single-line rewrite puts the translation
      between a plain `<translation>` and `</translation>`, keeping the
      text on either side. */
  lemma RewriteEmptyUnfinished(pre: string, post: string, t: string)
    requires !Contains(pre, "<translation") && !Contains(post, "<translation")
    ensures IsUnfinished(pre + EmptyUnfinished + post)
    ensures SingleLineRewrite(pre + EmptyUnfinished + post, t) == pre + "<translation>" + t + "</translation>" + post
  {
    var line := pre + EmptyUnfinished + post;
    var p := |pre|;
    Around(line, pre, EmptyUnfinished, post);
    EmptyAt(line, p);
    NoMatchBefore(line, p, CloseForm);
    NoMatchAfter(line, p + 45, CloseForm);
    var repl := "<translation>" + t + "</translation>";
    SubOneMatch(line, p, p + 45, CloseForm, repl);
    ReplDiffers(pre, post, t, line);
    Regroup(pre, "<translation>", t, "</translation>", post);
    UnfinishedAt(line, p, 0);
  }

  /** At an occurrence of `<translation type="unfinished"/>`: the opening
      tag ends at `p + 31`, right after a `/`, and no other `<` lies inside. */
  lemma SelfClosedAt(line: string, p: nat)
    requires ContainsAt(line, SelfClosedUnfinished, p)
    ensures NextIndexOf(line, '>', p + 12) == p + 31
    ensures line[p + 30] == '/' && p + 32 <= |line|
    ensures ContainsAt(line, "<translation", p) && HasTypeMarker(line[p + 12..p + 30])
    ensures line[p] == '<' && line[p + 12] == ' '
    ensures forall q :: p < q < p + 32 ==> line[q] != '<'
  {
    SplitAt(line, p, UnfinishedOpenTag, "/>");
    OpenTagAt(line, p);
    CharAt(line, "/>", p + 30, 0);
    CharAt(line, "/>", p + 30, 1);
    CharAt(line, "<translation", p, 0);
    CharAt(line, " type=\"unfinished\"", p + 12, 0);
    NextGtAt(line, p + 12, p + 31);
  }

  /** There the explicit-close form does not match when no `</translation>`
      follows, and the self-closing form matches the whole element. */
  lemma SelfClosedMatches(line: string, p: nat)
    requires ContainsAt(line, SelfClosedUnfinished, p)
    requires !Contains(line[p + 32..], "</translation>")
    ensures MatchEnd(line, p, CloseForm).None?
    ensures MatchEnd(line, p, SelfCloseForm) == Some(p + 32)
  {
    SelfClosedAt(line, p);
    var k := SkipSpaces(line, p + 32);
    if ContainsAt(line, "</translation>", k) {
      ContainsInSuffix(line, p + 32, "</translation>", k);
    }
  }

  /** Pattern 3 of translate.py 311 matches `<translation type="unfinished"/>`. */
  lemma SelfClosedPattern(line: string, p: nat)
    requires ContainsAt(line, SelfClosedUnfinished, p)
    ensures PatternAt(line, p, UnfinishedPatterns[3])
  {
    SplitAt(line, p, UnfinishedOpenTag, "/>");
    CharAt(line, "/>", p + 30, 0);
    SkipNone(line, p + 30);
    PatternLiterals();
  }

  /** A self-closing empty element passes the check; the first rewrite of
      translate.py 323 finds nothing to change, and the second, of line 329,
      turns the element into `<translation>` + the translation +
      `</translation>`. The text after the element must not hold a
      `</translation>` of its own, which the first rewrite could take. */
  lemma RewriteSelfClosedUnfinished(pre: string, post: string, t: string)
    requires !Contains(pre, "<translation") && !Contains(post, "<translation")
    requires !Contains(post, "</translation>")
    ensures IsUnfinished(pre + SelfClosedUnfinished + post)
    ensures SingleLineRewrite(pre + SelfClosedUnfinished + post, t) == pre + "<translation>" + t + "</translation>" + post
  {
    var line := pre + SelfClosedUnfinished + post;
    var p := |pre|;
    Around(line, pre, SelfClosedUnfinished, post);
    SelfClosedAt(line, p);
    SelfClosedMatches(line, p);
    SelfClosedPattern(line, p);
    var repl := "<translation>" + t + "</translation>";
    NoMatchBefore(line, p, CloseForm);
    forall q | p < q < p + 32
      ensures MatchEnd(line, q, CloseForm).None?
    {
      NoLtNoMatch(line, q, CloseForm);
    }
    NoMatchAfter(line, p + 32, CloseForm);
    SubNoMatch(line, CloseForm, repl);
    NoMatchBefore(line, p, SelfCloseForm);
    NoMatchAfter(line, p + 32, SelfCloseForm);
    SubOneMatch(line, p, p + 32, SelfCloseForm, repl);
    Regroup(pre, "<translation>", t, "</translation>", post);
    UnfinishedAt(line, p, 3);
  }

  /** The opening line of a multi-line element: the rewrite of translate.py
      335-339 replaces the unfinished opening tag by a plain `<translation>`
      followed by the translation, and keeps the text after it. */
  lemma RewriteOpenUnfinished(pre: string, post: string, t: string)
    requires !Contains(pre, "<translation") && !Contains(post, "<translation")
    ensures OpenRewrite(pre + OpenUnfinished + post, t) == pre + "<translation>" + t + post
  {
    var line := pre + OpenUnfinished + post;
    var p := |pre|;
    Around(line, pre, OpenUnfinished, post);
    SplitAt(line, p, UnfinishedOpenTag, ">");
    OpenTagAt(line, p);
    CharAt(line, ">", p + 30, 0);
    NextGtAt(line, p + 12, p + 30);
    assert MatchEnd(line, p, OpenForm) == Some(p + 31);
    NoMatchBefore(line, p, OpenForm);
    NoMatchAfter(line, p + 31, OpenForm);
    SubOneMatch(line, p, p + 31, OpenForm, "<translation>" + t);
  }

  /** At an occurrence of `<translation type="unfinished"</translation>`:
      where the opening tag ends, and where `<` occurs inside. */
  lemma UnclosedAt(line: string, p: nat)
    requires ContainsAt(line, UnclosedUnfinished, p)
    ensures NextIndexOf(line, '>', p + 12) == p + 43 && line[p + 42] == 'n'
    ensures line[p] == '<' && line[p + 30] == '<' && line[p + 31] == '/'
    ensures forall q :: p < q < p + 44 && q != p + 30 ==> line[q] != '<'
    ensures HasTypeMarker(line[p + 12..p + 30])
  {
    SplitAt(line, p, UnfinishedOpenTag + "</translation", ">");
    SplitAt(line, p, UnfinishedOpenTag, "</translation");
    OpenTagAt(line, p);
    assert '>' !in "</translation";
    NoCharIn(line, p + 30, "</translation", '>');
    CharAt(line, ">", p + 43, 0);
    NextGtAt(line, p + 12, p + 43);
    CharAt(line, "</translation", p + 30, 12);
    CharAt(line, "<translation", p, 0);
    UnclosedLts(line, p);
  }

  lemma UnclosedLts(line: string, p: nat)
    requires ContainsAt(line, UnfinishedOpenTag + "</translation", p)
    requires forall q :: p < q < p + 30 ==> line[q] != '<'
    ensures line[p + 30] == '<' && line[p + 31] == '/'
    ensures forall q :: p < q < p + 43 && q != p + 30 ==> line[q] != '<'
  {
    SplitAt(line, p, UnfinishedOpenTag, "</translation");
    CharAt(line, "</translation", p + 30, 0);
    CharAt(line, "</translation", p + 30, 1);
    ContainsTail(line, "</translation", p + 30);
    assert '<' !in "</translation"[1..];
    NoCharIn(line, p + 31, "</translation"[1..], '<');
  }

  /** Pattern 1 of translate.py 309 matches `<translation type="unfinished"</translation>`. */
  lemma UnclosedPattern(line: string, p: nat)
    requires ContainsAt(line, UnclosedUnfinished, p)
    ensures PatternAt(line, p, UnfinishedPatterns[1])
  {
    SplitAt(line, p, UnfinishedOpenTag + "</translation", ">");
    SplitAt(line, p, UnfinishedOpenTag, "</translation");
    JoinAt(line, p + 30, "</translation", ">");
    CharAt(line, "</translation", p + 30, 0);
    SkipNone(line, p + 30);
    PatternLiterals();
  }

  /** No match of `form` in a line holding `<translation type="unfinished"</translation>`. */
  lemma UnclosedNoMatch(line: string, p: nat, form: Form)
    requires ContainsAt(line, UnclosedUnfinished, p)
    requires !Contains(line[..p], "<translation") && !Contains(line[p + 44..], "<translation")
    requires !Contains(line[p + 44..], "</translation>")
    requires form != OpenForm
    ensures NoMatchIn(line, 0, |line|, form)
  {
    UnclosedAt(line, p);
    var k := SkipSpaces(line, p + 44);
    if ContainsAt(line, "</translation>", k) {
      ContainsInSuffix(line, p + 44, "</translation>", k);
    }
    assert MatchEnd(line, p, form).None?;
    NoMatchBefore(line, p, form);
    forall q | p < q < p + 44
      ensures MatchEnd(line, q, form).None?
    {
      if q == p + 30 {
        if ContainsAt(line, "<translation", q) {
          CharAt(line, "<translation", q, 1);
        }
        NoTagNoMatch(line, q, form);
      } else {
        NoLtNoMatch(line, q, form);
      }
    }
    NoMatchAfter(line, p + 44, form);
  }

  /** The pattern of translate.py 309 accepts an opening tag that lacks its
      `>`, but neither rewrite of lines 323 and 329 matches it: the line is
      written back unchanged, although the item passes every check and is
      counted in `modified_count`. */
  lemma UnclosedUnfinishedCountedUnchanged(pre: string, post: string, t: string)
    requires !Contains(pre, "<translation") && !Contains(post, "<translation")
    requires !Contains(post, "</translation>")
    ensures IsUnfinished(pre + UnclosedUnfinished + post)
    ensures SingleLineRewrite(pre + UnclosedUnfinished + post, t) == pre + UnclosedUnfinished + post
  {
    var line := pre + UnclosedUnfinished + post;
    var p := |pre|;
    Around(line, pre, UnclosedUnfinished, post);
    var repl := "<translation>" + t + "</translation>";
    UnclosedNoMatch(line, p, CloseForm);
    UnclosedNoMatch(line, p, SelfCloseForm);
    SubNoMatch(line, CloseForm, repl);
    SubNoMatch(line, SelfCloseForm, repl);
    UnclosedPattern(line, p);
    UnfinishedAt(line, p, 1);
  }

  /** Every pattern of translate.py 307-313 starts with `<translation`. */
  lemma PatternStartsWithTag(line: string, q: nat, i: nat)
    requires i < 5 && PatternAt(line, q, UnfinishedPatterns[i])
    ensures ContainsAt(line, "<translation", q)
  {
    if i == 0 {
      SplitAt(line, q, UnfinishedOpenTag, ">");
    }
    if i == 2 {
      SplitAt(line, q, UnfinishedOpenTagSingle, ">");
    }
    if i == 0 || i == 1 || i == 3 {
      SplitAt(line, q, "<translation", " type=\"unfinished\"");
    } else {
      SplitAt(line, q, "<translation", " type='unfinished'");
    }
  }

  /** `re.search` from `i` fails when the pattern matches at no position from `i` on. */
  lemma {:induction false} NoSearchFrom(line: string, pat: (string, string), i: nat)
    requires forall q :: i <= q <= |line| ==> !PatternAt(line, q, pat)
    ensures !SearchFrom(line, pat, i)
    decreases |line| - i
  {
    if i < |line| {
      NoSearchFrom(line, pat, i + 1);
    }
  }

  lemma {:induction false} NoAnyPattern(line: string, pats: seq<(string, string)>)
    requires forall j :: 0 <= j < |pats| ==> !SearchFrom(line, pats[j], 0)
    ensures !AnyPattern(line, pats)
  {
    if |pats| > 0 {
      NoAnyPattern(line, pats[1..]);
    }
  }

  lemma Around5(line: string, a: string, b: string, c: string, d: string, e: string)
    requires line == a + b + c + d + e
    ensures ContainsAt(line, b, |a|) && ContainsAt(line, c, |a| + |b|) && ContainsAt(line, d, |a| + |b| + |c|)
    ensures line[..|a|] == a && line[|a| + |b| + |c| + |d|..] == e
  {
    assert line[|a|..|a| + |b|] == b;
    assert line[|a| + |b|..|a| + |b| + |c|] == c;
    assert line[|a| + |b| + |c|..|a| + |b| + |c| + |d|] == d;
  }

  /** In a filled unfinished element, `<translation` occurs only where the element opens. */
  lemma FilledTagOnlyAtStart(line: string, pre: string, body: string, post: string)
    requires line == pre + OpenUnfinished + body + "</translation>" + post
    requires !Contains(pre, "<translation") && !Contains(post, "<translation") && '<' !in body
    ensures forall q :: q != |pre| ==> !ContainsAt(line, "<translation", q)
  {
    var p := |pre|;
    var c := p + 31 + |body|;
    Around5(line, pre, OpenUnfinished, body, "</translation>", post);
    SplitAt(line, p, UnfinishedOpenTag, ">");
    OpenTagAt(line, p);
    CharAt(line, ">", p + 30, 0);
    NoCharIn(line, p + 31, body, '<');
    CloseTagLts(line, c);
    NoTagBefore(line, p);
    NoTagAfter(line, c + 14);
    forall q | q != p && p < q < c + 14
      ensures !ContainsAt(line, "<translation", q)
    {
      if ContainsAt(line, "<translation", q) {
        TagHead(line, q);
      }
    }
  }

  lemma TagHead(line: string, q: nat)
    requires ContainsAt(line, "<translation", q)
    ensures line[q] == '<' && line[q + 1] == 't'
  {
    CharAt(line, "<translation", q, 0);
    CharAt(line, "<translation", q, 1);
  }

  /** Inside `</translation>` the only `<` is the first character, followed by `/`. */
  lemma CloseTagLts(line: string, c: nat)
    requires ContainsAt(line, "</translation>", c)
    ensures line[c] == '<' && line[c + 1] == '/'
    ensures forall q :: c < q < c + 14 ==> line[q] != '<'
  {
    CharAt(line, "</translation>", c, 0);
    CharAt(line, "</translation>", c, 1);
    ContainsTail(line, "</translation>", c);
    assert '<' !in "</translation>"[1..];
    NoCharIn(line, c + 1, "</translation>"[1..], '<');
  }

  /** The double-quoted tag does not match the single-quoted patterns of translate.py 310 and 312. */
  lemma SingleQuotedMiss(line: string, p: nat, i: nat)
    requires ContainsAt(line, UnfinishedOpenTag, p) && (i == 2 || i == 4)
    ensures !ContainsAt(line, UnfinishedPatterns[i].0, p)
  {
    SplitAt(line, p, "<translation", " type=\"unfinished\"");
    CharAt(line, " type=\"unfinished\"", p + 12, 6);
    if ContainsAt(line, UnfinishedPatterns[i].0, p) {
      if i == 2 {
        SplitAt(line, p, UnfinishedOpenTagSingle, ">");
      }
      SplitAt(line, p, "<translation", " type='unfinished'");
      CharAt(line, " type='unfinished'", p + 12, 6);
    }
  }

  /** After `<translation type="unfinished">` neither `</translation>` nor
      `/>` starts at the `>`, so the patterns of translate.py 309 and 311 miss. */
  lemma ClosedTagMiss(line: string, p: nat, i: nat)
    requires ContainsAt(line, OpenUnfinished, p) && (i == 1 || i == 3)
    ensures !PatternAt(line, p, UnfinishedPatterns[i])
  {
    SplitAt(line, p, UnfinishedOpenTag, ">");
    CharAt(line, ">", p + 30, 0);
    SkipNone(line, p + 30);
    if ContainsAt(line, UnfinishedPatterns[i].1, p + 30) {
      CharAt(line, UnfinishedPatterns[i].1, p + 30, 0);
    }
  }

  /** After `<translation type="unfinished">` and its white space comes a
      character of the body, not the `<` of `</translation>`. */
  lemma FilledBodyMiss(line: string, p: nat, body: string)
    requires ContainsAt(line, body, p + 31) && '<' !in body && Strip(body) != ""
    ensures !ContainsAt(line, "</translation>", SkipSpaces(line, p + 31))
  {
    var b0 := LeadingSpaces(body);
    CharAt(line, body, p + 31, b0);
    var k := SkipSpaces(line, p + 31);
    NoCharIn(line, p + 31, body, '<');
    if ContainsAt(line, "</translation>", k) {
      CharAt(line, "</translation>", k, 0);
    }
  }

  /** Where a filled unfinished element opens, none of the five patterns
      matches: after `>` comes text that is not white space, and the
      quotes rule out the single-quoted forms. */
  lemma FilledNoPatternAtStart(line: string, p: nat, body: string, i: nat)
    requires ContainsAt(line, OpenUnfinished, p) && ContainsAt(line, body, p + 31)
    requires '<' !in body && Strip(body) != "" && i < 5
    ensures !PatternAt(line, p, UnfinishedPatterns[i])
  {
    SplitAt(line, p, UnfinishedOpenTag, ">");
    if i == 2 || i == 4 {
      SingleQuotedMiss(line, p, i);
    } else if i == 1 || i == 3 {
      ClosedTagMiss(line, p, i);
    } else {
      FilledBodyMiss(line, p, body);
    }
  }

  /** A translation that is already filled in is never written: with text
      other than white space between `<translation type="unfinished">` and
      `</translation>`, the line matches none of the patterns of
      translate.py 307-313, so the item is skipped at line 317. */
  lemma FilledUnfinishedSkipped(pre: string, body: string, post: string)
    requires !Contains(pre, "<translation") && !Contains(post, "<translation")
    requires '<' !in body && Strip(body) != ""
    ensures !IsUnfinished(pre + OpenUnfinished + body + "</translation>" + post)
  {
    var line := pre + OpenUnfinished + body + "</translation>" + post;
    var p := |pre|;
    Around5(line, pre, OpenUnfinished, body, "</translation>", post);
    FilledTagOnlyAtStart(line, pre, body, post);
    forall i | 0 <= i < 5
      ensures !SearchFrom(line, UnfinishedPatterns[i], 0)
    {
      forall q | 0 <= q <= |line|
        ensures !PatternAt(line, q, UnfinishedPatterns[i])
      {
        if q == p {
          FilledNoPatternAtStart(line, p, body, i);
        } else if PatternAt(line, q, UnfinishedPatterns[i]) {
          PatternStartsWithTag(line, q, i);
        }
      }
      NoSearchFrom(line, UnfinishedPatterns[i], 0);
    }
    NoAnyPattern(line, UnfinishedPatterns);
  }

  /** The bare element of translate.py 309 as a one-line file: the item
      passes every check and is counted, and the file comes back as it was. */
  lemma UnclosedItemCounted(source: string, t: string, path: string)
    ensures PatchUnit([UnclosedUnfinished], Unit(source, "", 1, 1, path), map[source := t]) == ([UnclosedUnfinished], true)
  {
    var lines := [UnclosedUnfinished];
    var u := Unit(source, "", 1, 1, path);
    var m := map[source := t];
    UnclosedUnfinishedCountedUnchanged("", "", t);
    assert "" + UnclosedUnfinished + "" == UnclosedUnfinished;
    assert lines[0] == UnclosedUnfinished;
    assert Applies(lines, u, m);
    assert lines[0 := SingleLineRewrite(lines[0], t)] == lines;
  }
}
