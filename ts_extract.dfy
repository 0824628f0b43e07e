/** The line scan that finds unfinished translations in a Qt `.ts` file
    (`find_unfinished_translations`, qt-translation-assistant/translate.py
    144-188). The file is its list of lines; line numbers in a `Unit` follow
    the source: `lineNumber` is 1-based, while `endLineNumber` is the 0-based
    index of the line that closes the translation element. */
module TsExtract {
  import opened Text

  /** A line number that the patcher can index with after subtracting one. */
  type LineNo = n: int | 1 <= n witness 1

  /** One unfinished translation found by the scan. */
  datatype Unit = Unit(source: string, translation: string, lineNumber: LineNo, endLineNumber: LineNo, filePath: string)

  /** The bound `line_num + 20` of translate.py 176. Because `line_num` is
      1-based, the scan inspects the `LookAhead + 1` = 21 lines after the
      opening one for the closing tag. */
  const LookAhead: nat := 20

  /** The regular expression `<source>([^<]+)</source>` matched at position `p`:
      its group is the non-empty run of characters other than `<` that follows
      `<source>`, and `</source>` must start at the `<` ending that run. */
  function SourceAt(line: string, p: nat): (r: Option<string>)
    ensures r.Some? ==> r.value != "" && '<' !in r.value
  {
    if ContainsAt(line, "<source>", p) then
      var k := NextIndexOf(line, '<', p + 8);
      if k > p + 8 && ContainsAt(line, "</source>", k) then Some(line[p + 8..k]) else None
    else None
  }

  /** `re.search` of the source pattern from position `p`: the leftmost match wins. */
  function SourceFrom(line: string, p: nat): (r: Option<string>)
    ensures r.Some? ==> r.value != "" && '<' !in r.value
    ensures r.None? ==> forall q :: p <= q < |line| ==> SourceAt(line, q).None?
    decreases |line| - p
  {
    if p >= |line| then None
    else match SourceAt(line, p)
      case Some(t) => Some(t)
      case None => SourceFrom(line, p + 1)
  }

  /** The text of the first one-line `<source>` element on the line (translate.py 153). */
  function SourceMatch(line: string): Option<string> {
    SourceFrom(line, 0)
  }

  /** The line carries `type="unfinished"` or `type='unfinished'` (translate.py 160). */
  predicate HasMarker(line: string) {
    Contains(line, "type=\"unfinished\"") || Contains(line, "type='unfinished'")
  }

  /** A translation line with the unfinished marker (translate.py 158-163). */
  predicate IsMarkedLine(line: string) {
    Contains(line, "<translation") && HasMarker(line)
  }

  /** The translation element ends on its opening line (translate.py 164). */
  predicate ClosesOnLine(line: string) {
    Contains(line, "</translation>") || Contains(line, "/>")
  }

  /** The inner `while` loop of translate.py 173-177 from the current look-ahead
      position `e`, for the marked line at 0-based index `i`: it stops at the
      first line holding `</translation>`, at the end of the file, or one past
      the look-ahead bound. */
  function ScanEnd(lines: seq<string>, i: nat, e: nat): (r: nat)
    requires i < e <= i + LookAhead + 1
    requires e <= |lines|
    ensures e <= r <= i + LookAhead + 2
    ensures r <= |lines|
    ensures r < |lines| && r <= i + LookAhead + 1 ==> Contains(lines[r], "</translation>")
    ensures forall k :: e <= k < r ==> !Contains(lines[k], "</translation>")
    decreases i + LookAhead + 2 - e
  {
    if e < |lines| && !Contains(lines[e], "</translation>") then
      if e + 1 > i + 1 + LookAhead then e + 1 else ScanEnd(lines, i, e + 1)
    else e
  }

  /** How one line changes the pending source (`current_source`): a source line
      sets it, a marked translation line clears it, any other line keeps it. */
  function Step(line: string, pending: Option<string>): Option<string> {
    match SourceMatch(line)
    case Some(t) => Some(t)
    case None => if pending.Some? && IsMarkedLine(line) then None else pending
  }

  /** The pending source just before the scan reaches the line at index `i`. */
  function PendingAt(lines: seq<string>, i: nat): Option<string>
    requires i <= |lines|
  {
    if i == 0 then None else Step(lines[i - 1], PendingAt(lines, i - 1))
  }

  /** The line at index `i` yields a unit: it is a marked translation line, not a
      source line, some source is pending, and the translation closes on the
      line or the look-ahead stops before the end of the file. */
  predicate Emits(lines: seq<string>, i: nat)
    requires i < |lines|
  {
    SourceMatch(lines[i]).None? && PendingAt(lines, i).Some? && IsMarkedLine(lines[i]) &&
    (ClosesOnLine(lines[i]) || ScanEnd(lines, i, i + 1) < |lines|)
  }

  /** The units the scan appends while on the line at index `i` (none or one). */
  function EmitAt(lines: seq<string>, i: nat, path: string): seq<Unit>
    requires i < |lines|
  {
    var line := lines[i];
    var pending := PendingAt(lines, i);
    if SourceMatch(line).None? && pending.Some? && IsMarkedLine(line) then
      if ClosesOnLine(line) then [Unit(pending.value, "", i + 1, i + 1, path)]
      else
        var e := ScanEnd(lines, i, i + 1);
        if e < |lines| then [Unit(pending.value, "", i + 1, e, path)] else []
    else []
  }

  /** The units found in the first `n` lines. */
  function Emitted(lines: seq<string>, n: nat, path: string): seq<Unit>
    requires n <= |lines|
  {
    if n == 0 then [] else Emitted(lines, n - 1, path) + EmitAt(lines, n - 1, path)
  }

  /** The result of `find_unfinished_translations` on a file with these lines. */
  function Extracted(lines: seq<string>, path: string): seq<Unit> {
    Emitted(lines, |lines|, path)
  }

  /** The scan of translate.py 145-188: one pass over the lines with a pending
      source, and a bounded look-ahead for multi-line translation elements. */
  method FindUnfinishedTranslations(lines: seq<string>, path: string) returns (results: seq<Unit>)
    ensures results == Extracted(lines, path)
  {
    results := [];
    // `current_source` is never the empty string when set, so Python's
    // truthiness test of line 158 is the same as `current.Some?`.
    var current: Option<string> := None;
    for i := 0 to |lines|
      invariant results == Emitted(lines, i, path)
      invariant current == PendingAt(lines, i)
    {
      var line := lines[i];
      EmittedNext(lines, i, path);
      var sourceMatch := SourceMatch(line);
      if sourceMatch.Some? {
        EmitAtSkip(lines, i, path);
        current := sourceMatch;
        continue;
      }
      if current.Some? && Contains(line, "<translation") {
        var hasUnfinishedMarker := false;
        if Contains(line, "type=\"unfinished\"") || Contains(line, "type='unfinished'") {
          hasUnfinishedMarker := true;
        }
        if hasUnfinishedMarker {
          assert IsMarkedLine(line);
          if Contains(line, "</translation>") || Contains(line, "/>") {
            EmitAtClosed(lines, i, path);
            results := results + [Unit(current.value, "", i + 1, i + 1, path)];
          } else {
            var endLine := ScanToClose(lines, i);
            EmitAtOpen(lines, i, path);
            if endLine < |lines| {
              results := results + [Unit(current.value, "", i + 1, endLine, path)];
            }
          }
          current := None;
        } else {
          EmitAtSkip(lines, i, path);
        }
      } else {
        EmitAtSkip(lines, i, path);
      }
    }
  }

  /** How the scan's state advances over the line at index `i`. */
  lemma EmittedNext(lines: seq<string>, i: nat, path: string)
    requires i < |lines|
    ensures Emitted(lines, i + 1, path) == Emitted(lines, i, path) + EmitAt(lines, i, path)
    ensures PendingAt(lines, i + 1) == Step(lines[i], PendingAt(lines, i))
  {
  }

  /** A line that is a source line, has nothing pending or is not a marked
      translation line yields no unit. */
  lemma EmitAtSkip(lines: seq<string>, i: nat, path: string)
    requires i < |lines|
    requires !(SourceMatch(lines[i]).None? && PendingAt(lines, i).Some? && IsMarkedLine(lines[i]))
    ensures EmitAt(lines, i, path) == []
  {
  }

  /** A marked line with a pending source that closes on the line yields a
      one-line unit. */
  lemma EmitAtClosed(lines: seq<string>, i: nat, path: string)
    requires i < |lines|
    requires SourceMatch(lines[i]).None? && PendingAt(lines, i).Some? && IsMarkedLine(lines[i])
    requires ClosesOnLine(lines[i])
    ensures EmitAt(lines, i, path) == [Unit(PendingAt(lines, i).value, "", i + 1, i + 1, path)]
  {
  }

  /** A marked line with a pending source that does not close on the line
      yields a unit ending where the look-ahead stops, unless it stops at the
      end of the file. */
  lemma EmitAtOpen(lines: seq<string>, i: nat, path: string)
    requires i < |lines|
    requires SourceMatch(lines[i]).None? && PendingAt(lines, i).Some? && IsMarkedLine(lines[i])
    requires !ClosesOnLine(lines[i])
    ensures var e := ScanEnd(lines, i, i + 1);
      EmitAt(lines, i, path) == if e < |lines| then [Unit(PendingAt(lines, i).value, "", i + 1, e, path)] else []
  {
  }

  /** The look-ahead loop of translate.py 173-177 for the marked line at index `i`. */
  method ScanToClose(lines: seq<string>, i: nat) returns (endLine: nat)
    requires i < |lines|
    ensures endLine == ScanEnd(lines, i, i + 1)
  {
    endLine := i + 1;
    while endLine < |lines| && !Contains(lines[endLine], "</translation>")
      invariant i + 1 <= endLine <= i + LookAhead + 1
      invariant endLine <= |lines|
      invariant ScanEnd(lines, i, endLine) == ScanEnd(lines, i, i + 1)
      decreases i + LookAhead + 1 - endLine
    {
      ghost var previous := endLine;
      endLine := endLine + 1;
      if endLine > i + 1 + LookAhead {
        assert ScanEnd(lines, i, previous) == endLine;
        break;
      }
    }
  }

  /** The pending source is never empty and never holds `<`. */
  lemma {:induction false} PendingNonEmpty(lines: seq<string>, i: nat)
    requires i <= |lines|
    ensures PendingAt(lines, i).Some? ==> PendingAt(lines, i).value != "" && '<' !in PendingAt(lines, i).value
  {
    if i > 0 {
      PendingNonEmpty(lines, i - 1);
    }
  }

  /** The span facts for a unit whose opening line is at index `i`: a
      translation closing on its opening line gives `endLineNumber ==
      lineNumber`; otherwise `endLineNumber` is the 0-based index of the first
      later line holding `</translation>`, or one past the look-ahead bound when
      none of the 21 lines after the opening one holds it, and lies before the
      end of the file. */
  ghost predicate SpanOk(lines: seq<string>, i: nat, endLineNumber: int)
    requires i < |lines|
  {
    (ClosesOnLine(lines[i]) ==> endLineNumber == i + 1) &&
    (!ClosesOnLine(lines[i]) ==>
      i + 1 <= endLineNumber <= i + LookAhead + 2 && endLineNumber < |lines| &&
      (endLineNumber <= i + LookAhead + 1 ==> Contains(lines[endLineNumber], "</translation>")) &&
      forall k :: i < k < endLineNumber ==> !Contains(lines[k], "</translation>"))
  }

  /** What every unit of the scan satisfies. */
  ghost predicate IsExtractedUnit(lines: seq<string>, path: string, u: Unit) {
    var i := u.lineNumber - 1;
    i < |lines| && Emits(lines, i) &&
    PendingAt(lines, i) == Some(u.source) && u.source != "" && '<' !in u.source &&
    u.translation == "" && u.filePath == path &&
    SpanOk(lines, i, u.endLineNumber)
  }

  lemma EmitAtUnit(lines: seq<string>, i: nat, path: string)
    requires i < |lines|
    ensures |EmitAt(lines, i, path)| <= 1
    ensures EmitAt(lines, i, path) != [] <==> Emits(lines, i)
    ensures forall u :: u in EmitAt(lines, i, path) ==> u.lineNumber == i + 1 && IsExtractedUnit(lines, path, u)
  {
    PendingNonEmpty(lines, i);
  }

  /** The size and position facts of `EmitAtUnit` alone. */
  lemma EmitAtShape(lines: seq<string>, i: nat, path: string)
    requires i < |lines|
    ensures |EmitAt(lines, i, path)| <= 1
    ensures EmitAt(lines, i, path) != [] <==> Emits(lines, i)
    ensures forall u :: u in EmitAt(lines, i, path) ==> u.lineNumber == i + 1
  {
  }

  /** The units found in the first `n` lines open on one of them. */
  lemma {:induction false} EmittedBelow(lines: seq<string>, n: nat, path: string)
    requires n <= |lines|
    ensures forall j :: 0 <= j < |Emitted(lines, n, path)| ==> Emitted(lines, n, path)[j].lineNumber <= n
  {
    if n > 0 {
      EmittedBelow(lines, n - 1, path);
      EmitAtShape(lines, n - 1, path);
      var prev: seq<Unit> := Emitted(lines, n - 1, path);
      var here: seq<Unit> := EmitAt(lines, n - 1, path);
      assert Emitted(lines, n, path) == prev + here;
      AppendBelow(prev, here, n);
    }
  }

  /** Units opening on line `n` appended after units opening on earlier lines. */
  lemma AppendBelow(prev: seq<Unit>, here: seq<Unit>, n: nat)
    requires forall j :: 0 <= j < |prev| ==> prev[j].lineNumber <= n
    requires forall u :: u in here ==> u.lineNumber == n
    ensures forall j :: 0 <= j < |prev + here| ==> (prev + here)[j].lineNumber <= n
  {
    forall j | 0 <= j < |prev + here|
      ensures (prev + here)[j].lineNumber <= n
    {
      if j >= |prev| {
        assert (prev + here)[j] in here;
      }
    }
  }

  /** Ordered units satisfying `ok`, opening before line `n`, followed by at
      most one unit satisfying `ok` that opens on line `n`. */
  lemma AppendOrdered(prev: seq<Unit>, here: seq<Unit>, n: nat, ok: Unit -> bool)
    requires forall j :: 0 <= j < |prev| ==> ok(prev[j]) && prev[j].lineNumber < n
    requires forall a, b :: 0 <= a < b < |prev| ==> prev[a].lineNumber < prev[b].lineNumber
    requires forall u :: u in here ==> ok(u) && u.lineNumber == n
    requires |here| <= 1
    ensures forall j :: 0 <= j < |prev + here| ==> ok((prev + here)[j]) && (prev + here)[j].lineNumber <= n
    ensures forall a, b :: 0 <= a < b < |prev + here| ==> (prev + here)[a].lineNumber < (prev + here)[b].lineNumber
  {
    forall j | 0 <= j < |prev + here|
      ensures ok((prev + here)[j]) && (prev + here)[j].lineNumber <= n
    {
      if j >= |prev| {
        assert (prev + here)[j] in here;
      }
    }
    forall a, b | 0 <= a < b < |prev + here|
      ensures (prev + here)[a].lineNumber < (prev + here)[b].lineNumber
    {
      if b >= |prev| {
        assert (prev + here)[b] in here;
      }
    }
  }

  /** Soundness of the scan: every unit satisfies `IsExtractedUnit`, units come
      in strictly increasing `lineNumber`, and each unit comes from a line that
      `Emits`, so a line without the marker, a source line, or a marked line
      with nothing pending never yields one. */
  lemma {:induction false} EmittedSound(lines: seq<string>, n: nat, path: string)
    requires n <= |lines|
    ensures forall j :: 0 <= j < |Emitted(lines, n, path)| ==>
      IsExtractedUnit(lines, path, Emitted(lines, n, path)[j]) && Emitted(lines, n, path)[j].lineNumber <= n
    ensures forall a, b :: 0 <= a < b < |Emitted(lines, n, path)| ==>
      Emitted(lines, n, path)[a].lineNumber < Emitted(lines, n, path)[b].lineNumber
  {
    if n > 0 {
      EmittedSound(lines, n - 1, path);
      EmitAtUnit(lines, n - 1, path);
      var prev: seq<Unit> := Emitted(lines, n - 1, path);
      var here: seq<Unit> := EmitAt(lines, n - 1, path);
      assert Emitted(lines, n, path) == prev + here;
      AppendOrdered(prev, here, n, u => IsExtractedUnit(lines, path, u));
    }
  }

  /** Some unit of `us` opens on the line at index `i`. */
  ghost predicate HasUnitAt(us: seq<Unit>, i: nat) {
    exists j :: 0 <= j < |us| && us[j].lineNumber == i + 1
  }

  lemma HasUnitAtAppend(prev: seq<Unit>, here: seq<Unit>, i: nat)
    ensures HasUnitAt(prev + here, i) <==> HasUnitAt(prev, i) || HasUnitAt(here, i)
  {
    if HasUnitAt(prev + here, i) {
      var j :| 0 <= j < |prev + here| && (prev + here)[j].lineNumber == i + 1;
      if j < |prev| {
        assert prev[j] == (prev + here)[j];
      } else {
        assert here[j - |prev|] == (prev + here)[j];
      }
    }
    if HasUnitAt(prev, i) {
      var j :| 0 <= j < |prev| && prev[j].lineNumber == i + 1;
      assert (prev + here)[j] == prev[j];
    }
    if HasUnitAt(here, i) {
      var j :| 0 <= j < |here| && here[j].lineNumber == i + 1;
      assert (prev + here)[|prev| + j] == here[j];
    }
  }

  /** No unit of `us` opens after line `n`. */
  lemma NoUnitAfter(us: seq<Unit>, n: nat)
    requires forall j :: 0 <= j < |us| ==> us[j].lineNumber <= n
    ensures !HasUnitAt(us, n)
  {
  }

  /** Completeness of the scan: a line yields a unit exactly when it `Emits`; in
      particular a marked line with a pending source loses its unit only when
      the look-ahead runs into the end of the file. */
  lemma EmittedComplete(lines: seq<string>, n: nat, path: string, i: nat)
    requires i < n <= |lines|
    ensures Emits(lines, i) <==> HasUnitAt(Emitted(lines, n, path), i)
  {
    var at := EmitFn(lines, path);
    EmittedConcat(lines, n, path);
    EmitFnShape(lines, path);
    EmitAtShape(lines, i, path);
    EmitFnAt(lines, path, i);
    ConcatComplete(at, n, i);
  }

  /** With every line's units opening on that line, and at most one per line,
      line `i` has a unit among the first `n` lines' exactly when it emits one. */
  lemma ConcatComplete(at: nat -> seq<Unit>, n: nat, i: nat)
    requires i < n
    requires forall k: nat, u :: u in at(k) ==> u.lineNumber == k + 1
    requires |at(i)| <= 1
    ensures at(i) != [] <==> HasUnitAt(Concat(at, n), i)
  {
    ConcatStable(at, n, i);
    ConcatLast(at, i + 1);
  }

  /** The units of each line, as one function; past the end there are none. */
  function EmitFn(lines: seq<string>, path: string): nat -> seq<Unit> {
    (k: nat) => if k < |lines| then EmitAt(lines, k, path) else []
  }

  /** The units of lines `0 .. n - 1` under `at`, in line order. */
  function Concat(at: nat -> seq<Unit>, n: nat): seq<Unit> {
    if n == 0 then [] else Concat(at, n - 1) + at(n - 1)
  }

  /** The scan's output is the concatenation of what each line emits. */
  lemma {:induction false} EmittedConcat(lines: seq<string>, n: nat, path: string)
    requires n <= |lines|
    ensures Emitted(lines, n, path) == Concat(EmitFn(lines, path), n)
  {
    if n > 0 {
      EmittedConcat(lines, n - 1, path);
      EmitFnAt(lines, path, n - 1);
    }
  }

  /** Inside the file, `EmitFn` gives what `EmitAt` emits. */
  lemma EmitFnAt(lines: seq<string>, path: string, k: nat)
    requires k < |lines|
    ensures EmitFn(lines, path)(k) == EmitAt(lines, k, path)
  {
  }

  /** Whatever line `k` emits opens on line `k`. */
  lemma EmitFnShape(lines: seq<string>, path: string)
    ensures forall k: nat, u :: u in EmitFn(lines, path)(k) ==> u.lineNumber == k + 1
  {
    forall k: nat | k < |lines| {
      EmitAtShape(lines, k, path);
    }
  }

  /** With every line's units opening on that line, the first `n` lines'
      units open on one of them. */
  lemma {:induction false} ConcatBelow(at: nat -> seq<Unit>, n: nat)
    requires forall k: nat, u :: u in at(k) ==> u.lineNumber == k + 1
    ensures forall j :: 0 <= j < |Concat(at, n)| ==> Concat(at, n)[j].lineNumber <= n
  {
    if n > 0 {
      ConcatBelow(at, n - 1);
      AppendBelow(Concat(at, n - 1), at(n - 1), n);
    }
  }

  /** Lines after `i` add no unit for line `i`. */
  lemma {:induction false} ConcatStable(at: nat -> seq<Unit>, n: nat, i: nat)
    requires i < n
    requires forall k: nat, u :: u in at(k) ==> u.lineNumber == k + 1
    ensures HasUnitAt(Concat(at, n), i) <==> HasUnitAt(Concat(at, i + 1), i)
  {
    if n > i + 1 {
      ConcatStable(at, n - 1, i);
      EarlierLineStep(Concat(at, n - 1), at(n - 1), i, n - 1);
    }
  }

  /** Line `n - 1` has a unit among the first `n` lines' exactly when it emits one. */
  lemma ConcatLast(at: nat -> seq<Unit>, n: nat)
    requires 0 < n
    requires forall k: nat, u :: u in at(k) ==> u.lineNumber == k + 1
    requires |at(n - 1)| <= 1
    ensures at(n - 1) != [] <==> HasUnitAt(Concat(at, n), n - 1)
  {
    ConcatBelow(at, n - 1);
    LastLineStep(Concat(at, n - 1), at(n - 1), n - 1, at(n - 1) != []);
  }

  /** Appending the units of line `i` to units that open on earlier lines. */
  lemma LastLineStep(prev: seq<Unit>, here: seq<Unit>, i: nat, emits: bool)
    requires forall j :: 0 <= j < |prev| ==> prev[j].lineNumber <= i
    requires |here| <= 1 && (here != [] <==> emits)
    requires forall u :: u in here ==> u.lineNumber == i + 1
    ensures emits <==> HasUnitAt(prev + here, i)
  {
    HasUnitAtAppend(prev, here, i);
    NoUnitAfter(prev, i);
    if emits {
      assert here[0] in here;
    }
  }

  /** Appending the units of a later line `m` leaves line `i` as it was. */
  lemma EarlierLineStep(prev: seq<Unit>, here: seq<Unit>, i: nat, m: nat)
    requires i < m
    requires forall u :: u in here ==> u.lineNumber == m + 1
    ensures HasUnitAt(prev + here, i) <==> HasUnitAt(prev, i)
  {
    HasUnitAtAppend(prev, here, i);
  }

  /** A pending source that is absent stays absent across lines that are not
      source lines. */
  lemma {:induction false} PendingStaysNone(lines: seq<string>, i: nat, j: nat)
    requires i <= j <= |lines|
    requires PendingAt(lines, i).None?
    requires forall k :: i <= k < j ==> SourceMatch(lines[k]).None?
    ensures PendingAt(lines, j).None?
    decreases j - i
  {
    if i < j {
      PendingStaysNone(lines, i, j - 1);
    }
  }

  /** Each source line yields at most one unit: between the opening lines of
      any two units lies a source line that set a fresh pending source. */
  lemma SourceLineBetweenUnits(lines: seq<string>, path: string, a: nat, b: nat)
    requires a < b < |Extracted(lines, path)|
    ensures var us := Extracted(lines, path);
      exists k :: 0 <= k < |lines| && us[a].lineNumber - 1 < k < us[b].lineNumber - 1 && SourceMatch(lines[k]).Some?
  {
    var us := Extracted(lines, path);
    ExtractedUnitEmits(lines, path, a, b);
    SourceLineBetween(lines, us[a].lineNumber - 1, us[b].lineNumber - 1);
  }

  /** Between two lines that yield units lies a source line. */
  lemma SourceLineBetween(lines: seq<string>, i: nat, j: nat)
    requires i < j < |lines| && Emits(lines, i) && Emits(lines, j)
    ensures exists k :: i < k < j && SourceMatch(lines[k]).Some?
  {
    assert PendingAt(lines, i + 1) == Step(lines[i], PendingAt(lines, i));
    assert PendingAt(lines, i + 1).None?;
    if forall k :: i + 1 <= k < j ==> SourceMatch(lines[k]).None? {
      PendingStaysNone(lines, i + 1, j);
      assert false;
    }
  }

  /** The two units' opening lines are in order and both `Emit`. */
  lemma ExtractedUnitEmits(lines: seq<string>, path: string, a: nat, b: nat)
    requires a < b < |Extracted(lines, path)|
    ensures var us := Extracted(lines, path);
      us[a].lineNumber < us[b].lineNumber <= |lines| &&
      Emits(lines, us[a].lineNumber - 1) && Emits(lines, us[b].lineNumber - 1)
  {
    var us := Extracted(lines, path);
    EmittedSound(lines, |lines|, path);
    assert IsExtractedUnit(lines, path, us[a]);
    assert IsExtractedUnit(lines, path, us[b]);
  }

  /** Units come in strictly increasing line order. */
  lemma ExtractedIncreasing(lines: seq<string>, path: string, a: nat, b: nat)
    requires a < b < |Extracted(lines, path)|
    ensures Extracted(lines, path)[a].lineNumber < Extracted(lines, path)[b].lineNumber
  {
    ExtractedUnitEmits(lines, path, a, b);
  }
}
