/** The classification helpers of the review report generator
    (github-review-report/generator.py): problem type and severity of a
    review, the filter for approval-only or automated reviews, date
    truncation, reviewer inclusion, and the impact snippet. */
module ReviewRules {
  import opened Text

  // ---------------------------------------------------------------------
  // Problem type (generator.py 63-102)

  /** The keyword table of `get_problem_type_from_suggestion`, in the
      dictionary's insertion order, which is the order it is searched in. */
  const TypeKeywords: seq<(string, int)> := [
    ("安全", 8), ("安全漏洞", 8), ("漏洞", 8),
    ("内存泄漏", 12), ("内存", 12), ("释放", 12),
    ("注释", 10), ("日志", 2), ("编译", 11), ("警告", 11),
    ("头文件", 3), ("变量", 4), ("常量", 5), ("宏", 6), ("宏定义", 6),
    ("指针", 7), ("冗余", 9), ("提交", 13), ("需求", 14), ("不符合需求", 14),
    ("格式", 1), ("命名", 1), ("书写", 1)
  ]

  /** The type for texts that match no keyword ("其他"). */
  const OtherType: int := 15

  /** The type of the first keyword of `table` that occurs in `text`, or
      `OtherType` when none does. */
  function FirstKeywordType(table: seq<(string, int)>, text: string): (r: int)
    requires forall j :: 0 <= j < |table| ==> 1 <= table[j].1 < OtherType
    ensures 1 <= r <= OtherType
    ensures r == OtherType <==> forall j :: 0 <= j < |table| ==> !Contains(text, table[j].0)
  {
    if table == [] then OtherType
    else if Contains(text, table[0].0) then table[0].1
    else
      assert forall j :: 0 < j < |table| ==> table[j] == table[1..][j - 1];
      FirstKeywordType(table[1..], text)
  }

  /** The first keyword that occurs decides the type. */
  lemma {:induction false} FirstKeywordDecides(table: seq<(string, int)>, text: string, j: nat)
    requires forall i :: 0 <= i < |table| ==> 1 <= table[i].1 < OtherType
    requires j < |table| && Contains(text, table[j].0)
    requires forall i :: 0 <= i < j ==> !Contains(text, table[i].0)
    ensures FirstKeywordType(table, text) == table[j].1
  {
    if j > 0 {
      assert !Contains(text, table[0].0);
      forall i | 0 <= i < j - 1
        ensures !Contains(text, table[1..][i].0)
      {
        assert table[1..][i] == table[i + 1];
      }
      FirstKeywordDecides(table[1..], text, j - 1);
    }
  }

  /** `get_problem_type_from_suggestion`: a type in 1..15, and 15 exactly
      when no keyword occurs in the lower-cased text. */
  function ProblemType(suggestion: string): (r: int)
    ensures 1 <= r <= 15
    ensures r == OtherType <==> forall j :: 0 <= j < |TypeKeywords| ==> !Contains(Lower(suggestion), TypeKeywords[j].0)
  {
    FirstKeywordType(TypeKeywords, Lower(suggestion))
  }

  /** When some keyword occurs, the type is that of the first one, in table order. */
  lemma ProblemTypeOfFirstKeyword(suggestion: string, j: nat)
    requires j < |TypeKeywords| && Contains(Lower(suggestion), TypeKeywords[j].0)
    requires forall i :: 0 <= i < j ==> !Contains(Lower(suggestion), TypeKeywords[i].0)
    ensures ProblemType(suggestion) == TypeKeywords[j].1
  {
    FirstKeywordDecides(TypeKeywords, Lower(suggestion), j);
  }

  /** A memory keyword outranks a comment keyword: "内存" comes before "注释"
      in the table, so a text holding both, and nothing about security, is a
      memory problem (12). */
  lemma MemoryBeforeComment(suggestion: string)
    requires Contains(Lower(suggestion), "内存") && Contains(Lower(suggestion), "注释")
    requires !Contains(Lower(suggestion), "安全") && !Contains(Lower(suggestion), "漏洞")
    ensures ProblemType(suggestion) == 12
  {
    var t := Lower(suggestion);
    assert !Contains(t, "安全漏洞") by {
      if Contains(t, "安全漏洞") {
        ContainsAtContains("安全漏洞", "安全", 0);
        ContainsTrans(t, "安全漏洞", "安全");
      }
    }
    assert TypeKeywords[0].0 == "安全" && TypeKeywords[1].0 == "安全漏洞" && TypeKeywords[2].0 == "漏洞";
    assert TypeKeywords[3] == ("内存泄漏", 12) && TypeKeywords[4] == ("内存", 12);
    if Contains(t, "内存泄漏") {
      ProblemTypeOfFirstKeyword(suggestion, 3);
    } else {
      ProblemTypeOfFirstKeyword(suggestion, 4);
    }
  }

  // ---------------------------------------------------------------------
  // Severity (generator.py 53-57, 105-114)

  const SeverityCritical: string := "严重"
  const SeverityGeneral: string := "一般"
  const CriticalTypes: set<int> := {8, 12}

  /** `get_severity_from_problem_type`. */
  function Severity(problemType: int): (r: string)
    ensures r == SeverityCritical <==> problemType == 8 || problemType == 12
    ensures r == SeverityGeneral <==> !(problemType == 8 || problemType == 12)
  {
    if problemType in CriticalTypes then SeverityCritical else SeverityGeneral
  }

  /** A review whose first keyword is a security or memory one is critical. */
  lemma CriticalOfFirstKeyword(suggestion: string, j: nat)
    requires j < |TypeKeywords| && Contains(Lower(suggestion), TypeKeywords[j].0)
    requires forall i :: 0 <= i < j ==> !Contains(Lower(suggestion), TypeKeywords[i].0)
    ensures Severity(ProblemType(suggestion)) == SeverityCritical <==> TypeKeywords[j].1 == 8 || TypeKeywords[j].1 == 12
  {
    ProblemTypeOfFirstKeyword(suggestion, j);
  }

  // ---------------------------------------------------------------------
  // Person reviews (generator.py 117-152)

  /** The phrases that mark an approval-only or automated review. */
  const InvalidPatterns: seq<string> := [
    "approved", "lgtm", "looks good to me", "merge", "force merge",
    "/merge", "/forcemerge", "mergeable", "ready to merge", "can merge"
  ]

  /** Some pattern of `patterns` occurs in `text`. */
  predicate AnyOccurs(patterns: seq<string>, text: string) {
    |patterns| > 0 && (Contains(text, patterns[0]) || AnyOccurs(patterns[1..], text))
  }

  lemma {:induction false} AnyOccursSpec(patterns: seq<string>, text: string)
    ensures AnyOccurs(patterns, text) <==> exists j :: 0 <= j < |patterns| && Contains(text, patterns[j])
  {
    if patterns != [] {
      AnyOccursSpec(patterns[1..], text);
      if exists j :: 0 <= j < |patterns| && Contains(text, patterns[j]) {
        var j :| 0 <= j < |patterns| && Contains(text, patterns[j]);
        if j > 0 {
          assert patterns[1..][j - 1] == patterns[j];
        }
      }
      if exists j :: 0 <= j < |patterns[1..]| && Contains(text, patterns[1..][j]) {
        var j :| 0 <= j < |patterns[1..]| && Contains(text, patterns[1..][j]);
        assert patterns[j + 1] == patterns[1..][j];
      }
    }
  }

  /** `is_valid_person_review`. The state argument is not read. */
  predicate IsValidPersonReview(reviewBody: string, reviewState: string) {
    if reviewBody == "" || Strip(reviewBody) == "" then false
    else if AnyOccurs(InvalidPatterns, Strip(Lower(reviewBody))) then false
    else |reviewBody| >= 10
  }

  /** The patterns after "merge" all contain "merge", so they decide nothing. */
  lemma MergeCoversLaterPatterns(text: string, j: nat)
    requires 4 <= j < |InvalidPatterns| && Contains(text, InvalidPatterns[j])
    ensures Contains(text, "merge")
  {
    var p := InvalidPatterns[j];
    var at := if j == 4 then 6 else if j == 5 then 1 else if j == 6 then 6 else if j == 7 then 0 else if j == 8 then 9 else 4;
    assert p[at..at + 5] == "merge";
    ContainsAtContains(p, "merge", at);
    ContainsTrans(text, p, "merge");
  }

  /** A review counts exactly when its body is not blank, it is at least ten
      characters long, and its lower-cased, stripped body contains none of
      "approved", "lgtm", "looks good to me" and "merge"; the review state
      plays no part. */
  lemma ValidPersonReviewIff(reviewBody: string, reviewState: string)
    ensures IsValidPersonReview(reviewBody, reviewState) <==>
      Strip(reviewBody) != "" && |reviewBody| >= 10 &&
      !Contains(Strip(Lower(reviewBody)), "approved") && !Contains(Strip(Lower(reviewBody)), "lgtm") &&
      !Contains(Strip(Lower(reviewBody)), "looks good to me") && !Contains(Strip(Lower(reviewBody)), "merge")
  {
    var t := Strip(Lower(reviewBody));
    AnyOccursSpec(InvalidPatterns, t);
    if AnyOccurs(InvalidPatterns, t) {
      var j :| 0 <= j < |InvalidPatterns| && Contains(t, InvalidPatterns[j]);
      if j >= 4 {
        MergeCoversLaterPatterns(t, j);
      }
    } else {
      assert !Contains(t, InvalidPatterns[0]) && !Contains(t, InvalidPatterns[1]);
      assert !Contains(t, InvalidPatterns[2]) && !Contains(t, InvalidPatterns[3]);
    }
    if reviewBody == "" {
      assert Strip(reviewBody) == "";
    }
  }

  // ---------------------------------------------------------------------
  // Dates (generator.py 200-209)

  /** `format_date_only`: the part before the first `T`. */
  function FormatDateOnly(isoDate: string): (r: string)
    ensures r == isoDate[..IndexOfChar(isoDate, 'T')]
    ensures 'T' !in r
  {
    if isoDate == "" then ""
    else if 'T' in isoDate then Split(isoDate, 'T')[0]
    else isoDate
  }

  lemma FormatDateOnlyIdempotent(isoDate: string)
    ensures FormatDateOnly(FormatDateOnly(isoDate)) == FormatDateOnly(isoDate)
  {
    var r := FormatDateOnly(isoDate);
    assert IndexOfChar(r, 'T') == |r|;
  }

  lemma FormatDateOnlyExample()
    ensures FormatDateOnly("2026-01-22T14:30:00Z") == "2026-01-22"
  {
    var d := "2026-01-22T14:30:00Z";
    assert d[..10] == "2026-01-22";
    assert d[10] == 'T';
    IndexOfCharAt(d, 'T', 10);
  }

  // ---------------------------------------------------------------------
  // Reviewers (generator.py 60, 238-265)

  const ValidAiReviewers: set<string> := {"sourcery-ai"}

  /** `fnmatch.fnmatch(name, pattern)` for patterns built from `*`, `?` and
      literal characters. */
  predicate Glob(name: string, pattern: string)
    decreases |pattern|, |name|
  {
    if pattern == [] then name == []
    else if pattern[0] == '*' then Glob(name, pattern[1..]) || (name != [] && Glob(name[1..], pattern))
    else name != [] && (pattern[0] == '?' || pattern[0] == name[0]) && Glob(name[1..], pattern[1..])
  }

  /** Some pattern matches `name`. */
  predicate AnyGlob(name: string, patterns: seq<string>) {
    |patterns| > 0 && (Glob(name, Lower(patterns[0])) || AnyGlob(name, patterns[1..]))
  }

  /** The include/exclude checks of generator.py 255-265 (`None` and `[]` alike). */
  predicate PatternVerdict(lowered: string, includePatterns: seq<string>, excludePatterns: seq<string>) {
    if AnyGlob(lowered, excludePatterns) then false
    else if includePatterns != [] then AnyGlob(lowered, includePatterns)
    else true
  }

  /** `should_include_reviewer`. The loop of lines 250-253 returns False for
      every name not in the set, so the pattern checks are never reached. */
  predicate ShouldIncludeReviewer(reviewerName: string, includePatterns: seq<string>, excludePatterns: seq<string>) {
    var lowered := Lower(reviewerName);
    if lowered in ValidAiReviewers then true
    else if exists ai :: ai in ValidAiReviewers && lowered != ai then false
    else PatternVerdict(lowered, includePatterns, excludePatterns)
  }

  /** Only "sourcery-ai", in any letter case, is included, whatever the patterns. */
  lemma OnlySourceryIncluded(reviewerName: string, includePatterns: seq<string>, excludePatterns: seq<string>)
    ensures ShouldIncludeReviewer(reviewerName, includePatterns, excludePatterns) <==> Lower(reviewerName) == "sourcery-ai"
  {
    var lowered := Lower(reviewerName);
    if lowered != "sourcery-ai" {
      assert "sourcery-ai" in ValidAiReviewers && lowered != "sourcery-ai";
    }
  }

  // ---------------------------------------------------------------------
  // Summaries and impact (generator.py 268-310)

  /** `summarize_for_person`: the body without surrounding whitespace, that
      is, the run of the body's own text between its leading and its
      trailing white space. */
  function SummarizeForPerson(reviewBody: string): (r: string)
    ensures |r| <= |reviewBody|
    ensures r == "" || (!IsSpace(r[0]) && !IsSpace(r[|r| - 1]))
    ensures r == "" ==> forall i :: 0 <= i < |reviewBody| ==> IsSpace(reviewBody[i])
    ensures exists a :: SpaceBetween(reviewBody, r, a)
    ensures Contains(reviewBody, r)
  {
    var r := Strip(reviewBody);
    var a := LeadingSpaces(reviewBody);
    assert r == "" ==> a == StripEnd(reviewBody);
    assert a + |r| == StripEnd(reviewBody);
    assert r == reviewBody[a..a + |r|];
    assert SpaceBetween(reviewBody, r, a);
    StripOfSliceInText(reviewBody, 0, |reviewBody|);
    assert reviewBody[0..|reviewBody|] == reviewBody;
    r
  }

  /** The summary is the only run of the body that has white space on either
      side and none at its own ends. */
  lemma SummarizeForPersonUnique(reviewBody: string, r: string, a: int)
    requires SpaceBetween(reviewBody, r, a)
    requires r == "" || (!IsSpace(r[0]) && !IsSpace(r[|r| - 1]))
    ensures SummarizeForPerson(reviewBody) == r
  {
    var lead := LeadingSpaces(reviewBody);
    if r == "" {
      assert forall i :: 0 <= i < |reviewBody| ==> IsSpace(reviewBody[i]);
      assert lead == |reviewBody|;
    } else {
      assert reviewBody[a] == r[0];
      assert lead == a;
      var t := TrailingStart(reviewBody);
      assert reviewBody[a + |r| - 1] == r[|r| - 1];
      assert t == a + |r|;
      assert StripEnd(reviewBody) == t;
    }
  }

  lemma SummarizeForPersonIdempotent(reviewBody: string)
    ensures SummarizeForPerson(SummarizeForPerson(reviewBody)) == SummarizeForPerson(reviewBody)
  {
    StripIdempotent(reviewBody);
  }

  const ImpactKeywords: seq<string> := [
    "影响", "隐患", "风险", "问题", "修复", "改进", "建议", "注意",
    "警告", "错误", "异常", "bug", "缺陷", "优化", "重构"
  ]

  const NoImpact: string := "无"

  /** The first keyword of `keywords` that occurs in `text`. */
  function FirstPresent(keywords: seq<string>, text: string): (r: Option<string>)
    ensures r.None? <==> forall j :: 0 <= j < |keywords| ==> !Contains(text, keywords[j])
    ensures r.Some? ==> exists j :: (0 <= j < |keywords| && keywords[j] == r.value && Contains(text, r.value) &&
      forall i :: 0 <= i < j ==> !Contains(text, keywords[i]))
  {
    if keywords == [] then None
    else if Contains(text, keywords[0]) then Some(keywords[0])
    else
      assert forall j :: 0 < j < |keywords| ==> keywords[j] == keywords[1..][j - 1];
      FirstPresent(keywords[1..], text)
  }

  function Max(a: int, b: int): int {
    if a < b then b else a
  }

  function Min(a: int, b: int): int {
    if a < b then a else b
  }

  /** `generate_ai_impact_analysis`: up to five characters before the first
      keyword's first occurrence and up to twenty from it, stripped. */
  function ImpactAnalysis(problemDescription: string): string {
    if problemDescription == "" || |Strip(problemDescription)| < 10 then NoImpact
    else match FirstPresent(ImpactKeywords, problemDescription)
      case None => NoImpact
      case Some(keyword) =>
        Snippet(problemDescription, Find(problemDescription, keyword))
  }

  lemma ImpactKeywordsShape(j: nat)
    requires j < |ImpactKeywords|
    ensures 2 <= |ImpactKeywords[j]| <= 20
    ensures !IsSpace(ImpactKeywords[j][0]) && !IsSpace(ImpactKeywords[j][|ImpactKeywords[j]| - 1])
  {
  }

  /** "无" exactly when the stripped text is shorter than ten characters or
      holds no keyword. */
  lemma ImpactAnalysisNone(problemDescription: string)
    ensures ImpactAnalysis(problemDescription) == NoImpact <==>
      (|Strip(problemDescription)| < 10 ||
       forall j :: 0 <= j < |ImpactKeywords| ==> !Contains(problemDescription, ImpactKeywords[j]))
  {
    var d := problemDescription;
    if d == "" {
      assert Strip(d) == "";
    }
    if !(d == "" || |Strip(d)| < 10) && FirstPresent(ImpactKeywords, d).Some? {
      ImpactSnippet(d);
    }
  }

  /** Otherwise the snippet has at most 25 characters, is a part of the
      text, is stripped, and contains the first keyword, in list order, that
      the text holds. */
  lemma ImpactSnippet(problemDescription: string)
    requires |Strip(problemDescription)| >= 10
    requires FirstPresent(ImpactKeywords, problemDescription).Some?
    ensures var r := ImpactAnalysis(problemDescription);
      var keyword := FirstPresent(ImpactKeywords, problemDescription).value;
      r != NoImpact && |r| <= 25 && Contains(problemDescription, r) && Contains(r, keyword) &&
      Strip(r) == r
  {
    var d := problemDescription;
    var keyword := FirstPresent(ImpactKeywords, d).value;
    FirstImpactKeywordShape(d);
    var idx := Find(d, keyword);
    SnippetAround(d, keyword, idx);
    assert d != "";
    assert ImpactAnalysis(d) == Snippet(d, idx);
  }

  /** The keyword found is one of the list's, with its shape. */
  lemma FirstImpactKeywordShape(text: string)
    requires FirstPresent(ImpactKeywords, text).Some?
    ensures var keyword := FirstPresent(ImpactKeywords, text).value;
      ContainsAt(text, keyword, Find(text, keyword)) && 2 <= |keyword| <= 20 &&
      !IsSpace(keyword[0]) && !IsSpace(keyword[|keyword| - 1])
  {
    var keyword := FirstPresent(ImpactKeywords, text).value;
    var j :| 0 <= j < |ImpactKeywords| && ImpactKeywords[j] == keyword && Contains(text, keyword);
    ImpactKeywordsShape(j);
  }

  /** The stripped window from five characters before position `idx` to
      twenty after it. */
  function Snippet(text: string, idx: nat): (r: string)
    requires idx <= |text|
  {
    Strip(text[Max(0, idx - 5)..Min(|text|, idx + 20)])
  }

  /** That window is part of the text and, around an occurrence of a keyword
      of at most twenty characters with non-space ends, holds the keyword. */
  lemma SnippetAround(text: string, keyword: string, idx: nat)
    requires ContainsAt(text, keyword, idx)
    requires 2 <= |keyword| <= 20 && !IsSpace(keyword[0]) && !IsSpace(keyword[|keyword| - 1])
    ensures var r := Snippet(text, idx);
      2 <= |r| <= 25 && Contains(text, r) && Contains(r, keyword) && Strip(r) == r
  {
    var start := Max(0, idx - 5);
    var end := Min(|text|, idx + 20);
    StripIdempotent(text[start..end]);
    WindowHoldsKeyword(text, keyword, idx, start, end);
    StripOfSliceInText(text, start, end);
  }

  lemma WindowHoldsKeyword(text: string, keyword: string, idx: nat, start: nat, end: nat)
    requires ContainsAt(text, keyword, idx) && keyword != ""
    requires !IsSpace(keyword[0]) && !IsSpace(keyword[|keyword| - 1])
    requires start <= idx && idx + |keyword| <= end <= |text|
    ensures Contains(Strip(text[start..end]), keyword)
    ensures |keyword| <= |Strip(text[start..end])|
  {
    var slice := text[start..end];
    SliceOfSlice(text, start, end, idx - start, idx - start + |keyword|);
    StripKeeps(slice, keyword, idx - start);
    var k := Find(Strip(slice), keyword);
    assert k + |keyword| <= |Strip(slice)|;
  }
}
