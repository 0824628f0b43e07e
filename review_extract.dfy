/** `extract_review_suggestions` (github-review-report/generator.py 365-407):
    one report entry per review that has a body, passes the person-review
    filter and comes from an included reviewer. */
module ReviewExtract {
  import opened Text
  import opened ReviewRules

  /** One entry of a pull request's `reviews` list, with `''` standing for a
      missing `author.login`, `body`, `state` or `submittedAt`. */
  datatype Review = Review(author: string, body: string, state: string, submittedAt: string)

  /** One report entry. */
  datatype Suggestion = Suggestion(content: string, problemType: int, reviewer: string, reviewTime: string)

  /** The three filters at 385-397, in order. */
  predicate Accepted(review: Review) {
    review.body != "" && IsValidPersonReview(review.body, review.state) && ShouldIncludeReviewer(review.author, [], [])
  }

  /** The entry built at 399-404. */
  function SuggestionOf(review: Review): (s: Suggestion)
    ensures s.content == review.body && s.reviewer == review.author && s.reviewTime == review.submittedAt
    ensures s.problemType == ProblemType(review.body) && 1 <= s.problemType <= 15
  {
    Suggestion(review.body, ProblemType(review.body), review.author, review.submittedAt)
  }

  /** The reviews that `keep` accepts, in their original order. */
  function Kept(reviews: seq<Review>, keep: Review -> bool): seq<Review>
    decreases |reviews|
  {
    if reviews == [] then []
    else
      var rest := Kept(reviews[..|reviews| - 1], keep);
      if keep(reviews[|reviews| - 1]) then rest + [reviews[|reviews| - 1]] else rest
  }

  /** The positions of the reviews that `keep` accepts. */
  function KeptIndices(reviews: seq<Review>, keep: Review -> bool): seq<nat>
    decreases |reviews|
  {
    if reviews == [] then []
    else
      var rest := KeptIndices(reviews[..|reviews| - 1], keep);
      if keep(reviews[|reviews| - 1]) then rest + [|reviews| - 1] else rest
  }

  predicate StrictlyIncreasing(xs: seq<nat>) {
    forall i, j :: 0 <= i < j < |xs| ==> xs[i] < xs[j]
  }

  /** The kept reviews are exactly the accepted ones, each once, in their
      original order. */
  lemma {:induction false} KeptFollowsReviews(reviews: seq<Review>, keep: Review -> bool)
    ensures var idx := KeptIndices(reviews, keep); var kept := Kept(reviews, keep);
      |idx| == |kept| && StrictlyIncreasing(idx) &&
      (forall k :: 0 <= k < |idx| ==> idx[k] < |reviews| && kept[k] == reviews[idx[k]]) &&
      (forall i :: 0 <= i < |reviews| ==> (keep(reviews[i]) <==> i in idx))
    decreases |reviews|
  {
    if reviews != [] {
      var init := reviews[..|reviews| - 1];
      KeptFollowsReviews(init, keep);
      assert forall i :: 0 <= i < |init| ==> init[i] == reviews[i];
    }
  }

  /** At most one entry per review, and one for each exactly when all are kept. */
  lemma {:induction false} KeptCount(reviews: seq<Review>, keep: Review -> bool)
    ensures |Kept(reviews, keep)| <= |reviews|
    ensures |Kept(reviews, keep)| == |reviews| <==> forall i :: 0 <= i < |reviews| ==> keep(reviews[i])
    decreases |reviews|
  {
    if reviews != [] {
      var init := reviews[..|reviews| - 1];
      KeptCount(init, keep);
      assert forall i :: 0 <= i < |init| ==> init[i] == reviews[i];
    }
  }

  /** The entries for `reviews`, in review order. */
  function Suggestions(reviews: seq<Review>): seq<Suggestion>
    decreases |reviews|
  {
    if reviews == [] then []
    else
      var rest := Suggestions(reviews[..|reviews| - 1]);
      var review := reviews[|reviews| - 1];
      if Accepted(review) then rest + [SuggestionOf(review)] else rest
  }

  /** The entries are the accepted reviews, each turned into its entry. */
  lemma {:induction false} SuggestionsOfKept(reviews: seq<Review>)
    ensures |Suggestions(reviews)| == |Kept(reviews, Accepted)|
    ensures forall k :: 0 <= k < |Suggestions(reviews)| ==> Suggestions(reviews)[k] == SuggestionOf(Kept(reviews, Accepted)[k])
    decreases |reviews|
  {
    if reviews != [] {
      SuggestionsOfKept(reviews[..|reviews| - 1]);
    }
  }

  /** The report follows the reviews: entry `k` is built from review
      `idx[k]`, the positions increase, and a review has an entry exactly
      when it passes the filters. */
  lemma SuggestionsFollowReviews(reviews: seq<Review>)
    ensures var idx := KeptIndices(reviews, Accepted); var out := Suggestions(reviews);
      |idx| == |out| && StrictlyIncreasing(idx) &&
      (forall k :: 0 <= k < |idx| ==> idx[k] < |reviews| && out[k] == SuggestionOf(reviews[idx[k]])) &&
      (forall i :: 0 <= i < |reviews| ==> (Accepted(reviews[i]) <==> i in idx))
  {
    KeptFollowsReviews(reviews, Accepted);
    SuggestionsOfKept(reviews);
  }

  /** At most one entry per review. */
  lemma SuggestionsCount(reviews: seq<Review>)
    ensures |Suggestions(reviews)| <= |reviews|
    ensures |Suggestions(reviews)| == |reviews| <==> forall i :: 0 <= i < |reviews| ==> Accepted(reviews[i])
  {
    KeptCount(reviews, Accepted);
    SuggestionsOfKept(reviews);
  }

  /** Every entry is a valid person review by `sourcery-ai` (in any letter
      case), typed by its own body. */
  lemma SuggestionsSound(reviews: seq<Review>, k: nat)
    requires k < |Suggestions(reviews)|
    ensures var s := Suggestions(reviews)[k];
      s.content != "" && IsValidPersonReview(s.content, "") && Lower(s.reviewer) == "sourcery-ai" &&
      s.problemType == ProblemType(s.content)
  {
    KeptFollowsReviews(reviews, Accepted);
    SuggestionsOfKept(reviews);
    var review := Kept(reviews, Accepted)[k];
    assert Accepted(review);
    ValidPersonReviewIff(review.body, review.state);
    ValidPersonReviewIff(review.body, "");
    OnlySourceryIncluded(review.author, [], []);
  }

  /** `extract_review_suggestions`; `targetReviewers` is accepted and
      unused, as in the source. */
  method ExtractReviewSuggestions(reviews: seq<Review>, targetReviewers: Option<seq<string>>) returns (validReviews: seq<Suggestion>)
    ensures validReviews == Suggestions(reviews)
  {
    validReviews := [];
    for i := 0 to |reviews|
      invariant validReviews == Suggestions(reviews[..i])
    {
      var review := reviews[i];
      assert reviews[..i + 1][..i] == reviews[..i];
      if review.body == "" {
        assert !Accepted(review);
        continue;
      }
      if !IsValidPersonReview(review.body, review.state) {
        assert !Accepted(review);
        continue;
      }
      if !ShouldIncludeReviewer(review.author, [], []) {
        assert !Accepted(review);
        continue;
      }
      assert Accepted(review);
      var problemType := ProblemType(review.body);
      validReviews := validReviews + [Suggestion(review.body, problemType, review.author, review.submittedAt)];
    }
    assert reviews[..|reviews|] == reviews;
  }
}
