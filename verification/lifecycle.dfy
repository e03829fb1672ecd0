/** Properties that relate several requests: what a later request sees after
    a create or a delete, what a search term matches, and how the quiz's
    eligibility agrees with the category listing. */
module Lifecycle {
  import opened Basics
  import opened Paging
  import opened Records
  import opened Ilike
  import opened Handlers
  import opened Quiz

  /** A question just created is the last item on the last page of
      `GET /questions`. */
  lemma CreatedQuestionIsOnLastPage(s: Store, body: QuestionBody)
    requires Valid(s)
    ensures var (s', r) := CreateQuestion(s, Some(body));
            var listing := GetQuestions(s', Some(PageCount(|s'.questions|)));
            && listing.Ok?
            && |listing.payload.questions| > 0
            && listing.payload.questions[|listing.payload.questions| - 1] == r.payload.question
  {
  }

  /** Deleting the question just created restores both tables; only the id
      counter has moved on. */
  lemma DeleteUndoesCreate(s: Store, body: QuestionBody, page: Option<int>)
    requires Valid(s)
    ensures var (s1, r1) := CreateQuestion(s, Some(body));
            var (s2, r2) := DeleteQuestion(s1, s.nextQuestionId, page);
            && r1.payload.created == s.nextQuestionId
            && r2.Ok?
            && s2.questions == s.questions
            && s2.categories == s.categories
  {
  }

  /** Once a question is deleted, deleting it again is a 422 that changes
      nothing. */
  lemma DeleteTwiceFails(s: Store, questionId: nat, page: Option<int>)
    requires Valid(s)
    ensures var (s1, _) := DeleteQuestion(s, questionId, page);
            DeleteQuestion(s1, questionId, page) == (s1, Abort(Unprocessable))
  {
  }

  /** For a non-empty term free of `%`, `_` and backslash, a search returns
      exactly the questions whose text contains the term, ignoring ASCII case. */
  lemma SearchFindsSubstring(s: Store, term: string)
    requires term != "" && Literal(term)
    ensures var r := SearchQuestions(s, Some(term));
            forall q :: q in r.payload.matches <==>
              q in s.questions && IsSubstring(LowerString(term), LowerString(q.question))
  {
    forall q: Question
      ensures ILike(q.question, ContainsPattern(term)) <==>
              IsSubstring(LowerString(term), LowerString(q.question))
    {
      ILikeIsCaseInsensitiveSubstring(q.question, term);
    }
  }

  /** The ids of a list of questions, in order. */
  function IdsOf(qs: seq<Question>): (ids: seq<int>)
    ensures |ids| == |qs|
    ensures forall i :: 0 <= i < |qs| ==> ids[i] == qs[i].id
  {
    seq(|qs|, i requires 0 <= i < |qs| => qs[i].id)
  }

  /** When every stored question has been seen and at least one is eligible,
      the quiz is exhausted: the only allowed answer is a success with a null
      question, not an error. */
  lemma QuizExhaustedIsNull(s: Store, categoryId: int, r: Response)
    requires SomeEligible(s, Some(categoryId))
    requires QuizAllows(s, Some(QuizBody(Some(IdsOf(s.questions)), Some(categoryId))), r)
    ensures r == Ok(QuizQuestion(None))
  {
  }

  /** For a real category id, the quiz has an eligible question exactly when
      `GET /categories/<id>/questions` succeeds; so a quiz over an empty
      category is a 422 where the listing is a 404. */
  lemma QuizAgreesWithCategoryListing(s: Store, categoryId: nat, previous: seq<int>)
    requires categoryId != AllCategories
    ensures SomeEligible(s, Some(categoryId)) <==> QuestionsByCategory(s, categoryId).Ok?
    ensures !SomeEligible(s, Some(categoryId)) ==>
      forall r :: QuizAllows(s, Some(QuizBody(Some(previous), Some(categoryId))), r) ==>
        r == Abort(Unprocessable)
  {
  }

  /** Searching for "title" finds a question whose text says "Title". */
  lemma SearchTitleExample(rest: seq<Question>)
    ensures var q := Question(1, "A Title", "B", 4, 2);
            var r := SearchQuestions(Store([q] + rest, [], 2), Some("title"));
            q in r.payload.matches
  {
    var q := Question(1, "A Title", "B", 4, 2);
    assert LowerString("title") == "title";
    assert LowerString(q.question)[2..7] == "title";
    assert OccursAt(LowerString("title"), LowerString(q.question), 2);
    ILikeIsCaseInsensitiveSubstring(q.question, "title");
  }
}
