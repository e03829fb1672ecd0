/** `POST /quizzes`: draw one question of the chosen category that the player
    has not seen yet. The random `ORDER BY` followed by `.first()` is modelled
    as an unconstrained choice among the eligible unseen questions. */
module Quiz {
  import opened Basics
  import opened Records
  import opened Handlers

  /** The category id that stands for "every category". */
  const AllCategories: int := 0

  /** The JSON body: `previous_questions` and `quiz_category.id`, each of
      which may be missing (a missing `quiz_category` and a missing `id`
      behave alike, so both are `None`). */
  datatype QuizBody = QuizBody(previousQuestions: Option<seq<int>>, categoryId: Option<int>)

  /** The category filter. A missing id becomes `category == NULL`, which no
      question satisfies. */
  function Eligible(q: Question, categoryId: Option<int>): (b: bool)
    ensures categoryId.None? ==> !b
    ensures categoryId == Some(AllCategories) ==> b
    ensures categoryId.Some? && categoryId.value != AllCategories ==>
              (b <==> q.category == categoryId.value)
  {
    categoryId.Some? && (categoryId.value == AllCategories || q.category == categoryId.value)
  }

  ghost predicate SomeEligible(s: Store, categoryId: Option<int>)
  {
    exists q :: q in s.questions && Eligible(q, categoryId)
  }

  /** Every response the handler may give. It is 422 when there is no body,
      when no question is eligible (the `abort(404)` is swallowed by the bare
      `except`), or when `previous_questions` is missing (`notin_(None)`
      raises). Otherwise it is a success whose question is null exactly when
      every eligible question has been seen, and else is an eligible question
      whose id is not among the previous ones. */
  ghost predicate QuizAllows(s: Store, body: Option<QuizBody>, r: Response)
  {
    if body.None? || !SomeEligible(s, body.value.categoryId) || body.value.previousQuestions.None?
    then r == Abort(Unprocessable)
    else
      var previous := body.value.previousQuestions.value;
      var categoryId := body.value.categoryId;
      && r.Ok? && r.payload.QuizQuestion?
      && match r.payload.drawn
         case None =>
           forall q :: q in s.questions && Eligible(q, categoryId) ==> q.id in previous
         case Some(q) =>
           q in s.questions && Eligible(q, categoryId) && q.id !in previous
  }

  method PlayQuiz(s: Store, body: Option<QuizBody>) returns (r: Response)
    ensures QuizAllows(s, body, r)
    ensures r.Abort? ==> r.status == Unprocessable
  {
    if body.None? {
      return Abort(Unprocessable);
    }
    var categoryId := body.value.categoryId;
    var questions := Filter(s.questions, (q: Question) => Eligible(q, categoryId));
    if |questions| == 0 {
      return Rescue(Abort(NotFound), Unprocessable);
    }
    assert questions[0] in questions;
    if body.value.previousQuestions.None? {
      return Abort(Unprocessable);
    }
    var previous := body.value.previousQuestions.value;
    var unseen := Filter(questions, (q: Question) => q.id !in previous);
    if |unseen| == 0 {
      return Ok(QuizQuestion(None));
    }
    var q :| q in unseen;
    return Ok(QuizQuestion(Some(q)));
  }
}
