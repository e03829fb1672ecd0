/** The request handlers of the trivia API as pure functions over the store.
    Each returns either a success payload or the HTTP status it aborts with;
    the two that change the store also return the new store. */
module Handlers {
  import opened Basics
  import opened Paging
  import opened Records
  import opened Ilike

  /** The statuses the handlers abort with. */
  datatype Status = NotFound | MethodNotAllowed | Unprocessable

  function Code(s: Status): int
  {
    match s
    case NotFound => 404
    case MethodNotAllowed => 405
    case Unprocessable => 422
  }

  /** The JSON body of a successful response (its `success: true` is implied). */
  datatype Payload =
    | CategoryList(categories: map<int, string>, totalCategories: int)
    | QuestionPage(questions: seq<Question>, totalQuestions: int,
                   pageCategories: map<int, string>, currentCategory: Option<int>)
    | Deleted(deleted: int, remaining: seq<Question>, remainingQuestions: int)
    | Created(created: int, question: Question)
    | SearchResults(matches: seq<Question>, totalMatches: int)
    | CategoryQuestions(inCategory: seq<Question>, category: int, totalInCategory: int)
    | QuizQuestion(drawn: Option<Question>)

  datatype Response = Ok(payload: Payload) | Abort(status: Status)

  /** A bare `except:` around a handler body: whatever abort happened inside
      (including an `abort(404)`) is replaced by an abort with `code`. */
  function Rescue(inner: Response, code: Status): (r: Response)
    ensures r.Ok? <==> inner.Ok?
    ensures r.Ok? ==> r == inner
    ensures r.Abort? ==> r.status == code
  {
    if inner.Ok? then inner else Abort(code)
  }

  /** The JSON body of `POST /questions`, when there is one. */
  datatype QuestionBody = QuestionBody(
    question: string,
    answer: string,
    difficulty: int,
    category: int)

  /** `GET /categories`. The `abort(404)` for an empty table sits inside the
      `try`, so the caller sees 422. Otherwise every category appears once in
      the `{id: type}` dictionary, and the count is the number of categories. */
  function GetCategories(s: Store): (r: Response)
    requires Valid(s)
    ensures r.Abort? <==> |s.categories| == 0
    ensures r.Abort? ==> r.status == Unprocessable
    ensures r.Ok? ==>
      && r.payload.CategoryList?
      && r.payload.categories.Keys == (set c | c in s.categories :: c.id)
      && (forall c :: c in s.categories ==> r.payload.categories[c.id] == c.kind)
      && r.payload.totalCategories == |s.categories|
  {
    CategoryMapExact(s.categories);
    var inner :=
      if |s.categories| == 0 then Abort(NotFound)
      else
        var m := CategoryMap(s.categories);
        Ok(CategoryList(m, |m|));
    Rescue(inner, Unprocessable)
  }

  /** `GET /questions?page=p`: the requested page of the id-ordered questions.
      An empty page is a 404, whether the table is empty or the page lies
      past the last one. The payload also carries the total number of
      questions, the category dictionary and a null current category. */
  function GetQuestions(s: Store, page: Option<int>): (r: Response)
    requires Valid(s)
    ensures r.Abort? ==> r.status == NotFound
    ensures PageNumber(page) >= 1 ==>
      (r.Abort? <==> PageNumber(page) > PageCount(|s.questions|))
    ensures r.Ok? ==>
      && r.payload.QuestionPage?
      && 1 <= |r.payload.questions| <= QuestionsPerPage
      && r.payload.totalQuestions == |s.questions|
      && r.payload.currentCategory.None?
      && r.payload.pageCategories.Keys == (set c | c in s.categories :: c.id)
      && (forall c :: c in s.categories ==> r.payload.pageCategories[c.id] == c.kind)
    ensures r.Ok? && PageNumber(page) >= 1 ==>
      var start := PageStart(PageNumber(page));
      r.payload.questions == s.questions[start..Min(start + QuestionsPerPage, |s.questions|)]
  {
    var questions := ById(s);
    var current := Paginate(questions, page);
    PageEmptyIff(questions, PageNumber(page));
    if |current| == 0 then Abort(NotFound)
    else
      CategoryMapExact(s.categories);
      Ok(QuestionPage(current, |questions|, CategoryMap(s.categories), None))
  }

  /** `DELETE /questions/<id>?page=p`. A missing id makes `None.delete()`
      fail inside the `try`: 422 and the store is unchanged. Otherwise the
      row with that id, and only it, leaves the table; the response names the
      id, the remaining count, and the requested page of what remains. */
  function DeleteQuestion(s: Store, questionId: nat, page: Option<int>): (res: (Store, Response))
    requires Valid(s)
    ensures Valid(res.0)
    ensures !HasQuestion(s.questions, questionId) ==> res == (s, Abort(Unprocessable))
    ensures HasQuestion(s.questions, questionId) ==>
      && res.0.categories == s.categories
      && res.0.nextQuestionId == s.nextQuestionId
      && (exists i :: 0 <= i < |s.questions| && s.questions[i].id == questionId &&
                      res.0.questions == s.questions[..i] + s.questions[i + 1..])
      && (forall q :: q in res.0.questions <==> q in s.questions && q.id != questionId)
      && |res.0.questions| == |s.questions| - 1
      && res.1.Ok? && res.1.payload.Deleted?
      && res.1.payload.deleted == questionId
      && res.1.payload.remainingQuestions == |res.0.questions|
      && res.1.payload.remaining == Paginate(res.0.questions, page)
  {
    match FindQuestion(s.questions, questionId)
    case None => (s, Abort(Unprocessable))
    case Some(i) =>
      var s' := s.(questions := RemoveAt(s.questions, i));
      var questions := ById(s');
      (s', Ok(Deleted(questionId, Paginate(questions, page), |questions|)))
  }

  /** `POST /questions`. No JSON body is a 422 with the store unchanged.
      Otherwise one question with a fresh id and the given fields is appended,
      every existing row is kept as it was, and the response names the new id
      and echoes the new row. */
  function CreateQuestion(s: Store, body: Option<QuestionBody>): (res: (Store, Response))
    requires Valid(s)
    ensures Valid(res.0)
    ensures body.None? ==> res == (s, Abort(Unprocessable))
    ensures body.Some? ==>
      && |res.0.questions| == |s.questions| + 1
      && res.0.questions[..|s.questions|] == s.questions
      && res.0.categories == s.categories
      && var q := res.0.questions[|s.questions|];
         && !HasQuestion(s.questions, q.id)
         && q.question == body.value.question
         && q.answer == body.value.answer
         && q.difficulty == body.value.difficulty
         && q.category == body.value.category
         && res.1 == Ok(Created(q.id, q))
  {
    match body
    case None => (s, Abort(Unprocessable))
    case Some(b) =>
      var q := Question(s.nextQuestionId, b.question, b.answer, b.category, b.difficulty);
      var s' := s.(questions := s.questions + [q], nextQuestionId := s.nextQuestionId + 1);
      assert s'.questions[..|s.questions|] == s.questions;
      (s', Ok(Created(q.id, q)))
  }

  /** `POST /search` with `searchTerm`. An absent or empty term reaches
      `abort(404)` inside the `try`, which turns it into 405. Otherwise the
      result holds every question whose text matches `%term%` under ILIKE,
      each as often as it is stored, and the count of those matches. */
  function SearchQuestions(s: Store, searchTerm: Option<string>): (r: Response)
    ensures r.Abort? <==> searchTerm.None? || searchTerm.value == ""
    ensures r.Abort? ==> r.status == MethodNotAllowed
    ensures r.Ok? ==>
      && r.payload.SearchResults?
      && (forall q :: q in r.payload.matches <==>
                      q in s.questions && ILike(q.question, ContainsPattern(searchTerm.value)))
      && (forall q :: q in s.questions && ILike(q.question, ContainsPattern(searchTerm.value)) ==>
                      multiset(r.payload.matches)[q] == multiset(s.questions)[q])
      && r.payload.totalMatches == |r.payload.matches|
  {
    var inner :=
      if searchTerm.Some? && searchTerm.value != "" then
        var term := searchTerm.value;
        var results := Filter(s.questions, (q: Question) => ILike(q.question, ContainsPattern(term)));
        Ok(SearchResults(results, |results|))
      else Abort(NotFound);
    Rescue(inner, MethodNotAllowed)
  }

  /** `GET /categories/<id>/questions`: every question filed under that
      category, the category id, and their count. No match is a 404 (the
      `except` re-aborts with the same code). */
  function QuestionsByCategory(s: Store, categoryId: nat): (r: Response)
    ensures r.Abort? <==> forall q :: q in s.questions ==> q.category != categoryId
    ensures r.Abort? ==> r.status == NotFound
    ensures r.Ok? ==>
      && r.payload.CategoryQuestions?
      && (forall q :: q in r.payload.inCategory <==> q in s.questions && q.category == categoryId)
      && (forall q :: q in s.questions && q.category == categoryId ==>
                      multiset(r.payload.inCategory)[q] == multiset(s.questions)[q])
      && r.payload.category == categoryId
      && r.payload.totalInCategory == |r.payload.inCategory|
  {
    var found := Filter(s.questions, (q: Question) => q.category == categoryId);
    var inner :=
      if |found| == 0 then Abort(NotFound)
      else Ok(CategoryQuestions(found, categoryId, |found|));
    Rescue(inner, NotFound)
  }
}
