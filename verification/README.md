# Trivia API request handlers, modelled in Dafny

This project models the request-handling logic of a Flask trivia API
(`backend/flaskr/__init__.py`). The two database tables, questions and
categories, become one immutable `Store`: two sequences kept in id order,
plus a counter standing in for the question table's id sequence. Each
endpoint becomes a pure function that returns either a success payload or
the HTTP status it aborts with. The quiz endpoint is the exception: it is a
method, because it makes a random choice.

Modules:

- `Basics` (`basics.dfy`): `Option`, Python's slice rule (`PySlice`), and
  `Filter`, the sequence counterpart of an SQL `WHERE` clause.
- `Paging` (`paging.dfy`): `QUESTIONS_PER_PAGE` and `paginate_questions`.
  Page numbers below 1 follow Python's negative slicing. Page 0 is always
  empty. A negative page counts from the end of the list.
- `Records` (`store.dfy`): the `Question`, `Category` and `Store`
  records and the store invariant `Valid`. Under `Valid`, ids strictly
  increase along each table and every question id is below the counter.
  The module also has the id lookup, row removal and the `{id: type}`
  category dictionary.
- `Ilike` (`ilike.dfy`): PostgreSQL `ILIKE`. This is `LIKE` matching (`%`,
  `_` and backslash escapes) after ASCII lower-casing. The module proves that
  the search pattern `%term%` behaves as a substring test when the term has
  no wildcards.
- `Handlers` (`handlers.dfy`): `get_categories`, `get_questions`,
  `delete_question`, `create_question`, `search_terms` and
  `questions_by_category`. `Rescue` models the bare `try/except` that
  re-aborts with a fixed code.
- `Quiz` (`quiz.dfy`): `get_and_play_quizzes`, with the random draw as a
  nondeterministic choice.
- `Lifecycle` (`lifecycle.dfy`): properties that span several requests.

Ids taken from a URL (`/questions/<int:question_id>`,
`/categories/<int:category_id>/questions`) are `nat`. Flask's `int`
converter only matches unsigned digits.

Three handlers call `abort(404)` inside a bare `except:` that re-aborts
with another code. An empty category table gives 422. An absent or empty
search term gives 405. A quiz over a category with no questions gives 422.

## Model

| member | source | states |
|---|---|---|
| `Basics.PySlice` | backend/flaskr/__init__.py:19 | for bounds with start <= end, at most end - start items; for non-negative bounds, the slice between them clipped to the list |
| `Basics.Filter` | backend/flaskr/__init__.py:227-228 | keeps exactly the rows satisfying the condition, each with its full multiplicity, and drops the rest |
| `Paging.PageNumber` | backend/flaskr/__init__.py:14 | the `page` query argument, defaulting to 1 when it is absent |
| `Paging.Paginate` | backend/flaskr/__init__.py:10-21 | at most 10 items; for page p >= 1 exactly min(10, max(0, N - (p-1)*10)) items, namely items (p-1)*10 onward in list order; a missing page means page 1 |
| `Paging.PageCount` | backend/flaskr/__init__.py:10 | the number of pages is the ceiling of N / 10: its pages cover N, one fewer does not |
| `Paging.PageEmptyIff` | backend/flaskr/__init__.py:13-21 | for p >= 1 the page is empty exactly when p lies past the last page |
| `Paging.PageZeroIsEmpty` | backend/flaskr/__init__.py:14-19 | page 0 selects nothing, as the Python slice `[-10:0]` does |
| `Paging.PagesArePrefix` | backend/flaskr/__init__.py:13-21 | pages 1..k laid end to end are the first min(10k, N) items |
| `Paging.PagesReassemble` | backend/flaskr/__init__.py:13-21 | concatenating pages 1 to the last page gives back the whole ordered list |
| `Records.ById` | backend/flaskr/__init__.py:88 | the questions ordered by id (also line 124): a strictly id-increasing list holding exactly the stored rows |
| `Records.FindQuestion` | backend/flaskr/__init__.py:119-120 | `one_or_none` by id: none exactly when no row has the id, otherwise a position holding that id |
| `Records.RemoveAt` | backend/flaskr/__init__.py:122 | deleting one row of an id-ordered table keeps the order, shrinks the table by one and removes exactly the questions with that id |
| `Records.CategoryMap` | backend/flaskr/__init__.py:61-62 | the dictionary's keys are exactly the category ids, and every entry is an (id, type) pair of some category |
| `Records.CategoryMapSize` | backend/flaskr/__init__.py:61-67 | with distinct ids the dictionary has one entry per category, so `total_categories` is the category count |
| `Records.CategoryMapExact` | backend/flaskr/__init__.py:61-67 | with distinct ids the dictionary reproduces the category table: one entry per category, holding that category's type |
| `Ilike.ContainsPattern` | backend/flaskr/__init__.py:201 | the pattern `"%{}%".format(term)`: the term unchanged between one leading and one trailing `%` |
| `Ilike.ILikeIgnoresCase` | backend/flaskr/__init__.py:201 | `ilike` is case-insensitive: lower-casing the text or the pattern first never changes whether they match |
| `Ilike.PercentMatchesAll` | backend/flaskr/__init__.py:201 | `%` alone matches every text |
| `Ilike.LiteralPercentIsPrefix` | backend/flaskr/__init__.py:201 | a wildcard-free term followed by `%` matches exactly the texts that begin with it |
| `Ilike.LeadingPercent` | backend/flaskr/__init__.py:201 | a leading `%` matches when the rest of the pattern matches some suffix |
| `Ilike.ContainsPatternIsSubstring` | backend/flaskr/__init__.py:201 | for a wildcard-free term, `%term%` matches exactly the texts containing the term |
| `Ilike.ILikeIsCaseInsensitiveSubstring` | backend/flaskr/__init__.py:200-201 | for a wildcard-free term, the ILIKE match holds exactly when the lower-cased term occurs in the lower-cased text |
| `Handlers.Rescue` | backend/flaskr/__init__.py:70-71 | the bare `except:` that re-aborts (also lines 135-136, 178-179, 213-214, 242-243, 289-290): a success passes through unchanged, and any abort, 404 included, becomes an abort with the handler's fixed code |
| `Handlers.GetCategories` | backend/flaskr/__init__.py:51-71 | 422 exactly when there are no categories; otherwise the dictionary maps every category id to its type and `total_categories` is the category count |
| `Handlers.GetQuestions` | backend/flaskr/__init__.py:85-106 | only 404 as an error, and for page >= 1 that happens exactly when the page lies past the last one (including an empty table); otherwise 1 to 10 questions forming that id-ordered slice, the total question count, the full category dictionary and a null current category |
| `Handlers.DeleteQuestion` | backend/flaskr/__init__.py:115-136 | a missing id gives 422 with the store unchanged; otherwise exactly that row leaves the table and every other question stays, in order, with categories and counter untouched; the response carries the id, the new count and the requested page of the remaining questions; the store invariant is kept |
| `Handlers.CreateQuestion` | backend/flaskr/__init__.py:148-179 | no body gives 422 with the store unchanged; otherwise one question with an unused id and the given question, answer, difficulty and category is appended, the existing rows and categories are unchanged, and the response names the new id and row; the store invariant is kept |
| `Handlers.SearchQuestions` | backend/flaskr/__init__.py:191-214 | 405 exactly when the term is absent or empty; otherwise exactly the stored questions whose text ILIKE-matches `%term%`, each with its full multiplicity, and their count |
| `Handlers.QuestionsByCategory` | backend/flaskr/__init__.py:224-243 | 404 exactly when no question has the category; otherwise exactly the questions of that category, the category id and their count |
| `Quiz.Eligible` | backend/flaskr/__init__.py:263-270 | category 0 admits every question, any other id admits exactly the questions of that category, and a missing id (`category == NULL`) admits none |
| `Quiz.PlayQuiz` | backend/flaskr/__init__.py:256-290 | 422 when there is no body, no eligible question (category 0 means all) or no `previous_questions`; otherwise a success whose question is null exactly when every eligible id is among the previous ones, and otherwise is an eligible question not seen before |
| `Lifecycle.CreatedQuestionIsOnLastPage` | backend/flaskr/__init__.py:144-146 | after a create, the new question is the last item on the last page of the question listing |
| `Lifecycle.DeleteUndoesCreate` | backend/flaskr/__init__.py:115-179 | deleting the question just created succeeds and restores both tables |
| `Lifecycle.DeleteTwiceFails` | backend/flaskr/__init__.py:118-136 | deleting the same id a second time gives 422 and changes nothing |
| `Lifecycle.SearchFindsSubstring` | backend/flaskr/__init__.py:183-201 | for a non-empty wildcard-free term, the search returns exactly the questions whose text contains the term, ignoring ASCII case |
| `Lifecycle.SearchTitleExample` | backend/flaskr/__init__.py:187-189 | searching "title" finds a question whose text contains "Title" |
| `Lifecycle.QuizExhaustedIsNull` | backend/flaskr/__init__.py:275-282 | when every stored id is among the previous questions and some question is eligible, the only allowed answer is a success with a null question |
| `Lifecycle.QuizAgreesWithCategoryListing` | backend/flaskr/__init__.py:265-273 | for a non-zero category the quiz has an eligible question exactly when the category listing succeeds; with none, every allowed quiz answer is 422 |

## Left out

- Flask app construction, `setup_db`, `CORS` and the `after_request` header injection (lines 24-45) are framework plumbing. They are not modelled.
- JSON rendering and the error-handler bodies (lines 297-335) are not modelled. A response is `Ok(payload)` or `Abort(status)`, and `Handlers.Code` gives each status's number.
- `models.py` is not part of this model. `format()` is taken to be the record itself. `insert()` appends a row with the counter's id and advances the counter. `delete()` removes the row.
- `Handlers.CreateQuestion`: a present body is taken to carry all four fields. Whether a missing key (stored as NULL) is accepted depends on column constraints in `models.py`, which is not part of this model.
- `Handlers.CreateQuestion` and `Handlers.SearchQuestions`: a request body that is not valid JSON is not modelled. `request.get_json()` (lines 150 and 194) runs outside the `try`, so such a body ends in 400 from the handler at lines 321-327. `Status` has no 400. A `None` create body stands only for a body that `get_json()` returns as `None` (line 152), and a `None` search term only for a term the body lacks. The quiz reads its body inside the `try` (line 260), so there a malformed body gives 422, as modelled.
- `Quiz.PlayQuiz`: `func.random()` ordering becomes a nondeterministic choice among the eligible unseen questions. No probability distribution is stated.
- `Quiz.PlayQuiz`: a missing `quiz_category` and a missing `id` are both represented by `None`. Both end in 422.
- `Handlers.SearchQuestions`: ILIKE case folding is ASCII only. Database collation and locale-dependent folding are not modelled. The pattern escape character is PostgreSQL's default backslash.
- A JSON-null body on `/search` is not modelled. `body.get` (line 196) sits outside the `try`, so it ends as an unhandled framework error.
- JSON values of unexpected types are not modelled: a non-string `searchTerm`, a non-integer category id, or non-integer `previous_questions`.
- Database failures are not modelled. In `get_questions` they would surface as 500, because that handler has no `try`.
- The SQL gives no row order for search results or category results. The model returns them in storage (id) order.
- `get_questions` reads the categories ordered by type. The model builds the dictionary from the id-ordered table. With distinct ids the dictionary's contents do not depend on that order.
- Concurrent requests are not modelled. Each handler is one atomic step on the store.
