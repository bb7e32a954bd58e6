# Trivia API request handling, modelled in Dafny

This project models the request handlers of the Trivia API, a small Flask
service over two tables: trivia questions and their categories. Each
handler in `backend/flaskr/__init__.py` becomes a pure function. It takes the
store and the request's inputs and returns a `Response`: an HTTP status and a
JSON body. The two handlers that write (delete and create) also return the
store as the request leaves it.

Modules, one per concern:

- `Basics` (basics.dfy): `Option`, `Min`/`Max`, and `Filter`, the
  order-preserving selection that stands for a `WHERE` clause.
- `PySlice` (pyslice.dfy): Python's `s[start:end]`. It includes negative and
  out-of-range bounds, because `paginate_questions` slices with whatever page
  number the client sends.
- `Models` (models.dfy): `Question`, `Category` and the `Store`. The store
  keeps both tables as sequences in ascending primary-key order. `nextId`
  stands for the question table's id sequence. `Valid` is the state the
  model assumes: unique ids in order, and every stored question id drawn
  from the id sequence (which starts at 1), so each is below `nextId`. The
  database does not enforce the second part: a row inserted with an explicit
  id, from a restored dump say, can sit at or above the sequence.
- `Pagination` (pagination.dfy): `QUESTIONS_PER_PAGE` and
  `paginate_questions`.
- `Text` (text.dfy): the search match `ILIKE '%term%'`, read as substring
  search under ASCII lower-casing.
- `Api` (api.dfy): the response envelopes, the bare `try/except`, and the
  seven handlers.
- `Properties` (properties.dfy): properties that span several requests.

Modelling choices:

- The `page` query argument is an `Option<int>`. `None` stands for a missing
  argument or one that does not parse as an integer; both give page 1.
  Pages 0 and below are not excluded. Python's slice rules are modelled
  exactly, so page 0 is always empty. A negative page reads from the end of
  the list. With 20 or more questions, page -1 shows the ten questions before
  the last ten. With fewer, it shows the questions before the last ten, if
  any.
- A bare `except: abort(422)` is `CatchAll` over an `Attempt`. The attempt
  ends with a response, with an `abort(code)`, or with another exception.
  This is why a missing question on delete answers 422, not 404. It is also
  why an empty search term answers 422, not 400. The code itself calls
  `abort(404)` and `abort(400)` at `backend/flaskr/__init__.py:100` and
  `backend/flaskr/__init__.py:177`, and `test_delete_question_404`
  (`backend/test_flaskr.py:96-102`) is written for a 404. What reaches the
  client is 422 in both cases. The tests `backend/test_flaskr.py:104-109` and
  `backend/test_flaskr.py:152-155` expect exactly that, and the model follows
  it.
- Whether the database accepts an insert or a delete, or runs the search
  query without raising, is a boolean parameter (`insertOk`, `deleteOk`,
  `queryOk`). The column constraints that decide it are in the
  models module, and that module is not part of this model.
- `insert()` and `delete()` commit before the handler reads the table again
  for the response (`backend/flaskr/__init__.py:102-111` and
  `backend/flaskr/__init__.py:136-147`). Whether those reads run without
  raising is a further parameter, `readOk`. When one raises, the client gets
  422 but the write stays: the returned store is the store after the write.
- The path parameters `<int:question_id>` and `<int:category_id>` accept
  only non-negative integers; the router answers 404 to anything else before
  a handler runs. The model's handlers take them as `nat`.
- `random.choice` is a parameter `pick: nat`. The quiz returns candidate
  `pick % n`, so every natural number is a valid pick and every candidate
  can be reached.
- When the quiz has no question left, it answers with HTTP status 200 and an
  error body (`success: false`, `error: 404`). The model keeps this
  inconsistency with the other handlers' 404 status as written
  (`NoMoreQuestions`).
- `Question.format()` is the identity: pages hold `Question` values.

## Model

| member | source | states |
|---|---|---|
| Basics.Filter | backend/flaskr/__init__.py:165 | the filtered rows are exactly the input rows that pass the condition, in both directions, and there are no more of them than input rows |
| PySlice.Normalize | backend/flaskr/__init__.py:17 | a slice bound is clamped into [0, n], and a negative bound counts from the end |
| PySlice.Slice | backend/flaskr/__init__.py:17 | a slice has max(0, hi - lo) elements, and element k is element lo + k of the list |
| PySlice.SliceBounds | backend/flaskr/__init__.py:17 | with non-negative bounds the slice is the sub-list cut at the list's end; with negative bounds it is the same, counted from the end |
| Pagination.PageNumber | backend/flaskr/__init__.py:12 | a missing or non-integer `page` argument yields page 1; an integer argument is used as given |
| Pagination.Paginate | backend/flaskr/__init__.py:9-19 | a page has at most 10 items; for page P >= 1 it is the items at positions [10(P-1), min(10P, n)); page 0 is empty; a negative page is the window counted from the end |
| Pagination.PageElements | backend/flaskr/__init__.py:13-17 | for P >= 1, item k of page P is item 10(P-1)+k, and the page holds min(10, n - 10(P-1)) items |
| Pagination.PageEmptyIff | backend/flaskr/__init__.py:13-17 | for P >= 1, the page is empty exactly when 10(P-1) >= n |
| Pagination.PageOfIndex | backend/flaskr/__init__.py:13-17 | item i appears on page i/10 + 1 at position i%10 |
| Pagination.FirstPagesArePrefix | backend/flaskr/__init__.py:13-17 | pages 1..n laid end to end are exactly the first 10n items: no overlap, no gap |
| Pagination.AllPagesCoverSelection | backend/flaskr/__init__.py:9-19 | pages 1..ceil(n/10) together show the whole selection once, in order |
| Models.Lookup | backend/flaskr/__init__.py:97 | `one_or_none` by id: it finds an index holding that id, or none exactly when no question has the id |
| Models.FilterAscending | backend/flaskr/__init__.py:165 | filtering a list ordered by id keeps it ordered by id |
| Text.Contains | backend/flaskr/__init__.py:165 | the scanning substring search is true exactly when the pattern occurs at some position |
| Text.ContainsIgnoringCase | backend/flaskr/__init__.py:165 | `ILIKE '%term%'` holds exactly when the term occurs at some position of the text with letters compared regardless of ASCII case |
| Text.MatchIgnoresTermCase | backend/flaskr/__init__.py:165 | a match does not change when the term or the text is lower-cased first |
| Text.LiteralOccurrenceMatches | backend/flaskr/__init__.py:165 | a term that occurs literally in the text matches it |
| Api.CatchAll | backend/flaskr/__init__.py:114-115 | a bare `except: abort(422)`: a response from inside the block passes through unchanged, and anything that escapes it (an inner `abort(404)` or `abort(400)`, or a database exception) becomes a 422 error |
| Api.CategoryMap | backend/flaskr/__init__.py:49 | the id-to-type dictionary has exactly the category ids as keys, and with unique ids maps each id to its own type |
| Api.CategoryMapSize | backend/flaskr/__init__.py:49-55 | with unique ids the dictionary has one entry per category |
| Api.PageAscending | backend/flaskr/__init__.py:73-77 | any page of an id-ordered selection is id-ordered |
| Api.RetrieveCategories | backend/flaskr/__init__.py:46-56 | 404 exactly when there is no category; otherwise 200 with the full id-to-type map and total_categories equal to the number of categories |
| Api.RetrieveQuestions | backend/flaskr/__init__.py:71-86 | 404 exactly when the page is empty, which for P >= 1 means 10(P-1) >= n; otherwise 1..10 questions of that page in id order, total_questions counting all questions, and all categories |
| Api.RemoveAtIsFilter | backend/flaskr/__init__.py:97-103 | removing the row at the found index equals keeping every row whose id differs |
| Api.DeleteQuestion | backend/flaskr/__init__.py:94-115 | an absent id or a failed delete gives 422 and an unchanged store; otherwise exactly that question goes, all others stay, and the count drops by one; the response then reports the id and the new total, or is 422 (with the deletion kept) when a follow-up read raises |
| Api.CreateQuestion | backend/flaskr/__init__.py:128-153 | a failed insert gives 422 and an unchanged store; otherwise one question with the request's fields is appended with a fresh id held by no existing question and not below the id sequence, and it occurs exactly once; the response then reports that id and the total plus one, or is 422 (with the new row kept) when a follow-up read raises |
| Api.SearchCount | backend/flaskr/__init__.py:165-172 | total_questions of a search equals the number of distinct stored questions matching the term |
| Api.SearchQuestions | backend/flaskr/__init__.py:156-180 | a missing or empty term, or a query that raises, gives 422; otherwise 200 with at most 10 matching stored questions in id order and the total of all matches; an empty page is still 200 |
| Api.CategoryCount | backend/flaskr/__init__.py:202-209 | total_questions_in_category equals the number of distinct stored questions in that category |
| Api.GetQuestionsByCategory | backend/flaskr/__init__.py:200-210 | 404 exactly when the page is empty, for every page number, which for P >= 1 means 10(P-1) is at least the category's size; otherwise 1..10 stored questions all of that category, with the category's full count |
| Api.QuizCandidates | backend/flaskr/__init__.py:233-237 | the candidates are exactly the stored questions not asked before and, for a positive category id, in that category |
| Api.GetQuizQuestion | backend/flaskr/__init__.py:227-253 | status is always 200; the no-more-questions body comes exactly when no stored question is eligible; otherwise the question is stored, not in previous_questions, and in the category when its id is positive |
| Properties.DeleteTwiceIsUnprocessable | backend/test_flaskr.py:76-109 | after a committed deletion the id is gone, and deleting it a second time answers 422 and changes nothing |
| Properties.CreateThenDeleteRestores | backend/flaskr/__init__.py:94-153 | deleting the question just created restores the original question list and total |
| Properties.Replay | backend/flaskr/__init__.py:94-153 | after any sequence of deletions and creations, successful or failed, the store is still valid and the id sequence has not moved back |
| Properties.DeletedIdIsNeverReissued | backend/flaskr/__init__.py:136-145 | under the assumption that every stored id was drawn from the id sequence (`Valid`), an id freed by a deletion is not the id of a row inserted later, after any sequence of deletions and creations in between, whether or not the reads after the insert succeed |
| Properties.CreatedQuestionEndsLastPage | backend/flaskr/__init__.py:123-125 | after a create, the last page of GET /questions succeeds and ends with the new question |
| Properties.EveryQuestionIsListed | backend/flaskr/__init__.py:71-86 | every stored question is on page i/10 + 1 of GET /questions, which succeeds |
| Properties.SearchFindsEveryMatch | backend/flaskr/__init__.py:156-180 | every stored question matching a non-empty term appears on some page of the search results |
| Properties.CategoryListingFindsEveryQuestion | backend/flaskr/__init__.py:200-210 | every stored question appears on some successful page of its category's listing |
| Properties.QuizCanServeEveryCandidate | backend/flaskr/__init__.py:239-253 | every eligible question is returned by the quiz for some pick |
| Properties.NegativePageReadsFromEnd | backend/flaskr/__init__.py:11-19 | with 20 or more questions, page -1 succeeds and shows the ten questions before the last ten |
| Properties.SingleQuestionExample | backend/flaskr/__init__.py:200-210 | with one question in category 1, category 1 lists it with total 1 and category 2 answers 404 |

## Left out

- Flask routing, JSON encoding and decoding, and CORS. This includes the `after_request` hook (backend/flaskr/__init__.py:34-38), which adds `Access-Control-Allow-Headers` twice where the second call was evidently meant to set the allowed methods. It is header plumbing with no logic.
- SQLAlchemy, PostgreSQL and `setup_db`: the store is two sequences, and each query is a filter over them. Transactions and concurrent requests are the database's concern.
- `Question.format()`: pages hold the `Question` records themselves.
- The models module (column types, nullability, `insert`, `delete`) is not part of this model. Its verdict on a row is the `insertOk` / `deleteOk` parameter. A create body's fields are modelled as present and typed. A missing field that a nullable column would store as NULL cannot be represented, so a stored question with a NULL field is not modelled.
- Parsing of the `page` query argument: the model receives the parsed integer, or `None` when the argument is missing or not an integer.
- `ILIKE` details: `%` and `_` inside the search term act as wildcards in the database, and `\`, PostgreSQL's default `LIKE` escape character, escapes the character after it, so a term ending in `\` escapes the closing `%` and matches only texts that end with the term's other characters followed by `%`. Case folding there goes beyond ASCII. The model treats the term literally and folds only `A`-`Z`.
- A search term that is not a string (a JSON number, say) is formatted into the pattern by Python. The model's term is a string.
- `random.choice`: only "some candidate" is modelled, through the `pick` parameter, not the distribution.
- Requests that crash with status 500 and have no stated contract: a missing JSON body in search or quiz, a missing `quiz_category`, `id` or `previous_questions` in the quiz, and a database error in the handlers that have no `try` (`backend/flaskr/__init__.py:46-56`, `71-86`, `200-210` and `227-253`). The model's read-only handlers assume their queries succeed.
- `int(category['id'])` on a string id in the quiz: the model takes the category id as an integer.
- Api.GetQuestionsByCategory: the source query has no `order_by`, so the row order is whatever the database returns. The model reads the rows in id order, and its ordering guarantee relies on that.
- The test harness's database bootstrap (`setUp`).
- Api.CreateQuestion: a failed insert leaves `nextId` where it was. In PostgreSQL an insert that fails after drawing its id, on a NOT NULL violation say, still uses up that id (`nextval` is never rolled back), so the next successful create would get an id one higher than the model gives. The model's guarantees need only that a new id is at least `nextId`, so none of them depends on this.
