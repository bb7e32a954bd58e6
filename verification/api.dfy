/** The request handlers of the Trivia API (backend/flaskr/__init__.py), each
    a pure function from the store and the request's inputs to a response,
    and, for the two handlers that write, to the store after the request. */
module Api {
  import opened Basics
  import opened Models
  import opened Pagination
  import opened Text

  /** The JSON body of a response. Every body but `Error` carries
      `"success": true`; `Error` carries `"success": false`. */
  datatype Body =
    | CategoryList(categories: map<int, string>, totalCategories: int)
    | QuestionList(questions: seq<Question>, categories: map<int, string>, totalQuestions: int)
    | Deleted(deleted: int, questions: seq<Question>, totalQuestions: int)
    | Created(created: int, questions: seq<Question>, totalQuestions: int)
    | SearchResult(questions: seq<Question>, totalQuestions: int)
    | CategoryQuestions(questions: seq<Question>, totalQuestionsInCategory: int)
    | QuizQuestion(question: Question)
    | Error(error: int, message: string)

  /** An HTTP status together with its JSON body. */
  datatype Response = Response(status: int, body: Body) {
    predicate Success() {
      !body.Error?
    }
  }

  /** A response together with the store as the request leaves it. */
  datatype Reply = Reply(store: Store, response: Response)

  /** The question fields of a create request's JSON body. Whether the row
      they describe can be inserted is decided by the column constraints of
      the models module, which is not part of this model. */
  datatype NewQuestion = NewQuestion(
    question: string,
    answer: string,
    category: int,
    difficulty: int)

  /** The envelopes of the two registered error handlers, and the body the
      quiz endpoint returns with status 200 when no question is left. */
  const NotFound := Response(404, Error(404, "resource not found"))
  const Unprocessable := Response(422, Error(422, "unprocessable"))
  const NoMoreQuestions := Response(200, Error(404, "No more question available"))

  /** How the code inside a `try` block ends: with a response, with an
      `abort(code)`, or with any other exception (a failed database write
      or read). */
  datatype Attempt = Returned(response: Response) | Aborted(code: int) | Raised

  /** A bare `except: abort(422)` around an attempt: whatever escapes the
      block, an inner `abort(404)` or `abort(400)` included, becomes 422. */
  function CatchAll(a: Attempt): (r: Response)
    ensures a.Returned? ==> r == a.response
    ensures !a.Returned? ==> r.status == 422 && !r.Success()
  {
    match a
    case Returned(r) => r
    case _ => Unprocessable
  }

  function CategoryIds(cs: seq<Category>): set<int> {
    set i | 0 <= i < |cs| :: cs[i].id
  }

  /** The dictionary `{category.id: category.type for category in cs}`:
      a later entry wins over an earlier one with the same id. */
  function CategoryMap(cs: seq<Category>): (m: map<int, string>)
    ensures m.Keys == CategoryIds(cs)
    ensures CategoryIdsAscending(cs) ==>
      forall i :: 0 <= i < |cs| ==> m[cs[i].id] == cs[i].kind
  {
    if cs == [] then map[]
    else
      var later := CategoryMap(cs[1..]);
      assert forall i :: 0 < i < |cs| ==> cs[i] == cs[1..][i - 1];
      if cs[0].id in later then later else later[cs[0].id := cs[0].kind]
  }

  /** With unique ids the dictionary has one entry per category. */
  lemma {:induction false} CategoryMapSize(cs: seq<Category>)
    requires CategoryIdsAscending(cs)
    ensures |CategoryMap(cs)| == |cs|
  {
    if cs != [] {
      CategoryMapSize(cs[1..]);
      assert cs[0].id !in CategoryIds(cs[1..]);
    }
  }

  /** In an id-ordered list every question is a distinct value, so the list
      is as long as the set of its elements. */
  lemma {:induction false} DistinctCount(qs: seq<Question>)
    requires QuestionIdsAscending(qs)
    ensures |set q | q in qs| == |qs|
  {
    if qs != [] {
      DistinctCount(qs[1..]);
      assert qs[0] !in qs[1..];
      assert (set q | q in qs) == (set q | q in qs[1..]) + {qs[0]};
    }
  }

  /** The number of rows a filtered query returns is the number of distinct
      questions in the store that satisfy the filter. */
  lemma FilterCount(qs: seq<Question>, p: Question -> bool)
    requires QuestionIdsAscending(qs)
    ensures |Filter(qs, p)| == |set q | q in qs && p(q)|
  {
    var f := Filter(qs, p);
    FilterAscending(qs, p);
    DistinctCount(f);
    assert (set q | q in f) == (set q | q in qs && p(q));
  }

  /** Any contiguous run of an id-ordered list is id-ordered. */
  lemma RangeAscending(qs: seq<Question>, lo: nat, hi: nat)
    requires QuestionIdsAscending(qs)
    requires lo <= hi <= |qs|
    ensures QuestionIdsAscending(qs[lo..hi])
  {
    assert forall i :: 0 <= i < hi - lo ==> qs[lo..hi][i] == qs[lo + i];
  }

  /** Any page of an id-ordered selection is id-ordered. */
  lemma PageAscending(qs: seq<Question>, page: int)
    requires QuestionIdsAscending(qs)
    ensures QuestionIdsAscending(Paginate(qs, page))
  {
    var start := PageStart(page);
    if 1 <= page {
      RangeAscending(qs, Min(start, |qs|), Min(start + QuestionsPerPage, |qs|));
    } else if page < 0 {
      RangeAscending(qs, Max(0, |qs| + start), Max(0, |qs| + start + QuestionsPerPage));
    }
  }

  /** A page of a filtered, id-ordered selection is id-ordered and holds
      only questions of the store that pass the filter. */
  lemma SelectionPage(qs: seq<Question>, p: Question -> bool, page: int)
    requires QuestionIdsAscending(qs)
    ensures QuestionIdsAscending(Paginate(Filter(qs, p), page))
    ensures forall i :: 0 <= i < |Paginate(Filter(qs, p), page)| ==>
      Paginate(Filter(qs, p), page)[i] in qs && p(Paginate(Filter(qs, p), page)[i])
  {
    var selection := Filter(qs, p);
    FilterAscending(qs, p);
    PageAscending(selection, page);
    var current := Paginate(selection, page);
    assert forall i :: 0 <= i < |current| ==> current[i] in selection;
  }

  /** GET /categories. */
  function RetrieveCategories(st: Store): (r: Response)
    requires Valid(st)
    ensures r.Success() <==> |st.categories| > 0
    ensures !r.Success() ==> r == NotFound
    ensures r.Success() ==>
      && r.status == 200
      && r.body.CategoryList?
      && r.body.categories.Keys == CategoryIds(st.categories)
      && (forall i :: 0 <= i < |st.categories| ==>
            r.body.categories[st.categories[i].id] == st.categories[i].kind)
      && r.body.totalCategories == |st.categories| == |r.body.categories|
  {
    var categories := CategoryMap(st.categories);
    CategoryMapSize(st.categories);
    if |categories| == 0 then NotFound
    else Response(200, CategoryList(categories, |st.categories|))
  }

  /** GET /questions?page=P. */
  function RetrieveQuestions(st: Store, pageArg: Option<int>): (r: Response)
    requires Valid(st)
    ensures r.Success() || r == NotFound
    ensures r.Success() <==> Paginate(st.questions, PageNumber(pageArg)) != []
    ensures 1 <= PageNumber(pageArg) ==>
      (r.Success() <==> PageStart(PageNumber(pageArg)) < |st.questions|)
    ensures r.Success() ==>
      && r.status == 200
      && r.body.QuestionList?
      && r.body.questions == Paginate(st.questions, PageNumber(pageArg))
      && 1 <= |r.body.questions| <= QuestionsPerPage
      && QuestionIdsAscending(r.body.questions)
      && r.body.totalQuestions == |st.questions|
      && r.body.categories.Keys == CategoryIds(st.categories)
      && (forall i :: 0 <= i < |st.categories| ==>
            r.body.categories[st.categories[i].id] == st.categories[i].kind)
  {
    var categories := CategoryMap(st.categories);
    var current := Paginate(st.questions, PageNumber(pageArg));
    PageAscending(st.questions, PageNumber(pageArg));
    PageEmptyIff(st.questions, PageNumber(pageArg));
    if |current| == 0 then NotFound
    else Response(200, QuestionList(current, categories, |st.questions|))
  }

  /** Removing the question at index k of an id-ordered list is the same as
      keeping every question whose id differs from its id. */
  lemma RemoveAtIsFilter(qs: seq<Question>, k: nat)
    requires QuestionIdsAscending(qs)
    requires k < |qs|
    ensures qs[..k] + qs[k + 1..] == Filter(qs, IdIsNot(qs[k].id))
  {
    var p := IdIsNot(qs[k].id);
    var before, after := qs[..k], qs[k + 1..];
    assert forall i :: 0 <= i < |before| ==> before[i].id < qs[k].id;
    assert forall i :: 0 <= i < |after| ==> after[i] == qs[k + 1 + i];
    assert forall i :: 0 <= i < |after| ==> after[i].id > qs[k].id;
    FilterKeepsAll(before, p);
    FilterKeepsAll(after, p);
    assert Filter([qs[k]], p) == [];
    SplitAt(qs, k);
    FilterConcat(before, [qs[k]] + after, p);
    FilterConcat([qs[k]], after, p);
    assert Filter([qs[k]] + after, p) == after;
    assert Filter(before + ([qs[k]] + after), p) == before + after;
  }

  /** DELETE /questions/<id>. `deleteOk` says whether the database accepts
      the deletion; `readOk` says whether the reads that follow the committed
      deletion (the id-ordered listing, its page and the count) run without
      raising. A read that raises still ends in 422, but the deletion stays. */
  function DeleteQuestion(st: Store, id: nat, pageArg: Option<int>, deleteOk: bool, readOk: bool): (reply: Reply)
    requires Valid(st)
    ensures Valid(reply.store)
    ensures id !in Ids(st.questions) ==> reply == Reply(st, Unprocessable)
    ensures !deleteOk ==> reply == Reply(st, Unprocessable)
    ensures id in Ids(st.questions) && deleteOk ==>
      && reply.store.questions == Filter(st.questions, IdIsNot(id))
      && id !in Ids(reply.store.questions)
      && (forall i :: 0 <= i < |st.questions| && st.questions[i].id != id ==>
            st.questions[i] in reply.store.questions)
      && |reply.store.questions| == |st.questions| - 1
      && reply.store.categories == st.categories
      && reply.store.nextId == st.nextId
      && (readOk ==>
            reply.response == Response(200,
              Deleted(id, Paginate(reply.store.questions, PageNumber(pageArg)), |st.questions| - 1)))
      && (!readOk ==> reply.response == Unprocessable)
  {
    match Lookup(st.questions, id)
    case None => Reply(st, CatchAll(Aborted(404)))
    case Some(k) =>
      if !deleteOk then Reply(st, CatchAll(Raised))
      else
        var remaining := st.questions[..k] + st.questions[k + 1..];
        RemoveAtIsFilter(st.questions, k);
        FilterAscending(st.questions, IdIsNot(id));
        var current := Paginate(remaining, PageNumber(pageArg));
        Reply(st.(questions := remaining),
              CatchAll(if readOk then Returned(Response(200, Deleted(id, current, |remaining|))) else Raised))
  }

  /** POST /questions. `insertOk` says whether the database accepts the new
      row, which takes the next id of the id sequence; `readOk` says whether
      the reads that follow the committed insert run without raising. A read
      that raises still ends in 422, but the new row stays. */
  function CreateQuestion(st: Store, draft: NewQuestion, pageArg: Option<int>, insertOk: bool, readOk: bool): (reply: Reply)
    requires Valid(st)
    ensures Valid(reply.store)
    ensures !insertOk ==> reply == Reply(st, Unprocessable)
    ensures insertOk ==>
      && |reply.store.questions| == |st.questions| + 1
      && var added := reply.store.questions[|st.questions|];
         && added == Question(added.id, draft.question, draft.answer, draft.category, draft.difficulty)
         && added.id !in Ids(st.questions)
         && st.nextId <= added.id < reply.store.nextId
         && reply.store.questions == st.questions + [added]
         && multiset(reply.store.questions)[added] == 1
         && reply.store.categories == st.categories
         && (readOk ==>
               reply.response == Response(200,
                 Created(added.id, Paginate(reply.store.questions, PageNumber(pageArg)), |st.questions| + 1)))
         && (!readOk ==> reply.response == Unprocessable)
  {
    if !insertOk then Reply(st, CatchAll(Raised))
    else
      var added := Question(st.nextId, draft.question, draft.answer, draft.category, draft.difficulty);
      var all := st.questions + [added];
      assert added !in st.questions;
      var current := Paginate(all, PageNumber(pageArg));
      Reply(st.(questions := all, nextId := st.nextId + 1),
            CatchAll(if readOk then Returned(Response(200, Created(added.id, current, |all|))) else Raised))
  }

  /** The search filter: the question text contains the term, ignoring case. */
  function MatchesTerm(term: string): Question -> bool {
    (q: Question) => ContainsIgnoringCase(q.question, term)
  }

  /** The number of matching rows, counted as distinct questions. */
  lemma SearchCount(qs: seq<Question>, term: string)
    requires QuestionIdsAscending(qs)
    ensures |Filter(qs, MatchesTerm(term))| ==
      |set q | q in qs && ContainsIgnoringCase(q.question, term)|
  {
    FilterCount(qs, MatchesTerm(term));
    assert (set q | q in qs && MatchesTerm(term)(q))
        == (set q | q in qs && ContainsIgnoringCase(q.question, term));
  }

  /** POST /search with body field `searchTerm`; `None` stands for a missing
      or null field. `queryOk` says whether the database runs the query
      without raising. */
  function SearchQuestions(st: Store, searchTerm: Option<string>, pageArg: Option<int>, queryOk: bool): (r: Response)
    requires Valid(st)
    ensures searchTerm.None? || searchTerm.value == "" ==> r == Unprocessable
    ensures !queryOk ==> r == Unprocessable
    ensures searchTerm.Some? && searchTerm.value != "" && queryOk ==>
      && r.status == 200
      && r.body.SearchResult?
      && r.body.questions == Paginate(Filter(st.questions, MatchesTerm(searchTerm.value)), PageNumber(pageArg))
      && |r.body.questions| <= QuestionsPerPage
      && QuestionIdsAscending(r.body.questions)
      && (forall i :: 0 <= i < |r.body.questions| ==>
            r.body.questions[i] in st.questions
            && ContainsIgnoringCase(r.body.questions[i].question, searchTerm.value))
      && r.body.totalQuestions ==
           |set q | q in st.questions && ContainsIgnoringCase(q.question, searchTerm.value)|
  {
    CatchAll(
      if searchTerm.Some? && searchTerm.value != "" then
        if !queryOk then Raised
        else (
          var term := searchTerm.value;
          var selection := Filter(st.questions, MatchesTerm(term));
          SelectionPage(st.questions, MatchesTerm(term), PageNumber(pageArg));
          SearchCount(st.questions, term);
          var current := Paginate(selection, PageNumber(pageArg));
          Returned(Response(200, SearchResult(current, |selection|))))
      else
        Aborted(400))
  }

  /** The number of rows in a category, counted as distinct questions. */
  lemma CategoryCount(qs: seq<Question>, categoryId: int)
    requires QuestionIdsAscending(qs)
    ensures |Filter(qs, InCategory(categoryId))| ==
      |set q | q in qs && q.category == categoryId|
  {
    FilterCount(qs, InCategory(categoryId));
    assert (set q | q in qs && InCategory(categoryId)(q))
        == (set q | q in qs && q.category == categoryId);
  }

  /** GET /categories/<id>/questions. The query has no `order_by`; the model
      reads it in the store's order, which is ascending id. */
  function GetQuestionsByCategory(st: Store, categoryId: nat, pageArg: Option<int>): (r: Response)
    requires Valid(st)
    ensures r.Success() || r == NotFound
    ensures r.Success() <==>
      Paginate(Filter(st.questions, InCategory(categoryId)), PageNumber(pageArg)) != []
    ensures 1 <= PageNumber(pageArg) ==>
      (r.Success() <==>
         PageStart(PageNumber(pageArg)) < |set q | q in st.questions && q.category == categoryId|)
    ensures r.Success() ==>
      && r.status == 200
      && r.body.CategoryQuestions?
      && r.body.questions == Paginate(Filter(st.questions, InCategory(categoryId)), PageNumber(pageArg))
      && 1 <= |r.body.questions| <= QuestionsPerPage
      && QuestionIdsAscending(r.body.questions)
      && (forall i :: 0 <= i < |r.body.questions| ==>
            r.body.questions[i] in st.questions && r.body.questions[i].category == categoryId)
      && r.body.totalQuestionsInCategory ==
           |set q | q in st.questions && q.category == categoryId|
  {
    var selection := Filter(st.questions, InCategory(categoryId));
    SelectionPage(st.questions, InCategory(categoryId), PageNumber(pageArg));
    CategoryCount(st.questions, categoryId);
    PageEmptyIff(selection, PageNumber(pageArg));
    var current := Paginate(selection, PageNumber(pageArg));
    if |current| == 0 then NotFound
    else Response(200, CategoryQuestions(current, |selection|))
  }

  function NotPrevious(previous: seq<int>): Question -> bool {
    (q: Question) => q.id !in previous
  }

  /** Whether a question may be served by the quiz: not asked before, and in
      the chosen category when the category id is positive (0 means all). */
  predicate QuizEligible(q: Question, quizCategory: int, previous: seq<int>) {
    q.id !in previous && (quizCategory > 0 ==> q.category == quizCategory)
  }

  /** The quiz's candidate rows, queried as the two branches of the handler
      query them. */
  function QuizCandidates(qs: seq<Question>, quizCategory: int, previous: seq<int>): (r: seq<Question>)
    ensures forall i :: 0 <= i < |r| ==> r[i] in qs && QuizEligible(r[i], quizCategory, previous)
    ensures forall i :: 0 <= i < |qs| && QuizEligible(qs[i], quizCategory, previous) ==> qs[i] in r
  {
    if quizCategory > 0 then
      var inCategory := Filter(qs, InCategory(quizCategory));
      assert forall i :: 0 <= i < |qs| && qs[i].category == quizCategory ==> qs[i] in inCategory;
      Filter(inCategory, NotPrevious(previous))
    else
      Filter(qs, NotPrevious(previous))
  }

  /** POST /quizzes. `pick` replaces `random.choice`: any natural number
      selects candidate `pick % n` of the n candidates. */
  function GetQuizQuestion(st: Store, quizCategory: int, previous: seq<int>, pick: nat): (r: Response)
    requires Valid(st)
    ensures r.status == 200
    ensures r == NoMoreQuestions <==>
      forall i :: 0 <= i < |st.questions| ==> !QuizEligible(st.questions[i], quizCategory, previous)
    ensures r != NoMoreQuestions ==>
      && r.body.QuizQuestion?
      && r.body.question in st.questions
      && r.body.question.id !in previous
      && (quizCategory > 0 ==> r.body.question.category == quizCategory)
  {
    var candidates := QuizCandidates(st.questions, quizCategory, previous);
    if |candidates| == 0 then NoMoreQuestions
    else Response(200, QuizQuestion(candidates[pick % |candidates|]))
  }
}
