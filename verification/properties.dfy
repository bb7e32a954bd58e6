/** Properties that relate several requests to the Trivia API: what one
    request leaves behind for the next, and which inputs reach each row. */
module Properties {
  import opened Basics
  import opened Models
  import opened Pagination
  import opened Text
  import opened Api

  /** A second deletion of the same id finds nothing, so it answers 422 and
      leaves the store as the first deletion left it. */
  lemma DeleteTwiceIsUnprocessable(
    st: Store, id: nat, page1: Option<int>, read1: bool, page2: Option<int>, ok2: bool, read2: bool)
    requires Valid(st)
    requires id in Ids(st.questions)
    ensures var first := DeleteQuestion(st, id, page1, true, read1);
      && (read1 ==> first.response.status == 200)
      && id !in Ids(first.store.questions)
      && DeleteQuestion(first.store, id, page2, ok2, read2) == Reply(first.store, Unprocessable)
  {
  }

  /** Deleting the question just created gives back the original list of
      questions; only the id sequence has moved on. */
  lemma CreateThenDeleteRestores(
    st: Store, draft: NewQuestion, page1: Option<int>, page2: Option<int>)
    requires Valid(st)
    ensures var created := CreateQuestion(st, draft, page1, true, true);
      var deleted := DeleteQuestion(created.store, created.response.body.created, page2, true, true);
      && deleted.store.questions == st.questions
      && deleted.store.categories == st.categories
      && deleted.response.body.totalQuestions == |st.questions|
  {
  }

  /** A request that writes to the store. The other endpoints only read it. */
  datatype Write =
    | DeleteRequest(id: nat, page: Option<int>, deleteOk: bool, readOk: bool)
    | CreateRequest(draft: NewQuestion, page: Option<int>, insertOk: bool, readOk: bool)

  /** The store after serving `writes` in order, starting from `st`. The
      store stays valid, and the id sequence never moves back. */
  function Replay(st: Store, writes: seq<Write>): (r: Store)
    requires Valid(st)
    ensures Valid(r)
    ensures st.nextId <= r.nextId
    decreases |writes|
  {
    if writes == [] then st
    else
      var next := match writes[0]
        case DeleteRequest(id, page, ok, read) => DeleteQuestion(st, id, page, ok, read).store
        case CreateRequest(draft, page, ok, read) => CreateQuestion(st, draft, page, ok, read).store;
      Replay(next, writes[1..])
  }

  /** An id freed by a deletion is never given to a row inserted later,
      however many deletions and creations come in between, and whether or
      not the reads after the insert succeed. */
  lemma DeletedIdIsNeverReissued(
    st: Store, id: nat, page1: Option<int>, read1: bool, between: seq<Write>,
    draft: NewQuestion, page2: Option<int>, insertOk: bool, read2: bool)
    requires Valid(st)
    requires id in Ids(st.questions)
    ensures var deleted := DeleteQuestion(st, id, page1, true, read1);
      var later := Replay(deleted.store, between);
      var created := CreateQuestion(later, draft, page2, insertOk, read2);
      insertOk ==> created.store.questions[|later.questions|].id != id
  {
    var deleted := DeleteQuestion(st, id, page1, true, read1);
    assert id < st.nextId == deleted.store.nextId;
  }

  /** A new question is listed last: it is the final entry of the last page
      of GET /questions once it has been created. */
  lemma CreatedQuestionEndsLastPage(st: Store, draft: NewQuestion, page: Option<int>)
    requires Valid(st)
    ensures var created := CreateQuestion(st, draft, page, true, true);
      var n := |created.store.questions|;
      var last := RetrieveQuestions(created.store, Some((n - 1) / QuestionsPerPage + 1));
      && last.Success()
      && last.body.questions[|last.body.questions| - 1].id == created.response.body.created
  {
  }

  /** Every question of the store is shown by GET /questions on page
      i / 10 + 1, where i is its position in id order. */
  lemma EveryQuestionIsListed(st: Store, i: nat)
    requires Valid(st)
    requires i < |st.questions|
    ensures var r := RetrieveQuestions(st, Some(i / QuestionsPerPage + 1));
      r.Success() && st.questions[i] in r.body.questions
  {
  }

  /** Searching never misses: every question whose text contains a non-empty
      term, ignoring case, is shown on some page of the search results. */
  lemma SearchFindsEveryMatch(st: Store, term: string, q: Question)
    requires Valid(st)
    requires term != ""
    requires q in st.questions
    requires ContainsIgnoringCase(q.question, term)
    ensures exists page: nat ::
      1 <= page && q in SearchQuestions(st, Some(term), Some(page), true).body.questions
  {
    var selection := Filter(st.questions, MatchesTerm(term));
    var j :| 0 <= j < |st.questions| && st.questions[j] == q;
    assert q in selection;
    var i :| 0 <= i < |selection| && selection[i] == q;
    PageOfIndex(selection, i);
    var page := i / QuestionsPerPage + 1;
    assert q in SearchQuestions(st, Some(term), Some(page), true).body.questions;
  }

  /** Listing a category never misses: every question of the category is
      shown on some page, which therefore answers with success. The route
      takes only non-negative category ids. */
  lemma CategoryListingFindsEveryQuestion(st: Store, q: Question)
    requires Valid(st)
    requires q in st.questions
    requires 0 <= q.category
    ensures exists page: nat ::
      && 1 <= page
      && GetQuestionsByCategory(st, q.category, Some(page)).Success()
      && q in GetQuestionsByCategory(st, q.category, Some(page)).body.questions
  {
    var selection := Filter(st.questions, InCategory(q.category));
    var j :| 0 <= j < |st.questions| && st.questions[j] == q;
    assert q in selection;
    var i :| 0 <= i < |selection| && selection[i] == q;
    PageOfIndex(selection, i);
    var page := i / QuestionsPerPage + 1;
    var r := GetQuestionsByCategory(st, q.category, Some(page));
    assert q in r.body.questions;
  }

  /** The quiz can serve every eligible question: for each one some choice
      of the random pick returns it. */
  lemma QuizCanServeEveryCandidate(st: Store, quizCategory: int, previous: seq<int>, q: Question)
    requires Valid(st)
    requires q in st.questions
    requires QuizEligible(q, quizCategory, previous)
    ensures exists pick: nat ::
      GetQuizQuestion(st, quizCategory, previous, pick) == Response(200, QuizQuestion(q))
  {
    var candidates := QuizCandidates(st.questions, quizCategory, previous);
    var j :| 0 <= j < |st.questions| && st.questions[j] == q;
    assert q in candidates;
    var i :| 0 <= i < |candidates| && candidates[i] == q;
    ModOfSmaller(i, |candidates|);
    assert GetQuizQuestion(st, quizCategory, previous, i) == Response(200, QuizQuestion(q));
  }

  /** A negative page number reads the list from its end, as Python's
      negative slice bounds do: page -1 shows the ten questions that come
      before the last ten. */
  lemma NegativePageReadsFromEnd(st: Store)
    requires Valid(st)
    requires 20 <= |st.questions|
    ensures var r := RetrieveQuestions(st, Some(-1));
      var n := |st.questions|;
      r.Success() && r.body.questions == st.questions[n - 20..n - 10]
  {
  }

  /** A store with one science question: its category lists it with a
      total of one, and a category without questions answers 404. */
  lemma SingleQuestionExample()
    ensures var q := Question(1, "Q1", "A1", 1, 1);
      var st := Store([q], [Category(1, "Science")], 2);
      && GetQuestionsByCategory(st, 1, None) == Response(200, CategoryQuestions([q], 1))
      && GetQuestionsByCategory(st, 2, None) == NotFound
  {
  }
}
