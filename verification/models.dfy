/** The two persisted entities and the store that holds them. The store
    replaces the relational tables: each table is a sequence kept in ascending
    primary-key order, which is the order every `order_by(id)` query returns,
    and `nextId` plays the part of the question table's id sequence. */
module Models {
  import opened Basics

  datatype Question = Question(
    id: int,
    question: string,
    answer: string,
    category: int,
    difficulty: int)

  /** A category row; its `type` column is called `kind` here because `type`
      is a Dafny keyword. */
  datatype Category = Category(id: int, kind: string)

  datatype Store = Store(
    questions: seq<Question>,
    categories: seq<Category>,
    nextId: int)

  predicate QuestionIdsAscending(qs: seq<Question>) {
    forall i, j :: 0 <= i < j < |qs| ==> qs[i].id < qs[j].id
  }

  predicate CategoryIdsAscending(cs: seq<Category>) {
    forall i, j :: 0 <= i < j < |cs| ==> cs[i].id < cs[j].id
  }

  /** The ids held by a list of questions. */
  function Ids(qs: seq<Question>): set<int> {
    set i | 0 <= i < |qs| :: qs[i].id
  }

  /** The state the model assumes: both tables ordered by their unique
      primary key, and every stored question id drawn from the id sequence,
      which starts at 1, so each lies below the sequence's next value. The
      database itself does not enforce the second part: a row inserted with
      an explicit id can sit at or above the sequence. */
  predicate Valid(st: Store) {
    && QuestionIdsAscending(st.questions)
    && CategoryIdsAscending(st.categories)
    && 1 <= st.nextId
    && forall i :: 0 <= i < |st.questions| ==> 1 <= st.questions[i].id < st.nextId
  }

  /** The position of the question with id `id`, if there is one: the query
      `filter(Question.id == id).one_or_none()`. */
  function Lookup(qs: seq<Question>, id: int): (r: Option<nat>)
    ensures r.Some? ==> r.value < |qs| && qs[r.value].id == id
    ensures r.None? <==> id !in Ids(qs)
  {
    if qs == [] then None
    else if qs[0].id == id then Some(0)
    else
      match Lookup(qs[1..], id)
      case None => None
      case Some(k) => Some(k + 1)
  }

  /** The filter conditions the handlers pass to the database, as predicates
      on one row. */
  function IdIsNot(id: int): Question -> bool {
    (q: Question) => q.id != id
  }

  function InCategory(category: int): Question -> bool {
    (q: Question) => q.category == category
  }

  /** Every filter of an id-ordered list is id-ordered. */
  lemma {:induction false} FilterAscending(qs: seq<Question>, p: Question -> bool)
    requires QuestionIdsAscending(qs)
    ensures QuestionIdsAscending(Filter(qs, p))
  {
    if qs != [] {
      var tail := qs[1..];
      assert QuestionIdsAscending(tail) by {
        assert forall i :: 0 <= i < |tail| ==> tail[i] == qs[i + 1];
      }
      FilterAscending(tail, p);
      var rest := Filter(tail, p);
      assert forall x :: x in tail ==> qs[0].id < x.id;
      assert forall j :: 0 <= j < |rest| ==> qs[0].id < rest[j].id;
      if p(qs[0]) {
        assert Filter(qs, p) == [qs[0]] + rest;
      } else {
        assert Filter(qs, p) == rest;
      }
    }
  }
}
