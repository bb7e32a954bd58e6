/** `paginate_questions` (backend/flaskr/__init__.py): a window of ten items
    over an already ordered selection, chosen by the `page` query argument. */
module Pagination {
  import opened Basics
  import opened PySlice

  const QuestionsPerPage: nat := 10

  /** The `page` query argument read with a default of 1 and `type=int`:
      `None` stands for an argument that is missing or does not parse as an
      integer, both of which yield the default. */
  function PageNumber(arg: Option<int>): (page: int)
    ensures arg.None? ==> page == 1
    ensures arg.Some? ==> page == arg.value
  {
    arg.GetOr(1)
  }

  /** Index of the first item of `page`, before Python adjusts it. */
  function PageStart(page: int): int {
    (page - 1) * QuestionsPerPage
  }

  /** The items shown on `page`: the Python slice
      `items[PageStart(page):PageStart(page) + 10]`. */
  function Paginate<T>(items: seq<T>, page: int): (r: seq<T>)
    ensures |r| <= QuestionsPerPage
    ensures 1 <= page ==>
      r == items[Min(PageStart(page), |items|)..Min(PageStart(page) + QuestionsPerPage, |items|)]
    ensures page == 0 ==> r == []
    ensures page < 0 ==>
      r == items[Max(0, |items| + PageStart(page))..Max(0, |items| + PageStart(page) + QuestionsPerPage)]
  {
    var start := PageStart(page);
    SliceBounds(items, start, start + QuestionsPerPage);
    Slice(items, start, start + QuestionsPerPage)
  }

  /** For a page of one or more, item k of the page is item 10(page - 1) + k
      of the selection, and the page holds as many items as remain from its
      start, up to ten. */
  lemma PageElements<T>(items: seq<T>, page: int)
    requires 1 <= page
    ensures |Paginate(items, page)| == Min(QuestionsPerPage, Max(0, |items| - PageStart(page)))
    ensures forall k :: 0 <= k < |Paginate(items, page)| ==>
      Paginate(items, page)[k] == items[PageStart(page) + k]
  {
  }

  /** A page of one or more is empty exactly when it starts at or beyond the
      end of the selection. */
  lemma PageEmptyIff<T>(items: seq<T>, page: int)
    ensures 1 <= page ==> (Paginate(items, page) == [] <==> |items| <= PageStart(page))
  {
    if 1 <= page && |items| > PageStart(page) {
      assert items[PageStart(page)] == Paginate(items, page)[0];
    }
  }

  /** Every item of the selection is shown on page i / 10 + 1, at position
      i % 10. */
  lemma PageOfIndex<T>(items: seq<T>, i: nat)
    requires i < |items|
    ensures i % QuestionsPerPage < |Paginate(items, i / QuestionsPerPage + 1)|
    ensures Paginate(items, i / QuestionsPerPage + 1)[i % QuestionsPerPage] == items[i]
  {
    var page := i / QuestionsPerPage + 1;
    assert PageStart(page) + i % QuestionsPerPage == i;
    PageElements(items, page);
  }

  /** Pages 1 to n laid end to end. */
  function FirstPages<T>(items: seq<T>, n: nat): seq<T> {
    if n == 0 then [] else FirstPages(items, n - 1) + Paginate(items, n)
  }

  /** Pages 1 to n together are exactly the first 10n items of the selection,
      in order: pages neither overlap nor leave gaps. */
  lemma {:induction false} FirstPagesArePrefix<T>(items: seq<T>, n: nat)
    ensures FirstPages(items, n) == items[..Min(n * QuestionsPerPage, |items|)]
  {
    if n > 0 {
      FirstPagesArePrefix(items, n - 1);
      var a := Min((n - 1) * QuestionsPerPage, |items|);
      var b := Min(n * QuestionsPerPage, |items|);
      assert Paginate(items, n) == items[a..b];
      assert items[..a] + items[a..b] == items[..b];
    }
  }

  /** Walking pages 1 to ceil(|items| / 10) shows the whole selection once. */
  lemma AllPagesCoverSelection<T>(items: seq<T>)
    ensures FirstPages(items, (|items| + QuestionsPerPage - 1) / QuestionsPerPage) == items
  {
    var n := (|items| + QuestionsPerPage - 1) / QuestionsPerPage;
    FirstPagesArePrefix(items, n);
    assert |items| <= n * QuestionsPerPage;
    assert items[..|items|] == items;
  }
}
