/** The page slicer behind every paginated listing: page `p` of an ordered
    list is the Python slice `[(p - 1) * 10 : (p - 1) * 10 + 10]`. */
module Paging {
  import opened Basics

  /** Number of questions on a full page. */
  const QuestionsPerPage: nat := 10

  /** The `page` query argument; absent (or not an integer) means page 1. */
  function PageNumber(page: Option<int>): (p: int)
    ensures page.None? ==> p == 1
    ensures page.Some? ==> p == page.value
  {
    if page.Some? then page.value else 1
  }

  /** Index of the first item of page `p` in the ordered list. */
  function PageStart(p: int): int
  {
    (p - 1) * QuestionsPerPage
  }

  /** Number of non-empty pages of a list of `n` items: the ceiling of n / 10. */
  function PageCount(n: nat): (c: nat)
    ensures c * QuestionsPerPage >= n
    ensures c == 0 || (c - 1) * QuestionsPerPage < n
  {
    (n + QuestionsPerPage - 1) / QuestionsPerPage
  }

  /** The requested page of `items`. For a page number of 1 or more it is the
      id-ordered slice starting at `PageStart`, cut off at the end of the list;
      a page number below 1 follows Python's negative slicing. No page holds
      more than ten items. */
  function Paginate<T>(items: seq<T>, page: Option<int>): (r: seq<T>)
    ensures |r| <= QuestionsPerPage
    ensures PageNumber(page) >= 1 ==>
      |r| == Min(QuestionsPerPage, Max(0, |items| - PageStart(PageNumber(page))))
    ensures PageNumber(page) >= 1 ==>
      forall i :: 0 <= i < |r| ==> r[i] == items[PageStart(PageNumber(page)) + i]
  {
    var start := PageStart(PageNumber(page));
    PySlice(items, start, start + QuestionsPerPage)
  }

  /** A page of 1 or more is empty exactly when it lies past the last page. */
  lemma PageEmptyIff<T>(items: seq<T>, p: int)
    ensures p >= 1 ==> (Paginate(items, Some(p)) == [] <==> p > PageCount(|items|))
  {
  }

  /** Page 0 is always empty: both bounds of its slice land on index 0 or
      below the start, so `[-10:0]` selects nothing. */
  lemma PageZeroIsEmpty<T>(items: seq<T>)
    ensures Paginate(items, Some(0)) == []
  {
  }

  /** Pages 1 to k laid end to end. */
  function Pages<T>(items: seq<T>, k: nat): seq<T>
  {
    if k == 0 then [] else Pages(items, k - 1) + Paginate(items, Some(k))
  }

  /** Pages 1 to k together are the first 10k items (or all of them). */
  lemma {:induction false} PagesArePrefix<T>(items: seq<T>, k: nat)
    ensures Pages(items, k) == items[..Min(k * QuestionsPerPage, |items|)]
  {
    if k > 0 {
      PagesArePrefix(items, k - 1);
      var a := Min((k - 1) * QuestionsPerPage, |items|);
      var b := Min(k * QuestionsPerPage, |items|);
      assert Paginate(items, Some(k)) == items[a..b];
      assert items[..a] + items[a..b] == items[..b];
    }
  }

  /** Concatenating pages 1 to the last page gives back the whole list. */
  lemma PagesReassemble<T>(items: seq<T>)
    ensures Pages(items, PageCount(|items|)) == items
  {
    PagesArePrefix(items, PageCount(|items|));
    assert items[..|items|] == items;
  }
}
