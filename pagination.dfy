/** The page slicer, the page count and the paginator buttons' disabled rules. */
module Pagination {

  /** `itemsPerPage`. */
  const ItemsPerPage: nat := 10

  /** `Math.ceil(n / itemsPerPage)`: the least page count whose pages hold `n` rows. */
  function PageCount(n: nat): (r: nat)
    ensures r * ItemsPerPage >= n
    ensures r == 0 || (r - 1) * ItemsPerPage < n
  {
    (n + ItemsPerPage - 1) / ItemsPerPage
  }

  /** `x` clipped to `[0, n]`; for the non-negative bounds the window passes,
      this is how `Array.prototype.slice` clips them. */
  function Clip(x: int, n: nat): (r: nat) {
    if x < 0 then 0 else if x > n then n else x
  }

  /** `sortedMonsters.slice(indexOfFirstItem, indexOfLastItem)` for 1-based `page`. */
  function Window<T>(s: seq<T>, page: int): (r: seq<T>)
    requires page >= 1
    ensures |r| <= ItemsPerPage
    ensures |r| == if (page - 1) * ItemsPerPage < |s| then
                     (if |s| - (page - 1) * ItemsPerPage < ItemsPerPage then |s| - (page - 1) * ItemsPerPage else ItemsPerPage)
                   else 0
    ensures forall k :: 0 <= k < |r| ==> r[k] == s[(page - 1) * ItemsPerPage + k]
  {
    var indexOfLastItem := page * ItemsPerPage;
    var indexOfFirstItem := indexOfLastItem - ItemsPerPage;
    s[Clip(indexOfFirstItem, |s|)..Clip(indexOfLastItem, |s|)]
  }

  /** The windows of pages `1..k`, in order, one after the other. */
  ghost function Pages<T>(s: seq<T>, k: nat): (r: seq<T>) {
    if k == 0 then [] else Pages(s, k - 1) + Window(s, k)
  }

  /** The first `k` pages are the first `k * itemsPerPage` rows (clipped). */
  lemma {:induction false} PagesArePrefix<T>(s: seq<T>, k: nat)
    ensures Pages(s, k) == s[..Clip(k * ItemsPerPage, |s|)]
  {
    if k > 0 {
      PagesArePrefix(s, k - 1);
      var a, b := Clip((k - 1) * ItemsPerPage, |s|), Clip(k * ItemsPerPage, |s|);
      assert s[..a] + s[a..b] == s[..b];
    }
  }

  /** The pages `1..ceil(n/10)` put back together give the whole sorted sequence:
      no row is dropped, repeated or moved. */
  lemma PagesReassemble<T>(s: seq<T>)
    ensures Pages(s, PageCount(|s|)) == s
  {
    PagesArePrefix(s, PageCount(|s|));
  }

  /** Every page that has a button shows at least one row; pages past the last show none. */
  lemma WindowEmptyIffPastLastPage<T>(s: seq<T>, page: int)
    requires page >= 1
    ensures Window(s, page) == [] <==> page > PageCount(|s|)
  {
  }

  /** "Anterior" is disabled on the first page: the one whose window starts at row 0. */
  predicate PrevDisabled(currentPage: int)
    ensures currentPage >= 1 ==> (PrevDisabled(currentPage) <==> (currentPage - 1) * ItemsPerPage == 0)
  {
    currentPage == 1
  }

  /** "Siguiente" is disabled when the current page equals the page count: on a non-empty
      dataset that is the page holding the last row; with no rows it is page 0, never reached. */
  predicate NextDisabled(currentPage: int, n: nat)
    ensures n > 0 ==> (NextDisabled(currentPage, n) <==> (currentPage - 1) * ItemsPerPage < n <= currentPage * ItemsPerPage)
    ensures n == 0 ==> (NextDisabled(currentPage, n) <==> currentPage == 0)
  {
    currentPage == PageCount(n)
  }

  /** The numbered button for `pageNumber` is disabled while that page is showing. */
  predicate PageButtonDisabled(currentPage: int, pageNumber: int) {
    currentPage == pageNumber
  }

  /** On a non-empty dataset, from any page that has a button, "Siguiente" is disabled
      exactly when the next page would be empty. */
  lemma NextDisabledIffNoMoreRows<T>(s: seq<T>, currentPage: int)
    requires |s| > 0
    requires 1 <= currentPage <= PageCount(|s|)
    ensures NextDisabled(currentPage, |s|) <==> Window(s, currentPage + 1) == []
  {
    WindowEmptyIffPastLastPage(s, currentPage + 1);
  }

  /** With exactly ten records there is one page and both arrows are disabled on it. */
  lemma TenRecordsOnePage()
    ensures PageCount(ItemsPerPage) == 1
    ensures PrevDisabled(1) && NextDisabled(1, ItemsPerPage)
  {
  }

  /** With no records there are no numbered pages, and on page 1 "Siguiente" stays
      enabled because the page count is 0, not 1. */
  lemma EmptyDatasetNextEnabled()
    ensures PageCount(0) == 0
    ensures PrevDisabled(1) && !NextDisabled(1, 0)
  {
  }
}
