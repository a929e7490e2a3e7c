/** The `MonsterList` component: the dataset it is given and its two pieces of UI state. */
module MonsterListView {
  import opened MonsterData
  import opened SortResolver
  import opened Extremum
  import opened Pagination

  class MonsterList {
    /** The `monsters` prop: read, never written. */
    const monsters: array<Monster>
    /** `currentPage`, 1-based. */
    var currentPage: int
    /** `sortColumn`: `Unset` stands for `null`. */
    var sortColumn: SortSpec

    /** The states the handlers can reach from mount: the page is at least 1 and, on a
        non-empty dataset, at most the page count; only clickable columns are ever sorted. */
    ghost predicate Valid()
      reads this
    {
      && currentPage >= 1
      && (monsters.Length > 0 ==> currentPage <= PageCount(monsters.Length))
      && (sortColumn.Spec? ==> IsClickable(sortColumn.column))
    }

    /** Mount: first page, no sort. */
    constructor (monsters: array<Monster>)
      ensures Valid()
      ensures this.monsters == monsters
      ensures currentPage == 1 && sortColumn == Unset
    {
      this.monsters := monsters;
      currentPage := 1;
      sortColumn := Unset;
    }

    /** `handleSort`, run by a click on a sortable header; the page is kept. */
    method HandleSort(column: Column)
      requires Valid()
      requires IsClickable(column)
      modifies this
      ensures Valid()
      ensures sortColumn == ToggleSort(old(sortColumn), column)
      ensures currentPage == old(currentPage)
    {
      sortColumn := ToggleSort(sortColumn, column);
    }

    /** `handlePageChange`, run by the enabled numbered button for `pageNumber`. */
    method HandlePageChange(pageNumber: int)
      requires Valid()
      requires 1 <= pageNumber <= PageCount(monsters.Length)
      requires !PageButtonDisabled(currentPage, pageNumber)
      modifies this
      ensures Valid()
      ensures currentPage == pageNumber
      ensures sortColumn == old(sortColumn)
    {
      currentPage := pageNumber;
    }

    /** `handleNextPage`, run by the enabled "Siguiente" button. */
    method HandleNextPage()
      requires Valid()
      requires !NextDisabled(currentPage, monsters.Length)
      modifies this
      ensures Valid()
      ensures currentPage == old(currentPage) + 1
      ensures sortColumn == old(sortColumn)
    {
      currentPage := currentPage + 1;
    }

    /** `handlePrevPage`, run by the enabled "Anterior" button. */
    method HandlePrevPage()
      requires Valid()
      requires !PrevDisabled(currentPage)
      modifies this
      ensures Valid()
      ensures currentPage == old(currentPage) - 1
      ensures sortColumn == old(sortColumn)
    {
      currentPage := currentPage - 1;
    }

    /** One render: the sorted data (a fresh copy when a sort is set) and the rows of the current page. On a non-empty
        dataset the current page always shows between one and ten rows. */
    method Render(collate: (string, string) -> int) returns (sortedMonsters: array<Monster>, currentMonsters: seq<Monster>)
      requires Valid()
      requires IsCollation(collate)
      ensures sortColumn.Unset? ==> sortedMonsters == monsters
      ensures sortColumn.Spec? ==> fresh(sortedMonsters)
      ensures sortColumn.Spec? ==> SortedBy(collate, sortColumn.column, sortColumn.order, sortedMonsters[..])
      ensures multiset(sortedMonsters[..]) == multiset(monsters[..])
      ensures currentMonsters == Window(sortedMonsters[..], currentPage)
      ensures monsters.Length > 0 ==> 0 < |currentMonsters| <= ItemsPerPage
    {
      sortedMonsters := GetSortedData(monsters, sortColumn, collate);
      var indexOfLastItem := currentPage * ItemsPerPage;
      var indexOfFirstItem := indexOfLastItem - ItemsPerPage;
      currentMonsters := sortedMonsters[Clip(indexOfFirstItem, sortedMonsters.Length)..Clip(indexOfLastItem, sortedMonsters.Length)];
      assert |sortedMonsters[..]| == monsters.Length by {
        assert |multiset(sortedMonsters[..])| == |multiset(monsters[..])|;
      }
      WindowEmptyIffPastLastPage(sortedMonsters[..], currentPage);
    }
  }

  /** In every state the handlers reach on a non-empty dataset, the current page has a
      numbered button and that button is the only disabled one. */
  lemma OneDisabledPageButton(c: MonsterList)
    requires c.Valid() && c.monsters.Length > 0
    ensures 1 <= c.currentPage <= PageCount(c.monsters.Length)
    ensures forall b :: 1 <= b <= PageCount(c.monsters.Length) ==>
      (PageButtonDisabled(c.currentPage, b) <==> b == c.currentPage)
  {
  }

  /** A row of any rendered page, under any sort spec, gets the highlight it has against the
      unsorted dataset, and (on safe-integer values) is "highest" exactly when no record
      of the dataset beats it in that column. */
  lemma VisibleRowHighlight(monsters: seq<Monster>, sorted: seq<Monster>,
                            page: int, row: Monster, column: Column)
    requires IsStatColumn(column)
    requires multiset(sorted) == multiset(monsters)
    requires page >= 1 && row in Window(sorted, page)
    ensures CellClass(sorted, row, column) == CellClass(monsters, row, column)
    ensures InSafeRange(monsters, column) ==>
      (CellClass(monsters, row, column) == HighestValue <==>
         forall x :: x in monsters ==> NumValue(x, column) <= NumValue(row, column))
  {
    var w := Window(sorted, page);
    var k :| 0 <= k < |w| && w[k] == row;
    assert row in multiset(monsters);
    CellClassIgnoresOrder(sorted, monsters, row, column);
    if InSafeRange(monsters, column) {
      HighestIffMaximal(monsters, row, column);
    }
  }
}
