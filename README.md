# MonsterList table logic, in Dafny

This project models the table presentation of the `MonsterList` component of the
Dragon Quest monster browser: a static array of monster records (id, name, family,
rank, capture level and six stats under `max_stats`) shown as a sortable, paginated
table, ten rows per page, whose stat cells are highlighted when they hold the
dataset-wide highest or lowest value of their column.

Modules, one per concern of the component:

- `MonsterData` (`monster_data.dfy`): the records, the column enumeration, and
  `ColumnValue`, the column value accessor (`getColumnValue`).
- `SortResolver` (`sort_resolver.dfy`): the sort spec state machine (`handleSort`),
  the comparator, and `GetSortedData`, which returns the dataset itself when no sort
  is set and otherwise sorts a fresh copy in place.
- `Extremum` (`extremum.dfy`): the accumulator loops `findMaxValue`/`findMinValue`,
  specified by left folds `DatasetMax`/`DatasetMin`, and the stat-cell highlight rule.
- `Pagination` (`pagination.dfy`): the page count, the page window slice and the
  paginator buttons' `disabled` conditions.
- `MonsterListView` (`monster_list.dfy`): the component as a class holding the
  dataset and its two pieces of state, `currentPage` and `sortColumn`, with one
  method per handler and one for a render.

String order is the host's `localeCompare`; the model takes it as a parameter
`collate` and assumes only that `collate(s, t) <= 0` is a total preorder
(`IsCollation`). The host's sorting algorithm is unknown; the model sorts with an
insertion sort and promises only what any host sort delivers with this comparator:
a permutation whose consecutive rows are in comparator order.

Notes on the code:

- The stats are read from `max_stats`, not from a field named `stats`.
- The rank header has a sort indicator but no click handler. Only id, name, family
  and the six stats are clickable (`IsClickable`); rank and capture level are not.
- With 0 records the page count is `ceil(0/10) = 0`, so "Siguiente" is enabled on
  page 1 (`EmptyDatasetNextEnabled`). Clicking it moves to pages 2, 3, … which all show
  no rows.

## Model

| member | source | states |
|---|---|---|
| `MonsterData.ColumnValue` | src/components/MonsterList/MonsterList.jsx:57-73 | a value is a string exactly for name, family and rank and a number for every other column (the six stats read from `max_stats`, the rest from the record's own field), so a column never mixes strings and numbers |
| `SortResolver.ToggleSort` | src/components/MonsterList/MonsterList.jsx:10-19 | the new spec always names the clicked column; clicking the active column flips its order; any other click, including with no spec set, gives ascending |
| `SortResolver.ToggleTwiceRestores` | src/components/MonsterList/MonsterList.jsx:10-19 | two clicks on the active column give back the original spec |
| `SortResolver.Compare` | src/components/MonsterList/MonsterList.jsx:41-52 | on numbers the comparator is `<= 0` exactly when the first value is `<=` the second (ascending) or `>=` it (descending) |
| `SortResolver.DescendingSwapsArguments` | src/components/MonsterList/MonsterList.jsx:45-51 | the descending comparator equals the ascending one with its arguments swapped, for strings and numbers alike |
| `SortResolver.BeforeTotal` | src/components/MonsterList/MonsterList.jsx:41-52 | for any two records, at least one of the two orders is accepted by the comparator |
| `SortResolver.BeforeTransitive` | src/components/MonsterList/MonsterList.jsx:41-52 | comparator order between records is transitive, given a transitive collation |
| `SortResolver.SortedAllPairs` | src/components/MonsterList/MonsterList.jsx:41-52 | a result whose consecutive rows are in comparator order has every earlier row in comparator order with every later row |
| `SortResolver.SortedByMeaning` | src/components/MonsterList/MonsterList.jsx:45-51 | in a sorted result numeric columns never decrease (ascending) or never increase (descending), and string columns follow the collation, reversed when descending |
| `SortResolver.SortInPlace` | src/components/MonsterList/MonsterList.jsx:41-52 | the array ends up a permutation of its old contents with consecutive rows in comparator order |
| `SortResolver.GetSortedData` | src/components/MonsterList/MonsterList.jsx:33-55 | with no spec the result is the dataset array itself; with a spec it is a fresh array, a permutation of the dataset, sorted by the spec; the dataset array is not written |
| `Extremum.DatasetMaxIsMaximum` | src/components/MonsterList/MonsterList.jsx:75-84 | the scanned maximum is at least MIN_SAFE_INTEGER and every record's value; it is MIN_SAFE_INTEGER on an empty list; otherwise it is the seed or some record's value, and on values no lower than the seed it is some record's value |
| `Extremum.DatasetMinIsMinimum` | src/components/MonsterList/MonsterList.jsx:86-95 | the scanned minimum is at most MAX_SAFE_INTEGER and every record's value; it is MAX_SAFE_INTEGER on an empty list; otherwise it is the seed or some record's value, and on values no higher than the seed it is some record's value |
| `Extremum.DatasetMaxIgnoresOrder` | src/components/MonsterList/MonsterList.jsx:75-84 | any two orderings of the same records give the same maximum |
| `Extremum.DatasetMinIgnoresOrder` | src/components/MonsterList/MonsterList.jsx:86-95 | any two orderings of the same records give the same minimum |
| `Extremum.FindMaxValue` | src/components/MonsterList/MonsterList.jsx:75-84 | the loop returns the left-fold maximum of the dataset, which bounds every record's value |
| `Extremum.FindMinValue` | src/components/MonsterList/MonsterList.jsx:86-95 | the loop returns the left-fold minimum of the dataset, which is bounded by every record's value |
| `Extremum.CellClass` | src/components/MonsterList/MonsterList.jsx:181-188 | a stat cell is "highest" exactly when its value equals the dataset maximum, "lowest" exactly when it is not the maximum but equals the dataset minimum, and unstyled otherwise |
| `Extremum.CellClassName` | src/components/MonsterList/MonsterList.jsx:181-188 | the cell class computed by calling the scanners on the full dataset is the highlight rule: highest when equal to the maximum, else lowest when equal to the minimum, else none |
| `Extremum.HighestIffMaximal` | src/components/MonsterList/MonsterList.jsx:181-188 | a record's cell is "highest" exactly when no record has a larger value, so every tied record is highlighted |
| `Extremum.LowestIffMinimalNotMaximal` | src/components/MonsterList/MonsterList.jsx:181-188 | a record's cell is "lowest" exactly when some record is larger and none is smaller |
| `Extremum.HighestWinsWhenMaxEqualsMin` | src/components/MonsterList/MonsterList.jsx:181-188 | when the column's maximum equals its minimum every cell is "highest", never "lowest" |
| `Extremum.CellClassIgnoresOrder` | src/components/MonsterList/MonsterList.jsx:181-188 | the highlight of a cell is the same against any reordering of the dataset |
| `Pagination.PageCount` | src/components/MonsterList/MonsterList.jsx:256-257 | the page count is the least number of ten-row pages that hold all rows (`ceil(n/10)`, 0 for no rows) |
| `Pagination.Window` | src/components/MonsterList/MonsterList.jsx:99-105 | page `p` shows at most ten rows: the rows of the sorted sequence from index `(p-1)*10` on, as many as remain up to ten |
| `Pagination.PagesArePrefix` | src/components/MonsterList/MonsterList.jsx:99-105 | the windows of pages 1..k in order are the first `10k` rows, clipped to the length |
| `Pagination.PagesReassemble` | src/components/MonsterList/MonsterList.jsx:256-257 | the windows of pages 1..ceil(n/10) in order reproduce the whole sorted sequence |
| `Pagination.WindowEmptyIffPastLastPage` | src/components/MonsterList/MonsterList.jsx:99-105 | a page's window is empty exactly when the page number exceeds the page count |
| `Pagination.NextDisabledIffNoMoreRows` | src/components/MonsterList/MonsterList.jsx:269-273 | on a non-empty dataset and a page that has a button, "Siguiente" is disabled exactly when the next page would be empty |
| `Pagination.TenRecordsOnePage` | src/components/MonsterList/MonsterList.jsx:253-272 | with exactly ten records there is one page and both arrows are disabled on it |
| `Pagination.EmptyDatasetNextEnabled` | src/components/MonsterList/MonsterList.jsx:253-272 | with no records the page count is 0, "Anterior" is disabled on page 1 and "Siguiente" is enabled |
| `Pagination.PrevDisabled` | src/components/MonsterList/MonsterList.jsx:253 | "Anterior" is disabled exactly on page 1, the page whose window starts at row 0 |
| `Pagination.NextDisabled` | src/components/MonsterList/MonsterList.jsx:269-272 | "Siguiente" is disabled exactly when the current page equals `ceil(n/10)`: on a non-empty dataset the page holding the last row; with no rows only on page 0, which is never reached |
| `MonsterListView.OneDisabledPageButton` | src/components/MonsterList/MonsterList.jsx:256-268 | in every state reachable on a non-empty dataset the current page has a numbered button, and that button is the only disabled one |
| `MonsterData.IsClickable` | src/components/MonsterList/MonsterList.jsx:113-170 | the id, name, family and six stat headers carry a click handler, and the only headers without one are rank and capture level |
| `MonsterListView.MonsterList.constructor` | src/components/MonsterList/MonsterList.jsx:5-8 | the component mounts on page 1 with no sort |
| `MonsterListView.MonsterList.HandleSort` | src/components/MonsterList/MonsterList.jsx:10-19 | the spec becomes the toggled spec; the current page is unchanged |
| `MonsterListView.MonsterList.HandlePageChange` | src/components/MonsterList/MonsterList.jsx:21-23 | a numbered button sets the current page to its number and leaves the sort spec alone |
| `MonsterListView.MonsterList.HandleNextPage` | src/components/MonsterList/MonsterList.jsx:25-27 | the enabled "Siguiente" button increments the page, keeping it within the page count on a non-empty dataset |
| `MonsterListView.MonsterList.HandlePrevPage` | src/components/MonsterList/MonsterList.jsx:29-31 | the enabled "Anterior" button decrements the page, which stays at least 1 |
| `MonsterListView.MonsterList.Render` | src/components/MonsterList/MonsterList.jsx:97-105 | a render yields the sorted data (the dataset itself when unsorted, a fresh copy otherwise) and the current page's window of it, which on a non-empty dataset holds one to ten rows |
| `MonsterListView.VisibleRowHighlight` | src/components/MonsterList/MonsterList.jsx:174-188 | a row shown on any page under any sort spec gets the same highlight as against the unsorted dataset, and on safe-integer values is "highest" exactly when no record beats it |

## Left out

- JSX markup, CSS class names, the caption, the button labels and the sort indicator glyphs: rendering only.
- `src/App.js` only mounts the component with a bundled JSON file. It holds no logic.
- `localeCompare` collation: it is a locale-dependent host call, so it is the parameter `collate`, assumed to be a total preorder.
- The host `Array.prototype.sort` algorithm and how it breaks ties: only its outcome, a sorted permutation, is specified. Idempotence of re-sorting depends on that tie-breaking and is not stated.
- JavaScript `NaN`/`undefined` behaviour: records always have every field and `max_stats`, columns are an enumeration, and each column holds one kind of value.
- FindMaxValue: requires a numeric column. On a string column JavaScript compares a string with a number, which is not modelled; the component only calls it on stat columns.
- FindMinValue: requires a numeric column, for the same reason.
- HighestIffMaximal: assumes every value of the column is a safe integer. This matches JavaScript numbers holding integers exactly; below MIN_SAFE_INTEGER the seed would win.
- LowestIffMinimalNotMaximal: assumes safe-integer values, for the same reason.
- Floating point: ids, levels and stats are integers, and `Math.ceil(n / 10)` is computed exactly.
- React scheduling, re-render timing and the functional-update form of `setCurrentPage`: the handlers are sequential state transitions.
- The handlers for the arrows and numbered buttons require their button's enabled condition, since a disabled button does not fire its handler.
- The per-row `map` over the window is not modelled as a loop. Each visible stat cell's class is given by `CellClassName`, and `VisibleRowHighlight` covers every visible row.
