/** The sort spec state machine and the sort resolver of the monster table. */
module SortResolver {
  import opened MonsterData

  datatype Order = Asc | Desc

  /** The `sortColumn` state: unset (original order) or a column with an order. */
  datatype SortSpec = Unset | Spec(column: Column, order: Order)

  /** The spec after a click on a header: the active column flips its order,
      any other column (or a click with no spec set) starts ascending. */
  function ToggleSort(spec: SortSpec, column: Column): (r: SortSpec)
    ensures r.Spec? && r.column == column
    ensures spec.Spec? && spec.column == column ==> r.order != spec.order
    ensures !(spec.Spec? && spec.column == column) ==> r.order == Asc
  {
    if spec.Spec? && spec.column == column then
      Spec(column, if spec.order == Asc then Desc else Asc)
    else
      Spec(column, Asc)
  }

  /** Two clicks on the active column restore the spec. */
  lemma ToggleTwiceRestores(spec: SortSpec)
    requires spec.Spec?
    ensures ToggleSort(ToggleSort(spec, spec.column), spec.column) == spec
  {
  }

  /** `localeCompare` is a host call: the model takes it as a parameter and asks only
      that `collate(s, t) <= 0` be a total preorder on strings. */
  ghost predicate IsCollation(collate: (string, string) -> int) {
    && (forall s, t :: collate(s, t) <= 0 || collate(t, s) <= 0)
    && (forall s, t, u :: collate(s, t) <= 0 && collate(t, u) <= 0 ==> collate(s, u) <= 0)
  }

  /** The comparator handed to the host sort: string order when both values are
      strings, numeric difference otherwise; descending swaps the arguments. */
  function Compare(collate: (string, string) -> int, order: Order, a: Value, b: Value): (r: int)
    requires a.Str? == b.Str?
    ensures a.Num? && order == Asc ==> (r <= 0 <==> a.number <= b.number)
    ensures a.Num? && order == Desc ==> (r <= 0 <==> b.number <= a.number)
  {
    if a.Str? && b.Str? then
      (if order == Asc then collate(a.text, b.text) else collate(b.text, a.text))
    else
      (if order == Asc then a.number - b.number else b.number - a.number)
  }

  /** The descending comparator is the ascending one with its arguments swapped. */
  lemma DescendingSwapsArguments(collate: (string, string) -> int, a: Value, b: Value)
    requires a.Str? == b.Str?
    ensures Compare(collate, Desc, a, b) == Compare(collate, Asc, b, a)
  {
  }

  /** `x` may precede `y` in the sorted result: the comparator does not ask to swap them. */
  predicate Before(collate: (string, string) -> int, column: Column, order: Order, x: Monster, y: Monster) {
    Compare(collate, order, ColumnValue(x, column), ColumnValue(y, column)) <= 0
  }

  /** Consecutive records are in comparator order. */
  ghost predicate SortedBy(collate: (string, string) -> int, column: Column, order: Order, s: seq<Monster>) {
    forall i :: 0 <= i < |s| - 1 ==> Before(collate, column, order, s[i], s[i + 1])
  }

  lemma BeforeTotal(collate: (string, string) -> int, column: Column, order: Order, x: Monster, y: Monster)
    requires IsCollation(collate)
    ensures Before(collate, column, order, x, y) || Before(collate, column, order, y, x)
  {
    var a, b := ColumnValue(x, column), ColumnValue(y, column);
    if a.Str? {
      assert collate(a.text, b.text) <= 0 || collate(b.text, a.text) <= 0;
    }
  }

  lemma BeforeTransitive(collate: (string, string) -> int, column: Column, order: Order, x: Monster, y: Monster, z: Monster)
    requires IsCollation(collate)
    requires Before(collate, column, order, x, y) && Before(collate, column, order, y, z)
    ensures Before(collate, column, order, x, z)
  {
    var a, b, c := ColumnValue(x, column), ColumnValue(y, column), ColumnValue(z, column);
    if a.Str? {
      if order == Asc {
        assert collate(a.text, b.text) <= 0 && collate(b.text, c.text) <= 0;
      } else {
        assert collate(c.text, b.text) <= 0 && collate(b.text, a.text) <= 0;
      }
    }
  }

  /** A result sorted pair by pair is sorted between any two positions. */
  lemma {:induction false} SortedAllPairs(collate: (string, string) -> int, column: Column, order: Order, s: seq<Monster>, i: int, j: int)
    requires IsCollation(collate)
    requires SortedBy(collate, column, order, s)
    requires 0 <= i < j < |s|
    ensures Before(collate, column, order, s[i], s[j])
  {
    if j > i + 1 {
      SortedAllPairs(collate, column, order, s, i, j - 1);
      BeforeTransitive(collate, column, order, s[i], s[j - 1], s[j]);
    }
  }

  /** What sortedness means per column kind: ascending numbers never decrease,
      descending numbers never increase, strings follow the collation (reversed when descending). */
  lemma SortedByMeaning(collate: (string, string) -> int, column: Column, order: Order, s: seq<Monster>, i: int)
    requires SortedBy(collate, column, order, s)
    requires 0 <= i < |s| - 1
    ensures IsNumericColumn(column) && order == Asc ==> NumValue(s[i], column) <= NumValue(s[i + 1], column)
    ensures IsNumericColumn(column) && order == Desc ==> NumValue(s[i], column) >= NumValue(s[i + 1], column)
    ensures IsTextColumn(column) && order == Asc ==>
      collate(ColumnValue(s[i], column).text, ColumnValue(s[i + 1], column).text) <= 0
    ensures IsTextColumn(column) && order == Desc ==>
      collate(ColumnValue(s[i + 1], column).text, ColumnValue(s[i], column).text) <= 0
  {
    assert Before(collate, column, order, s[i], s[i + 1]);
  }

  /** Consecutive elements of `a[lo..hi]` are in comparator order. */
  ghost predicate SortedRange(collate: (string, string) -> int, column: Column, order: Order, a: array<Monster>, lo: int, hi: int)
    reads a
    requires 0 <= lo <= hi <= a.Length
  {
    forall k :: lo <= k < hi - 1 ==> Before(collate, column, order, a[k], a[k + 1])
  }

  /** Exchanges `a[j - 1]` and `a[j]`. */
  method SwapDown(a: array<Monster>, j: int)
    requires 0 < j < a.Length
    modifies a
    ensures a[j - 1] == old(a[j]) && a[j] == old(a[j - 1])
    ensures forall k :: 0 <= k < a.Length && k != j - 1 && k != j ==> a[k] == old(a[k])
    ensures multiset(a[..]) == multiset(old(a[..]))
  {
    a[j - 1], a[j] := a[j], a[j - 1];
  }

  /** Moves `a[i]` down into the sorted prefix `a[..i]`. */
  method InsertIntoPrefix(a: array<Monster>, i: int, collate: (string, string) -> int, column: Column, order: Order)
    requires IsCollation(collate)
    requires 0 <= i < a.Length
    requires SortedRange(collate, column, order, a, 0, i)
    modifies a
    ensures SortedRange(collate, column, order, a, 0, i + 1)
    ensures multiset(a[..]) == multiset(old(a[..]))
  {
    var j := i;
    while j > 0 && !Before(collate, column, order, a[j - 1], a[j])
      invariant 0 <= j <= i
      invariant SortedRange(collate, column, order, a, 0, j)
      invariant SortedRange(collate, column, order, a, j, i + 1)
      invariant 0 < j < i ==> Before(collate, column, order, a[j - 1], a[j + 1])
      invariant multiset(a[..]) == multiset(old(a[..]))
    {
      BeforeTotal(collate, column, order, a[j - 1], a[j]);
      SwapDown(a, j);
      j := j - 1;
    }
  }

  /** Stand-in for the host `Array.prototype.sort`: sorts `a` in place by the comparator.
      Only the outcome (a sorted permutation) is part of the model, not this algorithm. */
  method SortInPlace(a: array<Monster>, collate: (string, string) -> int, column: Column, order: Order)
    requires IsCollation(collate)
    modifies a
    ensures SortedBy(collate, column, order, a[..])
    ensures multiset(a[..]) == multiset(old(a[..]))
  {
    for i := 0 to a.Length
      invariant SortedRange(collate, column, order, a, 0, i)
      invariant multiset(a[..]) == multiset(old(a[..]))
    {
      InsertIntoPrefix(a, i, collate, column, order);
    }
  }

  /** `getSortedData`: with no spec the dataset itself, otherwise a sorted copy;
      the dataset array is never written. */
  method GetSortedData(monsters: array<Monster>, sortColumn: SortSpec, collate: (string, string) -> int)
    returns (sortedData: array<Monster>)
    requires IsCollation(collate)
    ensures sortColumn.Unset? ==> sortedData == monsters
    ensures sortColumn.Spec? ==> fresh(sortedData)
    ensures sortColumn.Spec? ==> SortedBy(collate, sortColumn.column, sortColumn.order, sortedData[..])
    ensures multiset(sortedData[..]) == multiset(monsters[..])
  {
    if sortColumn.Unset? {
      return monsters;
    }
    sortedData := new Monster[monsters.Length](k reads monsters requires 0 <= k < monsters.Length => monsters[k]);
    assert sortedData[..] == monsters[..];
    SortInPlace(sortedData, collate, sortColumn.column, sortColumn.order);
  }
}
