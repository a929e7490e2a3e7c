/** The extremum scanners and the per-cell highlight rule of the monster table. */
module Extremum {
  import opened MonsterData

  /** `Number.MIN_SAFE_INTEGER` and `Number.MAX_SAFE_INTEGER`, -(2^53 - 1) and 2^53 - 1. */
  const MinSafeInteger: int := -0x1F_FFFF_FFFF_FFFF
  const MaxSafeInteger: int := 0x1F_FFFF_FFFF_FFFF

  /** The accumulator `findMaxValue` holds after visiting `s` from left to right:
      seeded with MIN_SAFE_INTEGER, replaced by any value strictly greater. */
  function DatasetMax(s: seq<Monster>, column: Column): (r: int)
    requires IsNumericColumn(column)
  {
    if |s| == 0 then MinSafeInteger
    else
      var acc := DatasetMax(s[..|s| - 1], column);
      var v := NumValue(s[|s| - 1], column);
      if v > acc then v else acc
  }

  /** The accumulator `findMinValue` holds after visiting `s`: seeded with
      MAX_SAFE_INTEGER, replaced by any value strictly smaller. */
  function DatasetMin(s: seq<Monster>, column: Column): (r: int)
    requires IsNumericColumn(column)
  {
    if |s| == 0 then MaxSafeInteger
    else
      var acc := DatasetMin(s[..|s| - 1], column);
      var v := NumValue(s[|s| - 1], column);
      if v < acc then v else acc
  }

  /** Every record's value lies in the safe-integer range. */
  ghost predicate InSafeRange(s: seq<Monster>, column: Column)
    requires IsNumericColumn(column)
  {
    forall i :: 0 <= i < |s| ==> MinSafeInteger <= NumValue(s[i], column) <= MaxSafeInteger
  }

  /** The scanned maximum bounds every value and the seed, and is the seed or some record's value. */
  lemma {:induction false} DatasetMaxIsMaximum(s: seq<Monster>, column: Column)
    requires IsNumericColumn(column)
    ensures DatasetMax(s, column) >= MinSafeInteger
    ensures forall i :: 0 <= i < |s| ==> NumValue(s[i], column) <= DatasetMax(s, column)
    ensures DatasetMax(s, column) == MinSafeInteger
         || exists i :: 0 <= i < |s| && NumValue(s[i], column) == DatasetMax(s, column)
    ensures |s| == 0 ==> DatasetMax(s, column) == MinSafeInteger
    ensures |s| > 0 && (forall i :: 0 <= i < |s| ==> NumValue(s[i], column) >= MinSafeInteger) ==>
      exists i :: 0 <= i < |s| && NumValue(s[i], column) == DatasetMax(s, column)
  {
    if |s| > 0 {
      var init := s[..|s| - 1];
      DatasetMaxIsMaximum(init, column);
      assert forall i :: 0 <= i < |init| ==> init[i] == s[i];
      if DatasetMax(s, column) == MinSafeInteger {
        assert NumValue(s[0], column) <= MinSafeInteger;
      }
    }
  }

  /** The scanned minimum is bounded by every value and the seed, and is the seed or some record's value. */
  lemma {:induction false} DatasetMinIsMinimum(s: seq<Monster>, column: Column)
    requires IsNumericColumn(column)
    ensures DatasetMin(s, column) <= MaxSafeInteger
    ensures forall i :: 0 <= i < |s| ==> NumValue(s[i], column) >= DatasetMin(s, column)
    ensures DatasetMin(s, column) == MaxSafeInteger
         || exists i :: 0 <= i < |s| && NumValue(s[i], column) == DatasetMin(s, column)
    ensures |s| == 0 ==> DatasetMin(s, column) == MaxSafeInteger
    ensures |s| > 0 && (forall i :: 0 <= i < |s| ==> NumValue(s[i], column) <= MaxSafeInteger) ==>
      exists i :: 0 <= i < |s| && NumValue(s[i], column) == DatasetMin(s, column)
  {
    if |s| > 0 {
      var init := s[..|s| - 1];
      DatasetMinIsMinimum(init, column);
      assert forall i :: 0 <= i < |init| ==> init[i] == s[i];
      if DatasetMin(s, column) == MaxSafeInteger {
        assert NumValue(s[0], column) >= MaxSafeInteger;
      }
    }
  }

  /** The maximum depends only on which records are present, not on their order. */
  lemma DatasetMaxIgnoresOrder(s: seq<Monster>, t: seq<Monster>, column: Column)
    requires IsNumericColumn(column)
    requires multiset(s) == multiset(t)
    ensures DatasetMax(s, column) == DatasetMax(t, column)
  {
    DatasetMaxIsMaximum(s, column);
    DatasetMaxIsMaximum(t, column);
    MaxBelow(s, t, column);
    MaxBelow(t, s, column);
  }

  lemma MaxBelow(s: seq<Monster>, t: seq<Monster>, column: Column)
    requires IsNumericColumn(column)
    requires multiset(s) == multiset(t)
    ensures DatasetMax(s, column) <= DatasetMax(t, column)
  {
    DatasetMaxIsMaximum(s, column);
    DatasetMaxIsMaximum(t, column);
    if DatasetMax(s, column) != MinSafeInteger {
      var i :| 0 <= i < |s| && NumValue(s[i], column) == DatasetMax(s, column);
      assert s[i] in multiset(t);
      var j :| 0 <= j < |t| && t[j] == s[i];
    }
  }

  /** The minimum depends only on which records are present, not on their order. */
  lemma DatasetMinIgnoresOrder(s: seq<Monster>, t: seq<Monster>, column: Column)
    requires IsNumericColumn(column)
    requires multiset(s) == multiset(t)
    ensures DatasetMin(s, column) == DatasetMin(t, column)
  {
    MinAbove(s, t, column);
    MinAbove(t, s, column);
  }

  lemma MinAbove(s: seq<Monster>, t: seq<Monster>, column: Column)
    requires IsNumericColumn(column)
    requires multiset(s) == multiset(t)
    ensures DatasetMin(s, column) >= DatasetMin(t, column)
  {
    DatasetMinIsMinimum(s, column);
    DatasetMinIsMinimum(t, column);
    if DatasetMin(s, column) != MaxSafeInteger {
      var i :| 0 <= i < |s| && NumValue(s[i], column) == DatasetMin(s, column);
      assert s[i] in multiset(t);
      var j :| 0 <= j < |t| && t[j] == s[i];
    }
  }

  /** `findMaxValue`: one pass over the dataset with an accumulator. */
  method FindMaxValue(monsters: array<Monster>, column: Column) returns (maxValue: int)
    requires IsNumericColumn(column)
    ensures maxValue == DatasetMax(monsters[..], column)
    ensures forall i :: 0 <= i < monsters.Length ==> NumValue(monsters[i], column) <= maxValue
  {
    maxValue := MinSafeInteger;
    for i := 0 to monsters.Length
      invariant maxValue == DatasetMax(monsters[..i], column)
    {
      var columnValue := NumValue(monsters[i], column);
      assert monsters[..i + 1][..i] == monsters[..i];
      if columnValue > maxValue {
        maxValue := columnValue;
      }
    }
    assert monsters[..monsters.Length] == monsters[..];
    DatasetMaxIsMaximum(monsters[..], column);
  }

  /** `findMinValue`: one pass over the dataset with an accumulator. */
  method FindMinValue(monsters: array<Monster>, column: Column) returns (minValue: int)
    requires IsNumericColumn(column)
    ensures minValue == DatasetMin(monsters[..], column)
    ensures forall i :: 0 <= i < monsters.Length ==> NumValue(monsters[i], column) >= minValue
  {
    minValue := MaxSafeInteger;
    for i := 0 to monsters.Length
      invariant minValue == DatasetMin(monsters[..i], column)
    {
      var columnValue := NumValue(monsters[i], column);
      assert monsters[..i + 1][..i] == monsters[..i];
      if columnValue < minValue {
        minValue := columnValue;
      }
    }
    assert monsters[..monsters.Length] == monsters[..];
    DatasetMinIsMinimum(monsters[..], column);
  }

  /** The class a stat cell receives. */
  datatype Highlight = HighestValue | LowestValue | NoHighlight

  /** The highlight rule: "highest" when the cell equals the dataset maximum, otherwise
      "lowest" when it equals the dataset minimum, otherwise unstyled. */
  function CellClass(monsters: seq<Monster>, m: Monster, column: Column): (h: Highlight)
    requires IsStatColumn(column)
    ensures h == HighestValue <==> NumValue(m, column) == DatasetMax(monsters, column)
    ensures h == LowestValue <==>
      NumValue(m, column) != DatasetMax(monsters, column) && NumValue(m, column) == DatasetMin(monsters, column)
  {
    var v := NumValue(m, column);
    if v == DatasetMax(monsters, column) then HighestValue
    else if v == DatasetMin(monsters, column) then LowestValue
    else NoHighlight
  }

  /** The `className` expression of a stat cell, calling the scanners on the full dataset
      (the minimum only when the cell is not the maximum). */
  method CellClassName(monsters: array<Monster>, m: Monster, column: Column) returns (h: Highlight)
    requires IsStatColumn(column)
    ensures h == CellClass(monsters[..], m, column)
  {
    var maxValue := FindMaxValue(monsters, column);
    if NumValue(m, column) == maxValue {
      return HighestValue;
    }
    var minValue := FindMinValue(monsters, column);
    if NumValue(m, column) == minValue {
      return LowestValue;
    }
    return NoHighlight;
  }

  /** A record's cell is "highest" exactly when no record of the dataset has a larger value,
      so every tied record is highlighted. */
  lemma HighestIffMaximal(monsters: seq<Monster>, m: Monster, column: Column)
    requires IsStatColumn(column)
    requires m in monsters
    requires InSafeRange(monsters, column)
    ensures CellClass(monsters, m, column) == HighestValue <==>
      forall x :: x in monsters ==> NumValue(x, column) <= NumValue(m, column)
  {
    DatasetMaxIsMaximum(monsters, column);
    var v := NumValue(m, column);
    var i :| 0 <= i < |monsters| && monsters[i] == m;
    if forall x :: x in monsters ==> NumValue(x, column) <= v {
      var j :| 0 <= j < |monsters| && NumValue(monsters[j], column) == DatasetMax(monsters, column);
      assert monsters[j] in monsters;
    } else {
      var x :| x in monsters && NumValue(x, column) > v;
      var k :| 0 <= k < |monsters| && monsters[k] == x;
    }
  }

  /** A record's cell is "lowest" exactly when some record has a larger value and
      no record has a smaller one. */
  lemma LowestIffMinimalNotMaximal(monsters: seq<Monster>, m: Monster, column: Column)
    requires IsStatColumn(column)
    requires m in monsters
    requires InSafeRange(monsters, column)
    ensures CellClass(monsters, m, column) == LowestValue <==>
      (exists x :: x in monsters && NumValue(x, column) > NumValue(m, column)) &&
      (forall x :: x in monsters ==> NumValue(m, column) <= NumValue(x, column))
  {
    HighestIffMaximal(monsters, m, column);
    DatasetMinIsMinimum(monsters, column);
    var v := NumValue(m, column);
    var i :| 0 <= i < |monsters| && monsters[i] == m;
    if forall x :: x in monsters ==> v <= NumValue(x, column) {
      var j :| 0 <= j < |monsters| && NumValue(monsters[j], column) == DatasetMin(monsters, column);
      assert monsters[j] in monsters;
    } else {
      var x :| x in monsters && NumValue(x, column) < v;
      var k :| 0 <= k < |monsters| && monsters[k] == x;
    }
  }

  /** When the whole column holds one value, "highest" wins over "lowest". */
  lemma HighestWinsWhenMaxEqualsMin(monsters: seq<Monster>, m: Monster, column: Column)
    requires IsStatColumn(column)
    requires m in monsters
    requires DatasetMax(monsters, column) == DatasetMin(monsters, column)
    ensures CellClass(monsters, m, column) == HighestValue
  {
    DatasetMaxIsMaximum(monsters, column);
    DatasetMinIsMinimum(monsters, column);
    var i :| 0 <= i < |monsters| && monsters[i] == m;
  }

  /** The highlight is the same whatever order the records are in, so it does not
      depend on the sort spec (a sorted view is a permutation of the dataset). */
  lemma CellClassIgnoresOrder(s: seq<Monster>, t: seq<Monster>, m: Monster, column: Column)
    requires IsStatColumn(column)
    requires multiset(s) == multiset(t)
    ensures CellClass(s, m, column) == CellClass(t, m, column)
  {
    DatasetMaxIgnoresOrder(s, t, column);
    DatasetMinIgnoresOrder(s, t, column);
  }
}
