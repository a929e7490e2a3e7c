/** Monster records and the column value accessor of the monster table. */
module MonsterData {

  /** The six numeric stats held under a record's `max_stats`. */
  datatype Stats = Stats(hp: int, mp: int, atk: int, def: int, agi: int, wis: int)

  /** One row of the bundled dataset; it is never changed after load. */
  datatype Monster = Monster(
    id: int,
    name: string,
    family: string,
    rank: string,
    level: int,
    maxStats: Stats)

  /** Every column the table shows, in header order. */
  datatype Column = Id | Name | Family | Rank | Level | Hp | Mp | Atk | Def | Agi | Wis

  /** A cell value: the dataset holds either strings or integers. */
  datatype Value = Str(text: string) | Num(number: int)

  /** The six stat columns, read from `max_stats`. */
  predicate IsStatColumn(column: Column) {
    column in {Hp, Mp, Atk, Def, Agi, Wis}
  }

  /** Columns whose values are strings. */
  predicate IsTextColumn(column: Column) {
    column in {Name, Family, Rank}
  }

  /** Columns whose values are numbers. */
  predicate IsNumericColumn(column: Column) {
    !IsTextColumn(column)
  }

  /** Headers that carry a click handler: rank and capture level have none. */
  predicate IsClickable(column: Column)
    ensures IsClickable(column) <==> !(column.Rank? || column.Level?)
    ensures IsStatColumn(column) ==> IsClickable(column)
  {
    column in {Id, Name, Family, Hp, Mp, Atk, Def, Agi, Wis}
  }

  /** The stat sub-record lookup `max_stats[column]`. */
  function StatField(stats: Stats, column: Column): (r: int)
    requires IsStatColumn(column)
  {
    match column
    case Hp => stats.hp
    case Mp => stats.mp
    case Atk => stats.atk
    case Def => stats.def
    case Agi => stats.agi
    case Wis => stats.wis
  }

  /** The top-level lookup `item[column]` for the columns that are fields of the record itself. */
  function TopLevelField(m: Monster, column: Column): (v: Value)
    requires !IsStatColumn(column)
  {
    match column
    case Id => Num(m.id)
    case Name => Str(m.name)
    case Family => Str(m.family)
    case Rank => Str(m.rank)
    case Level => Num(m.level)
  }

  /** `getColumnValue`: the six stat columns read `max_stats`, every other column reads
      the record's own field; string columns and numeric columns never mix. */
  function ColumnValue(m: Monster, column: Column): (v: Value)
    ensures v.Str? <==> IsTextColumn(column)
  {
    if IsStatColumn(column) then Num(StatField(m.maxStats, column)) else TopLevelField(m, column)
  }

  /** The integer a numeric column holds for a record. */
  function NumValue(m: Monster, column: Column): (r: int)
    requires IsNumericColumn(column)
  {
    ColumnValue(m, column).number
  }
}
