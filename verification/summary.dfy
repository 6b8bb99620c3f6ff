/** The page's table of all three indicators for the chosen year and
    grouping, with the columns "Maakond", "Elussünnid", "Surmad" and
    "Loomulik iive". */
module Summary {
  import opened Wrappers
  import opened Schema
  import opened Frame
  import opened Aggregator

  /** The table's column headers, in order. */
  const Header: seq<string> := ["Maakond", "Elussünnid", "Surmad", "Loomulik iive"]

  /** One row of the table. */
  datatype TableRow = TableRow(county: string, births: int, deaths: int, naturalChange: int) {
    /** The cell under the indicator's header. */
    function Cell(ind: Indicator): int {
      match ind
      case Births => births
      case Deaths => deaths
      case NaturalChange => naturalChange
    }
  }

  /** The headers after "Maakond" are the indicators' labels, in the order
      of the cells of a row. */
  lemma HeaderLabels()
    ensures |Header| == |Indicators| + 1 && Header[0] == "Maakond"
    ensures forall i :: 0 <= i < |Indicators| ==> Header[i + 1] == Indicators[i].Label()
  {
  }

  /** The position of the first element of `xs` that fails `ok`,
      scanning in order. */
  function FirstFailing<T>(xs: seq<T>, ok: T -> bool): (r: Option<nat>)
    ensures r.None? <==> forall i :: 0 <= i < |xs| ==> ok(xs[i])
    ensures r.Some? ==> r.value < |xs| && !ok(xs[r.value]) && forall j :: 0 <= j < r.value ==> ok(xs[j])
  {
    if xs == [] then None
    else if !ok(xs[0]) then Some(0)
    else
      match FirstFailing(xs[1..], ok)
      case None => None
      case Some(i) => Some(i + 1)
  }

  /** All the columns the table needs for the grouping. */
  function TableColumns(g: Grouping): set<string> {
    RequiredColumns(g, Births) + RequiredColumns(g, Deaths) + RequiredColumns(g, NaturalChange)
  }

  /** The error the table's column check reports for the first indicator
      whose columns are not all present. */
  function TableFailure(g: Grouping, ind: Indicator): Failure {
    match g
    case Single(s) => ColumnMissing(ColumnName(s, ind))
    case Combined => PairMissing(ind)
  }

  /** The table needs every column the map needs. */
  lemma RequiredColumnsOfTable(g: Grouping, ind: Indicator)
    ensures RequiredColumns(g, ind) <= TableColumns(g)
  {
  }

  /** The table for one year and grouping.  The column check scans the
      indicators in header order and reports the first one that fails. */
  function BuildTable(t: Table, year: int, g: Grouping): (r: Result<seq<TableRow>, Failure>)
    requires WellFormed(t)
    ensures r.Ok? <==> TableColumns(g) <= t.columns
    ensures r.Ok? ==> |r.value| == |YearIndices(t.rows, year)|
    ensures r.Err? ==>
      exists i :: 0 <= i < |Indicators| &&
        !(RequiredColumns(g, Indicators[i]) <= t.columns) &&
        (forall j :: 0 <= j < i ==> RequiredColumns(g, Indicators[j]) <= t.columns) &&
        r.error == TableFailure(g, Indicators[i])
  {
    var present := (ind: Indicator) => RequiredColumns(g, ind) <= t.columns;
    match FirstFailing(Indicators, present)
    case Some(i) => Err(TableFailure(g, Indicators[i]))
    case None =>
      assert present(Indicators[0]) && present(Indicators[1]) && present(Indicators[2]);
      FilterYearByIndices(t.rows, year);
      var rows := FilterYear(t.rows, year);
      Ok(seq(|rows|, k requires 0 <= k < |rows| => TableRowOf(rows[k], g)))
  }

  /** One raw row as a row of the table. */
  function TableRowOf(row: Row, g: Grouping): TableRow
    requires TableColumns(g) <= row.values.Keys
  {
    TableRow(row.county, RowValue(row, g, Births), RowValue(row, g, Deaths), RowValue(row, g, NaturalChange))
  }

  /** Row k of `tab` is the k-th row of the year: its county, and under
      each indicator's header the value the grouping takes from it. */
  predicate RowsOfYear(t: Table, year: int, g: Grouping, tab: seq<TableRow>) {
    var idx := YearIndices(t.rows, year);
    && |tab| == |idx|
    && forall k, i :: 0 <= k < |idx| && 0 <= i < |Indicators| ==>
         && RequiredColumns(g, Indicators[i]) <= t.rows[idx[k]].values.Keys
         && tab[k].county == t.rows[idx[k]].county
         && tab[k].Cell(Indicators[i]) == RowValue(t.rows[idx[k]], g, Indicators[i])
  }

  /** A built table holds the rows of the year. */
  lemma BuildTableRows(t: Table, year: int, g: Grouping)
    requires WellFormed(t)
    requires TableColumns(g) <= t.columns
    ensures BuildTable(t, year, g).Ok?
    ensures RowsOfYear(t, year, g, BuildTable(t, year, g).value)
  {
    FilterYearByIndices(t.rows, year);
    var rows := FilterYear(t.rows, year);
    var tab := BuildTable(t, year, g).value;
    var idx := YearIndices(t.rows, year);
    forall k | 0 <= k < |idx|
      ensures TableColumns(g) <= t.rows[idx[k]].values.Keys
      ensures tab[k] == TableRowOf(t.rows[idx[k]], g)
    {
      assert rows[k] == t.rows[idx[k]];
    }
    forall k, i | 0 <= k < |idx| && 0 <= i < |Indicators|
      ensures RequiredColumns(g, Indicators[i]) <= t.rows[idx[k]].values.Keys
      ensures tab[k].county == t.rows[idx[k]].county
      ensures tab[k].Cell(Indicators[i]) == RowValue(t.rows[idx[k]], g, Indicators[i])
    {
      TableRowOfCells(t.rows[idx[k]], g, i);
    }
  }

  /** The cells of a raw row in the table. */
  lemma TableRowOfCells(row: Row, g: Grouping, i: nat)
    requires TableColumns(g) <= row.values.Keys
    requires i < |Indicators|
    ensures RequiredColumns(g, Indicators[i]) <= row.values.Keys
    ensures TableRowOf(row, g).county == row.county
    ensures TableRowOf(row, g).Cell(Indicators[i]) == RowValue(row, g, Indicators[i])
  {
  }


  /** The table and the map agree: whenever the table is built, the map's
      aggregation of any indicator succeeds, and row k of the table carries
      the same county and, under that indicator's header, the same value. */
  lemma TableAgreesWithAggregate(t: Table, year: int, g: Grouping, ind: Indicator)
    requires WellFormed(t)
    requires BuildTable(t, year, g).Ok?
    ensures var tab := BuildTable(t, year, g).value;
            var agg := Aggregate(t, year, g, ind);
            && agg.Ok?
            && |agg.value| == |tab|
            && forall k :: 0 <= k < |tab| ==>
                 tab[k].county == agg.value[k].county && tab[k].Cell(ind) == agg.value[k].value
  {
  }

  /** The map's column check never stops a render the table's check would
      let through: a missing map column is also a missing table column. */
  lemma AggregateFailureStopsTable(t: Table, year: int, g: Grouping, ind: Indicator)
    requires WellFormed(t)
    requires Aggregate(t, year, g, ind).Err?
    ensures BuildTable(t, year, g).Err?
  {
  }
}
