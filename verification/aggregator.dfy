/** The map's indicator aggregation: the rows of the chosen year, reduced
    to the county and one value ("Valitud") taken from the column of the
    chosen sex, or summed over both sexes for "Kokku". */
module Aggregator {
  import opened Wrappers
  import opened Schema
  import opened Frame

  /** Why a render stops. */
  datatype Failure =
    | NoData                          // the downloaded table is empty
    | ColumnMissing(column: string)   // a single-sex column is absent
    | SomeColumnMissing               // "Kokku" on the map: one of the pair is absent
    | PairMissing(indicator: Indicator)  // "Kokku" in the table: one of the pair is absent

  /** The fixed parts of the error texts around the named column or
      indicator. */
  const ColumnLead: string := "Veerg '"
  const ColumnTail: string := "' puudub andmetes."
  const PairLead: string := "Puuduvad vajalikud veerud: Mehed "

  /** The error text the page shows before it stops; an empty download
      stops the page without one.  A missing single-sex column is named in
      the text, and so is the indicator of a missing pair. */
  function Message(f: Failure): (m: Option<string>)
    ensures m.None? <==> f == NoData
    ensures f.ColumnMissing? ==>
      && |m.value| == |ColumnLead| + |f.column| + |ColumnTail|
      && m.value[..|ColumnLead|] == ColumnLead
      && m.value[|ColumnLead|..|ColumnLead| + |f.column|] == f.column
    ensures f.PairMissing? ==>
      && |m.value| > |PairLead| + |f.indicator.Label()|
      && m.value[..|PairLead|] == PairLead
      && m.value[|PairLead|..|PairLead| + |f.indicator.Label()|] == f.indicator.Label()
  {
    match f
    case NoData => None
    case ColumnMissing(c) => Some(ColumnLead + c + ColumnTail)
    case SomeColumnMissing => Some("Üks vajalikest veergudest puudub.")
    case PairMissing(ind) =>
      Some(PairLead + ind.Label() + " või Naised " + ind.Label() + ".")
  }

  /** The first letter of a failure's text. */
  function MessageLetter(f: Failure): char {
    match f
    case NoData => ' '
    case ColumnMissing(_) => 'V'
    case SomeColumnMissing => 'Ü'
    case PairMissing(_) => 'P'
  }

  /** Every text starts with its failure's letter. */
  lemma MessageInitial(f: Failure)
    requires f != NoData
    ensures Message(f).value[0] == MessageLetter(f)
  {
  }

  /** Different failures show different texts, so the text tells which
      column or indicator stopped the page. */
  lemma MessageInjective(f: Failure, h: Failure)
    requires Message(f) == Message(h)
    ensures f == h
  {
    if f != NoData && h != NoData {
      MessageInitial(f);
      MessageInitial(h);
      var m := Message(f).value;
      if f.ColumnMissing? && h.ColumnMissing? {
        assert f.column == m[|ColumnLead|..|ColumnLead| + |f.column|];
      } else if f.PairMissing? && h.PairMissing? {
        assert m[|PairLead|] == f.indicator.Label()[0] == h.indicator.Label()[0];
      }
    }
  }

  /** One row of the map's data: "Maakond" and "Valitud". */
  datatype Selected = Selected(county: string, value: int)

  /** The columns the grouping needs for one indicator. */
  function RequiredColumns(g: Grouping, ind: Indicator): set<string> {
    match g
    case Single(s) => {ColumnName(s, ind)}
    case Combined => {ColumnName(Male, ind), ColumnName(Female, ind)}
  }

  /** The value a row contributes for the grouping and indicator. */
  function RowValue(row: Row, g: Grouping, ind: Indicator): int
    requires RequiredColumns(g, ind) <= row.values.Keys
  {
    match g
    case Single(s) => row.values[ColumnName(s, ind)]
    case Combined => row.values[ColumnName(Male, ind)] + row.values[ColumnName(Female, ind)]
  }

  /** Projects each row onto its county and its value. */
  function SelectRows(rows: seq<Row>, g: Grouping, ind: Indicator): (r: seq<Selected>)
    requires forall i :: 0 <= i < |rows| ==> RequiredColumns(g, ind) <= rows[i].values.Keys
    ensures |r| == |rows|
    ensures forall i :: 0 <= i < |rows| ==> r[i].county == rows[i].county
  {
    seq(|rows|, i requires 0 <= i < |rows| => Selected(rows[i].county, RowValue(rows[i], g, ind)))
  }

  /** The map's data for one year, grouping and indicator.  The column check
      looks at the table's columns, so it fails the same way whether or not
      the year has rows. */
  function Aggregate(t: Table, year: int, g: Grouping, ind: Indicator): (r: Result<seq<Selected>, Failure>)
    requires WellFormed(t)
    ensures r.Ok? <==> RequiredColumns(g, ind) <= t.columns
    ensures r.Err? && g.Single? ==> r.error == ColumnMissing(ColumnName(g.sex, ind))
    ensures r.Err? && g.Combined? ==> r.error == SomeColumnMissing
    ensures r.Ok? ==> |r.value| == |YearIndices(t.rows, year)|
  {
    if !(RequiredColumns(g, ind) <= t.columns) then
      match g
      case Single(s) => Err(ColumnMissing(ColumnName(s, ind)))
      case Combined => Err(SomeColumnMissing)
    else
      FilterYearByIndices(t.rows, year);
      Ok(SelectRows(FilterYear(t.rows, year), g, ind))
  }

  /** Row k of a successful result is the k-th row of the year, reduced to
      its county and the value the grouping takes from it. */
  lemma AggregateRows(t: Table, year: int, g: Grouping, ind: Indicator)
    requires WellFormed(t)
    requires Aggregate(t, year, g, ind).Ok?
    ensures var r := Aggregate(t, year, g, ind).value;
            var idx := YearIndices(t.rows, year);
            && |r| == |idx|
            && forall k :: 0 <= k < |idx| ==>
                 && RequiredColumns(g, ind) <= t.rows[idx[k]].values.Keys
                 && r[k] == Selected(t.rows[idx[k]].county, RowValue(t.rows[idx[k]], g, ind))
  {
    FilterYearByIndices(t.rows, year);
  }

  /** Row k of a successful result, on its own. */
  lemma AggregateRowAt(t: Table, year: int, g: Grouping, ind: Indicator, k: nat)
    requires WellFormed(t)
    requires Aggregate(t, year, g, ind).Ok?
    requires k < |YearIndices(t.rows, year)|
    ensures var row := t.rows[YearIndices(t.rows, year)[k]];
            && k < |Aggregate(t, year, g, ind).value|
            && RequiredColumns(g, ind) <= row.values.Keys
            && Aggregate(t, year, g, ind).value[k] == Selected(row.county, RowValue(row, g, ind))
  {
    AggregateRows(t, year, g, ind);
  }

  /** For one sex, row k of the result is the k-th row of the year with its
      county and the unchanged value of the "<sex> <indicator>" column. */
  lemma AggregateSingleCopies(t: Table, year: int, s: Sex, ind: Indicator)
    requires WellFormed(t)
    requires ColumnName(s, ind) in t.columns
    ensures var r := Aggregate(t, year, Single(s), ind);
            var idx := YearIndices(t.rows, year);
            r.Ok? && |r.value| == |idx| &&
            forall k :: 0 <= k < |idx| ==>
              r.value[k] == Selected(t.rows[idx[k]].county, t.rows[idx[k]].values[ColumnName(s, ind)])
  {
    FilterYearByIndices(t.rows, year);
  }

  /** For "Kokku", row k of the result is the k-th row of the year with the
      sum of its "Mehed <indicator>" and "Naised <indicator>" values. */
  lemma AggregateCombinedSums(t: Table, year: int, ind: Indicator)
    requires WellFormed(t)
    requires ColumnName(Male, ind) in t.columns && ColumnName(Female, ind) in t.columns
    ensures var r := Aggregate(t, year, Combined, ind);
            var idx := YearIndices(t.rows, year);
            r.Ok? && |r.value| == |idx| &&
            forall k :: 0 <= k < |idx| ==>
              var row := t.rows[idx[k]];
              r.value[k] == Selected(row.county, row.values[ColumnName(Male, ind)] + row.values[ColumnName(Female, ind)])
  {
    FilterYearByIndices(t.rows, year);
  }

  /** "Kokku" is the row-by-row sum of the "Mehed" and "Naised" results, and
      it succeeds exactly when both of them do. */
  lemma CombinedIsSumOfSingles(t: Table, year: int, ind: Indicator)
    requires WellFormed(t)
    ensures var c := Aggregate(t, year, Combined, ind);
            var m := Aggregate(t, year, Single(Male), ind);
            var f := Aggregate(t, year, Single(Female), ind);
            (c.Ok? <==> m.Ok? && f.Ok?) &&
            (c.Ok? ==>
              && |c.value| == |m.value| == |f.value|
              && forall k :: 0 <= k < |c.value| ==>
                   && c.value[k].county == m.value[k].county == f.value[k].county
                   && c.value[k].value == m.value[k].value + f.value[k].value)
  {
  }

  /** A year without rows, with the needed columns present, gives an empty
      result and not an error. */
  lemma AggregateEmptyYear(t: Table, year: int, g: Grouping, ind: Indicator)
    requires WellFormed(t)
    requires RequiredColumns(g, ind) <= t.columns
    requires forall i :: 0 <= i < |t.rows| ==> t.rows[i].year != year
    ensures Aggregate(t, year, g, ind) == Ok([])
  {
    YearAbsent(t.rows, year);
  }

  /** When the table has one row per county and year, the result has one row
      per county of the year: its counties are pairwise distinct. */
  lemma AggregateDistinctCounties(t: Table, year: int, g: Grouping, ind: Indicator)
    requires WellFormed(t)
    requires UniqueCountyPerYear(t.rows)
    requires Aggregate(t, year, g, ind).Ok?
    ensures var r := Aggregate(t, year, g, ind).value;
            forall k, l :: 0 <= k < l < |r| ==> r[k].county != r[l].county
  {
    FilterYearByIndices(t.rows, year);
  }
}
