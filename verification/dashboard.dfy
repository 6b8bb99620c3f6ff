/** One render of the page: stop on an empty download, aggregate the map's
    indicator, merge it onto the county reference, build the table of all
    three indicators, and name the CSV download. */
module Dashboard {
  import opened Wrappers
  import opened Schema
  import opened Frame
  import opened Aggregator
  import opened Join
  import opened Summary
  import opened Export

  /** What one render leaves on the page.  The map is drawn before the
      table's column check runs, so a failure of that check leaves the map
      in place. */
  datatype Page =
    | Stopped(failure: Failure)                               // stopped before the map
    | MapThenStopped(mapData: seq<Joined>, failure: Failure)  // map drawn, then stopped
    | Complete(mapData: seq<Joined>, table: seq<TableRow>, fileName: string)

  /** A render for the sidebar's year, grouping and map indicator, given the
      downloaded table and the names of the reference regions.  Each check
      stops the render at the point the page stops it. */
  function Render(raw: Table, reference: seq<string>, year: int, g: Grouping, ind: Indicator): (r: Page)
    requires WellFormed(raw)
    ensures |raw.rows| == 0 ==> r == Stopped(NoData)
    ensures |raw.rows| > 0 ==>
      (r.Stopped? <==> !(RequiredColumns(g, ind) <= raw.columns))
    ensures |raw.rows| > 0 && r.Stopped? ==>
      r.failure == if g.Single? then ColumnMissing(ColumnName(g.sex, ind)) else SomeColumnMissing
    ensures r.Complete? <==> |raw.rows| > 0 && TableColumns(g) <= raw.columns
    ensures r.MapThenStopped? ==> r.failure.ColumnMissing? == g.Single? && r.failure.PairMissing? == g.Combined?
    ensures r.MapThenStopped? ==> BuildTable(raw, year, g).Err? && r.failure == BuildTable(raw, year, g).error
    ensures !r.Stopped? ==>
      && |r.mapData| >= |reference|
      && Covers(reference, r.mapData)
    ensures r.Complete? ==>
      && |r.table| == |YearIndices(raw.rows, year)|
      && ParseFileName(r.fileName) == Some((g, year))
  {
    if |raw.rows| == 0 then Stopped(NoData)
    else
      match Aggregate(raw, year, g, ind)
      case Err(e) => Stopped(e)
      case Ok(data) =>
        var merged := LeftJoin(reference, data);
        match BuildTable(raw, year, g)
        case Err(e) => MapThenStopped(merged, e)
        case Ok(table) =>
          Complete(merged, table, FileName(g, year))
  }

  /** A single-sex render stopped for a missing map column shows a text
      naming that column. */
  lemma StoppedPageNamesColumn(raw: Table, reference: seq<string>, year: int, s: Sex, ind: Indicator)
    requires WellFormed(raw)
    requires |raw.rows| > 0 && ColumnName(s, ind) !in raw.columns
    ensures var r := Render(raw, reference, year, Single(s), ind);
            var c := ColumnName(s, ind);
            && r == Stopped(ColumnMissing(c))
            && Message(r.failure).Some?
            && Message(r.failure).value[|ColumnLead|..|ColumnLead| + |c|] == c
  {
  }

  /** A map row carries the chosen year's data for its region: a value is
      the one the grouping takes from a row of the year for that county, and
      a missing value means the year has no row for it. */
  predicate FromYear(raw: Table, year: int, g: Grouping, ind: Indicator, j: Joined)
    requires WellFormed(raw)
    requires RequiredColumns(g, ind) <= raw.columns
  {
    var idx := YearIndices(raw.rows, year);
    && (j.value.None? ==> forall k :: 0 <= k < |idx| ==> raw.rows[idx[k]].county != j.region)
    && (j.value.Some? ==>
          exists k :: 0 <= k < |idx| && raw.rows[idx[k]].county == j.region &&
                      RowValue(raw.rows[idx[k]], g, ind) == j.value.value)
  }

  /** Every row of a drawn map carries the chosen year's data for its
      region, whether or not counties repeat within the year. */
  lemma RenderMapValues(raw: Table, reference: seq<string>, year: int, g: Grouping, ind: Indicator)
    requires WellFormed(raw)
    requires |raw.rows| > 0 && RequiredColumns(g, ind) <= raw.columns
    ensures var r := Render(raw, reference, year, g, ind);
            && !r.Stopped?
            && forall m :: 0 <= m < |r.mapData| ==> FromYear(raw, year, g, ind, r.mapData[m])
  {
    var data := Aggregate(raw, year, g, ind).value;
    var map_ := Render(raw, reference, year, g, ind).mapData;
    assert map_ == LeftJoin(reference, data);
    forall m | 0 <= m < |map_|
      ensures FromYear(raw, year, g, ind, map_[m])
    {
      BackedFromYear(raw, year, g, ind, map_[m]);
    }
  }

  /** A merged row backed by the aggregation carries the year's data. */
  lemma BackedFromYear(raw: Table, year: int, g: Grouping, ind: Indicator, j: Joined)
    requires WellFormed(raw)
    requires RequiredColumns(g, ind) <= raw.columns
    requires Backed(j, Aggregate(raw, year, g, ind).value)
    ensures FromYear(raw, year, g, ind, j)
  {
    var data := Aggregate(raw, year, g, ind).value;
    var idx := YearIndices(raw.rows, year);
    if j.value.Some? {
      var k :| 0 <= k < |data| && data[k] == Selected(j.region, j.value.value);
      AggregateRowAt(raw, year, g, ind, k);
      assert raw.rows[idx[k]].county == j.region;
    } else {
      forall k | 0 <= k < |idx| ensures raw.rows[idx[k]].county != j.region {
        AggregateRowAt(raw, year, g, ind, k);
        assert data[k].county == raw.rows[idx[k]].county;
      }
    }
  }

  /** Once the table's columns are present the page is complete, and row k
      of its table is the k-th row of the year: its county and, under each
      indicator's header, the value the grouping takes from it. */
  lemma RenderCompleteTable(raw: Table, reference: seq<string>, year: int, g: Grouping, ind: Indicator)
    requires WellFormed(raw)
    requires |raw.rows| > 0 && TableColumns(g) <= raw.columns
    ensures Render(raw, reference, year, g, ind).Complete?
    ensures RowsOfYear(raw, year, g, Render(raw, reference, year, g, ind).table)
  {
    BuildTableRows(raw, year, g);
    CompleteTableIsBuilt(raw, reference, year, g, ind);
  }

  /** The table on a complete page is the built table. */
  lemma CompleteTableIsBuilt(raw: Table, reference: seq<string>, year: int, g: Grouping, ind: Indicator)
    requires WellFormed(raw)
    requires |raw.rows| > 0 && TableColumns(g) <= raw.columns
    ensures BuildTable(raw, year, g).Ok?
    ensures Render(raw, reference, year, g, ind).Complete?
    ensures Render(raw, reference, year, g, ind).table == BuildTable(raw, year, g).value
  {
    RequiredColumnsOfTable(g, ind);
  }

  /** With one row per county and year in the download, once the map's
      columns are present the map has one row per reference region, in
      reference order, each carrying the region's value in the aggregation,
      or a missing value when it has none. */
  lemma RenderMapOneRowPerRegion(raw: Table, reference: seq<string>, year: int, g: Grouping, ind: Indicator)
    requires WellFormed(raw)
    requires UniqueCountyPerYear(raw.rows)
    requires |raw.rows| > 0 && RequiredColumns(g, ind) <= raw.columns
    ensures Aggregate(raw, year, g, ind).Ok?
    ensures !Render(raw, reference, year, g, ind).Stopped?
    ensures var m := Render(raw, reference, year, g, ind).mapData;
            var data := Aggregate(raw, year, g, ind).value;
            && |m| == |reference|
            && forall i :: 0 <= i < |reference| ==> m[i] == Joined(reference[i], Lookup(reference[i], data))
  {
    var data := Aggregate(raw, year, g, ind).value;
    assert Render(raw, reference, year, g, ind).mapData == LeftJoin(reference, data);
    AggregateDistinctCounties(raw, year, g, ind);
    LeftJoinOneRowPerRegion(reference, data);
  }

  /** The aggregation holds a value for a county exactly when the year has a
      row for it, and then the value is that row's. */
  lemma LookupInYear(raw: Table, year: int, g: Grouping, ind: Indicator, name: string)
    requires WellFormed(raw)
    requires Aggregate(raw, year, g, ind).Ok?
    ensures var v := Lookup(name, Aggregate(raw, year, g, ind).value);
            var idx := YearIndices(raw.rows, year);
            && (v.None? <==> forall k :: 0 <= k < |idx| ==> raw.rows[idx[k]].county != name)
            && (v.Some? ==> exists k :: 0 <= k < |idx| && raw.rows[idx[k]].county == name &&
                                        v.value == RowValue(raw.rows[idx[k]], g, ind))
  {
    var data := Aggregate(raw, year, g, ind).value;
    var idx := YearIndices(raw.rows, year);
    assert |data| == |idx|;
    var v := Lookup(name, data);
    if v.Some? {
      var k :| 0 <= k < |data| && data[k] == Selected(name, v.value);
      AggregateRowAt(raw, year, g, ind, k);
      var row := raw.rows[idx[k]];
      assert row.county == name && v.value == RowValue(row, g, ind);
    } else {
      forall k | 0 <= k < |idx| ensures raw.rows[idx[k]].county != name {
        AggregateRowAt(raw, year, g, ind, k);
        assert data[k].county == raw.rows[idx[k]].county;
      }
    }
  }

  /** The combined births of a county with 1000 boys and 950 girls born. */
  lemma CombinedBirthsExample()
    ensures
      var values := map[ColumnName(Male, Births) := 1000, ColumnName(Female, Births) := 950];
      var raw := Table(values.Keys, [Row(2020, "Harju", values)]);
      && Aggregate(raw, 2020, Combined, Births) == Ok([Selected("Harju", 1950)])
      && Aggregate(raw, 2020, Single(Male), Births) == Ok([Selected("Harju", 1000)])
      && Aggregate(raw, 2019, Combined, Births) == Ok([])
  {
    var m, f := ColumnName(Male, Births), ColumnName(Female, Births);
    ColumnNameInjective(Male, Births, Female, Births);
    var values := map[m := 1000, f := 950];
    assert values[m] == 1000 && values[f] == 950;
    var raw := Table(values.Keys, [Row(2020, "Harju", values)]);
    assert WellFormed(raw);
    assert FilterYear(raw.rows, 2020) == raw.rows;
    assert Aggregate(raw, 2020, Combined, Births) == Ok(SelectRows(raw.rows, Combined, Births));
    assert Aggregate(raw, 2020, Single(Male), Births) == Ok(SelectRows(raw.rows, Single(Male), Births));
    assert RowValue(raw.rows[0], Combined, Births) == 1950;
    assert SelectRows(raw.rows, Combined, Births) == [Selected("Harju", 1950)];
    assert RowValue(raw.rows[0], Single(Male), Births) == 1000;
    assert SelectRows(raw.rows, Single(Male), Births) == [Selected("Harju", 1000)];
    assert FilterYear(raw.rows, 2019) == [];
  }
}
