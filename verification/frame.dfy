/** The downloaded statistics table: one row per (year, county) with the
    per-sex indicator columns, and the year filter applied to it. */
module Frame {

  /** One row of the table: its "Aasta" and "Maakond" cells and the values
      of the indicator columns, keyed by column name. */
  datatype Row = Row(year: int, county: string, values: map<string, int>)

  /** The table's indicator column names and its rows, in file order. */
  datatype Table = Table(columns: set<string>, rows: seq<Row>)

  /** Every row has a value in every column of the table. */
  predicate WellFormed(t: Table) {
    forall i :: 0 <= i < |t.rows| ==> t.columns <= t.rows[i].values.Keys
  }

  /** No county occurs twice within one year: the shape of the statistics
      service's answer, one row per year and county. */
  predicate UniqueCountyPerYear(rows: seq<Row>) {
    forall i, j :: 0 <= i < j < |rows| && rows[i].year == rows[j].year ==> rows[i].county != rows[j].county
  }

  /** `df[df["Aasta"] == year]`: the rows of the given year, in table order. */
  function FilterYear(rows: seq<Row>, year: int): (r: seq<Row>)
    ensures |r| <= |rows|
    ensures forall i :: 0 <= i < |r| ==> r[i].year == year
  {
    if rows == [] then []
    else if rows[0].year == year then [rows[0]] + FilterYear(rows[1..], year)
    else FilterYear(rows[1..], year)
  }

  /** The positions, in ascending order, of the rows of the given year. */
  function YearIndices(rows: seq<Row>, year: int): (idx: seq<nat>)
    ensures forall k :: 0 <= k < |idx| ==> idx[k] < |rows| && rows[idx[k]].year == year
    ensures forall k, l :: 0 <= k < l < |idx| ==> idx[k] < idx[l]
    ensures forall i :: 0 <= i < |rows| && rows[i].year == year ==> i in idx
  {
    if rows == [] then []
    else
      var n := |rows| - 1;
      YearIndices(rows[..n], year) + (if rows[n].year == year then [n] else [])
  }

  /** Filtering distributes over concatenation. */
  lemma {:induction false} FilterYearAppend(a: seq<Row>, b: seq<Row>, year: int)
    ensures FilterYear(a + b, year) == FilterYear(a, year) + FilterYear(b, year)
  {
    if a != [] {
      assert (a + b)[1..] == a[1..] + b;
      FilterYearAppend(a[1..], b, year);
    } else {
      assert a + b == b;
    }
  }

  /** The year filter keeps exactly the rows at the year's positions, in
      their original order: nothing is dropped, duplicated or reordered. */
  lemma {:induction false} FilterYearByIndices(rows: seq<Row>, year: int)
    ensures |FilterYear(rows, year)| == |YearIndices(rows, year)|
    ensures forall k :: 0 <= k < |YearIndices(rows, year)| ==>
      FilterYear(rows, year)[k] == rows[YearIndices(rows, year)[k]]
  {
    if rows != [] {
      var n := |rows| - 1;
      var prefix := rows[..n];
      var last := if rows[n].year == year then [rows[n]] else [];
      assert rows == prefix + [rows[n]];
      FilterYearAppend(prefix, [rows[n]], year);
      FilterYearByIndices(prefix, year);
      var fp, ip := FilterYear(prefix, year), YearIndices(prefix, year);
      assert FilterYear([rows[n]], year) == last;
      var fr := FilterYear(rows, year);
      assert fr == fp + last;
      var idx := YearIndices(rows, year);
      assert idx == ip + (if rows[n].year == year then [n] else []);
      forall k | 0 <= k < |idx|
        ensures fr[k] == rows[idx[k]]
      {
        if k < |ip| {
          assert idx[k] == ip[k] && ip[k] < n;
          assert fr[k] == fp[k] == prefix[ip[k]] == rows[ip[k]];
        } else {
          assert idx[k] == n && fr[k] == rows[n];
        }
      }
    }
  }

  /** Filtering twice by the same year changes nothing. */
  lemma {:induction false} FilterYearIdempotent(rows: seq<Row>, year: int)
    ensures FilterYear(FilterYear(rows, year), year) == FilterYear(rows, year)
  {
    if rows != [] {
      FilterYearIdempotent(rows[1..], year);
    }
  }

  /** A year that no row has selects no positions and no rows. */
  lemma {:induction false} YearAbsent(rows: seq<Row>, year: int)
    requires forall i :: 0 <= i < |rows| ==> rows[i].year != year
    ensures YearIndices(rows, year) == [] && FilterYear(rows, year) == []
  {
    if rows != [] {
      YearAbsent(rows[..|rows| - 1], year);
      YearAbsent(rows[1..], year);
    }
  }
}
