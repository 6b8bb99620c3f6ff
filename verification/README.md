# Loomulik iive: a verified model of the indicator aggregator

The dashboard shows Estonian county vital statistics: live births
("Elussünnid"), deaths ("Surmad") and natural change ("Loomulik iive").
For a chosen year and sex grouping ("Mehed", "Naised" or "Kokku") it draws
a county map and a table, and it offers the table as a CSV download. Apart
from UI glue, its logic is one pure transformation in `app.py`. This
project models that transformation in Dafny and proves properties of it:

- the fixed statistics query (`AASTAD`, `MAAKOND_KOODID`, `build_payload`);
- the year filter `df[df["Aasta"] == valitud_aasta]`;
- the map's selection of one column `"<sex> <indicator>"`, or of the sum of
  the `Mehed …` and `Naised …` columns for "Kokku", with the page stopping
  when a column is missing;
- the left merge of the county reference (`MNIMI`) with that data on
  `Maakond`;
- the table of all three indicators, with its own column check;
- the download's file name.

Modules, one per concern:

| file | module | contents |
|---|---|---|
| wrappers.dfy | Wrappers | `Option`, `Result` |
| decimal.dfy | Decimal | `IntToStr` (Python's `str(int)`) and its inverse `ParseInt` |
| schema.dfy | Schema | `Sex`, `Grouping`, `Indicator`, their labels, `ColumnName`, `Lower` |
| query.dfy | Query | the query constants and `BuildPayload` |
| frame.dfy | Frame | `Row`, `Table`, `FilterYear`, `YearIndices` |
| aggregator.dfy | Aggregator | `Failure`, `Selected`, `Aggregate` (app.py:59-76) |
| join.dfy | Join | `LeftJoin`, `Lookup` (app.py:79) |
| summary.dfy | Summary | `TableRow`, `BuildTable` (app.py:90-108) |
| export.dfy | Export | `FileName`, `ParseFileName` (app.py:119) |
| dashboard.dfy | Dashboard | `Page`, `Render`: one page render from the empty check to the file name |

How the source's terms become Dafny terms:

- A table is `Table(columns, rows)`. Each `Row` has its "Aasta" and
  "Maakond" cells as fields and a map from indicator column names to
  integers. `WellFormed` says every row has a value in every column; this is
  what a data frame is, so the operations require it.
- `st.error(...)` followed by `st.stop()` becomes an `Err(Failure)` result.
  A render's outcome is a `Page`. It is `Stopped` before the map is drawn,
  `MapThenStopped` when only the table's check fails (the source draws the
  map at lines 81-87, before that check), or `Complete`.
  The failures are `NoData` (line 49-50), `ColumnMissing(column)` (lines
  63-65 and 95-97), `SomeColumnMissing` (lines 71-73) and
  `PairMissing(indicator)` (lines 102-104). `Message` gives the text
  the page shows. The map's "Kokku" message names no column, so
  `SomeColumnMissing` carries none.
- The map data is `seq<Selected>`, a list of (`Maakond`, `Valitud`) pairs.
  A merged row is `Joined(region, Option<int>)`, where `None` stands for
  the NaN pandas puts in unmatched rows.
- The left merge is modelled as pandas defines it. Reference rows keep
  their order. Each one is repeated once per matching data row, in data
  order, or kept once with a missing value when nothing matches. The
  one-row-per-region property is proved under the condition that counties
  are distinct, which holds when the download has one row per year and
  county (`UniqueCountyPerYear`).
- The merge keeps the reference's regions. A data row whose county is not
  in the reference is dropped, and a reference region without data gets a
  missing value. The model follows the code in this direction.
- The three column checks look at the table's columns, not at its rows. So
  a year without rows still fails when a column is missing, and it yields
  an empty result when the columns are there.
- The table's checks scan the indicators in header order and report the
  first failure, as the loops at lines 94-97 and 101-104 do.
- `ParseInt` and `ParseFileName` are not in the source. They are reference
  decodings, used to state that printing years and building file names
  lose no information.

## Model

| member | source | states |
|---|---|---|
| Decimal.IntToStr | app.py:11 | Python's `str` of an integer: a non-empty text that starts with "-" exactly for negative numbers. Its meaning is fixed by the two round-trip lemmas below |
| Decimal.IntToStrRoundTrip | app.py:11 | a year printed with `str` decodes back to the same integer, for every integer |
| Decimal.ParseIntRoundTrip | app.py:11 | every string that decodes is exactly the printed form of its value (no leading zeros, no "-0") |
| Decimal.IntToStrInjective | app.py:119 | two years print to the same text exactly when they are equal |
| Query.YearsLiteral | app.py:11 | `[str(y) for y in range(2014, 2024)]`, as `PrintedYears` computes it, is the list "2014" … "2023" |
| Query.Years | app.py:11 | the year list has ten entries; entry i decodes to 2014 + i, so the list is strictly ascending |
| Query.BuildPayload | app.py:14-22 | the request selects Aasta over the ten years, Maakond over 14 distinct county codes and Sugu over ["2", "3"], in that order, and asks for CSV |
| Schema.ColumnNameInjective | app.py:62 | the six "<sex> <indicator>" column names are pairwise distinct, so a column name fixes both its sex and its indicator |
| Schema.Lower | app.py:119 | lowering keeps the length and maps each character through the ASCII lower-case mapping |
| Frame.FilterYear | app.py:59 | the filter keeps only rows of the chosen year and never adds rows |
| Frame.YearIndices | app.py:59 | the positions of the year's rows are ascending, in range, and include every row of that year |
| Frame.FilterYearByIndices | app.py:59 | the filtered table is exactly the rows at the year's positions, in original order, so its row count is the number of raw rows of that year |
| Frame.FilterYearAppend | app.py:59 | filtering a concatenation is the concatenation of the filtered parts, so relative order is preserved |
| Frame.FilterYearIdempotent | app.py:59 | filtering again by the same year changes nothing |
| Frame.YearAbsent | app.py:59 | a year no row has selects no rows |
| Aggregator.Message | app.py:64-103 | an empty download stops the page without a text, and every other failure shows one. A missing column's text has the column's name right after "Veerg '". A missing pair's text has the indicator's label right after "Puuduvad vajalikud veerud: Mehed " |
| Aggregator.MessageInjective | app.py:64-103 | different failures show different texts, so the text tells which column or indicator stopped the page |
| Aggregator.Aggregate | app.py:59-76 | aggregation succeeds exactly when the grouping's columns are present. A single sex that fails names its missing "<sex> <indicator>" column; "Kokku" fails when either column is missing. On success there is one result row per row of the year |
| Aggregator.AggregateRows | app.py:59-76 | result row k is raw row k of the year, reduced to its county and the value the grouping takes from it |
| Aggregator.AggregateSingleCopies | app.py:61-67 | for "Mehed" or "Naised" each result row carries the county and the unchanged value of the "<sex> <indicator>" column |
| Aggregator.AggregateCombinedSums | app.py:68-76 | for "Kokku" each result row carries the county and "Mehed <indicator>" + "Naised <indicator>" of the same raw row |
| Aggregator.CombinedIsSumOfSingles | app.py:61-76 | "Kokku" succeeds exactly when both single-sex aggregations do, and then it is their row-by-row sum with the same counties |
| Aggregator.AggregateEmptyYear | app.py:59-76 | a year without rows, with the columns present, gives an empty result and not an error |
| Aggregator.AggregateDistinctCounties | app.py:59-66 | with one raw row per year and county, the aggregation has pairwise distinct counties |
| Join.Matches | app.py:79 | the data rows matched to a region are data rows with that county, and every such row is among them |
| Join.LeftJoin | app.py:79 | the merge has at least as many rows as the reference. Every reference region appears in it, and it names only reference regions. Each row is backed by the data: a value is that of a data row for the region, and a missing value means no data row names the region |
| Join.Lookup | app.py:79 | a region's value is missing exactly when no data row names it, and otherwise it is the value of a data row that names it |
| Join.LeftJoinOneRowPerRegion | app.py:79 | with distinct counties the merge has exactly one row per reference region, in reference order, with the region's value or a missing value |
| Summary.HeaderLabels | app.py:99-108 | the table's headers are "Maakond" followed by the three indicators' labels, in the order of a row's cells |
| Summary.FirstFailing | app.py:94-97 | the scan reports the first element that fails the check, and reports nothing exactly when all pass |
| Summary.BuildTable | app.py:90-108 | the table is built exactly when all columns the grouping needs for the three indicators are present. Otherwise the error is for the first indicator, in header order, whose columns are not all there (the column for one sex, the indicator for "Kokku"). On success there is one row per row of the year |
| Summary.BuildTableRows | app.py:90-108 | with the columns present, table row k is the k-th raw row of the year: its county, and under each indicator's header the one-sex value or, for "Kokku", the sum of both sexes |
| Summary.TableAgreesWithAggregate | app.py:59-108 | when the table is built, the map's aggregation of any indicator succeeds, and table row k has the same county and, under that indicator's header, the same value as map row k |
| Summary.AggregateFailureStopsTable | app.py:61-104 | a column missing for the map is missing for the table too |
| Export.FileName | app.py:119 | the file name reads back as exactly the grouping and year it was built from |
| Export.ParseFileNameRoundTrip | app.py:119 | every name that reads back is the file name of what it reads as |
| Export.FileNameInjective | app.py:119 | different groupings or years download under different names |
| Export.FileNameExample | app.py:119 | the combined figures for 2020 download as "kokku_loomulik_iive_2020.csv" |
| Dashboard.Render | app.py:49-119 | an empty download stops the page before anything is drawn. Otherwise a missing map column stops it before the map, with the map's error. If the map's columns are present but the table's are not, the map stays drawn and the page stops with the table's error: the first indicator, in header order, whose columns are missing. The page is complete exactly when the table's columns are present. A drawn map has at least as many rows as regions, every reference region appears in it, and it names no other region. A complete page has one table row per row of the year and a file name that reads back as the grouping and year |
| Dashboard.StoppedPageNamesColumn | app.py:61-65 | a single-sex render whose map column is missing stops before the map and shows a text naming that column |
| Dashboard.RenderMapValues | app.py:59-79 | every row of a drawn map carries the chosen year's data for its region: a value is the one the grouping takes from a raw row of that year for the region, and a missing value means the year has no row for it. This holds whether or not counties repeat |
| Dashboard.RenderCompleteTable | app.py:90-112 | with the table's columns present the page is complete, and its table row k is the k-th raw row of the year, with its county and each indicator's value for the grouping |
| Dashboard.RenderMapOneRowPerRegion | app.py:59-79 | with one raw row per year and county and the map's columns present, the map is drawn and has one row per reference region, in reference order, each carrying the region's aggregated value or a missing value |
| Dashboard.LookupInYear | app.py:59-79 | a region has a value exactly when the chosen year has a raw row for it, and the value is the one the grouping takes from that row |
| Dashboard.CombinedBirthsExample | app.py:68-76 | 1000 male and 950 female births in Harju in 2020 aggregate to 1950 for "Kokku" and to 1000 for "Mehed"; 2019 gives an empty result |

## Left out

- The HTTP request, its status check, the decoding of the UTF-8 CSV with a byte-order mark, and the API's error message (app.py:25-35). This is network I/O. `Render` takes the downloaded table as a parameter.
- `st.cache_data` memoisation (app.py:24, 37). The model covers one render of a given download. It does not model that the cache also keeps the empty table of a failed request (app.py:31-35), so that later renders stay stopped until the cache is cleared.
- Reading the GeoJSON file and all geometry (app.py:38-39). The reference is modelled as its list of `MNIMI` names.
- The sidebar widgets (app.py:53-56). `Render` takes the chosen year, grouping and indicator as parameters. The year list offered, `sorted(df["Aasta"].unique())`, is not modelled.
- Plotting, titles, the table display and the download button (app.py:42-43, 81-87, 111-121). These are UI.
- Serialising the table to CSV bytes (app.py:115). The formatting is the library's, so no round trip over it is stated.
- Pandas NaN and float semantics. Indicator values are integers, and a missing merge value is `None`.
- Aggregator.Aggregate: does not model the 64-bit wrap-around of pandas integer addition. Values are unbounded integers, which matches the source for any realistic birth or death count.
- Summary.BuildTable: does not model the 64-bit wrap-around of the "Kokku" sums (app.py:105-107), for the same reason as `Aggregator.Aggregate`.
- Frame.Table: "Aasta" and "Maakond" are fields of every row. A download without those columns would raise a `KeyError` in the source, and that case is not modelled.
- Schema.Lower: lower-cases ASCII letters only, unlike Python's full Unicode `str.lower`. The grouping labels are ASCII, so the file names are unaffected.
