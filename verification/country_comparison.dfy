/**
 * The data pipeline of the Country Comparison app: a World Bank style wide
 * table (one column per year) is validated, cleaned, reshaped to long form,
 * coerced to numbers, filtered by the user's selection, and given a display
 * scale, both for the time series and for the most-recent-year snapshot.
 * Every stage is a function from one derived table to the next.
 */
module CountryComparison {
  import opened Wrappers
  import opened Seqs
  import opened Text
  import opened Numbers

  /** A CSV cell: its text, or `None` for an empty cell (pandas NaN). */
  type Cell = Option<string>

  /** A wide table: column labels and rows of cells, matched by position. */
  datatype Table = Table(columns: seq<string>, rows: seq<seq<Cell>>)

  /** Every row has one cell per column (true of every pandas DataFrame). */
  predicate Rectangular(t: Table) {
    forall row :: row in t.rows ==> |row| == |t.columns|
  }

  const CountryName := "Country Name"
  const CountryCode := "Country Code"
  const SeriesName := "Series Name"
  const SeriesCode := "Series Code"
  const RequiredColumns: seq<string> := [CountryName, CountryCode, SeriesName, SeriesCode]

  // ---------------------------------------------------------------------
  // Column check and dropna

  predicate HasRequiredColumns(columns: seq<string>) {
    forall c :: c in RequiredColumns ==> c in columns
  }

  /** The position of the first column labelled `name`; `|columns|` when there is none. */
  function ColumnIndex(columns: seq<string>, name: string): (j: nat)
    ensures j <= |columns|
    ensures j < |columns| <==> name in columns
    ensures j < |columns| ==> columns[j] == name
  {
    Span(columns, c => c == name)
  }

  /** The cell of `row` under the column labelled `name` (missing if there is none). */
  function CellAt(columns: seq<string>, row: seq<Cell>, name: string): Cell {
    var j := ColumnIndex(columns, name);
    if j < |row| then row[j] else None
  }

  /** None of the four required cells of `row` is missing. */
  predicate Complete(columns: seq<string>, row: seq<Cell>) {
    forall c :: c in RequiredColumns ==> CellAt(columns, row, c).Some?
  }

  function CompleteIn(columns: seq<string>): seq<Cell> -> bool {
    row => Complete(columns, row)
  }

  /**
   * `dropna(subset=required_cols)`: keep, in order, exactly the rows whose four
   * required cells are all present, every copy of each.
   */
  function DropIncomplete(t: Table): (r: Table)
    requires HasRequiredColumns(t.columns)
    ensures r.columns == t.columns
    ensures forall row :: row in r.rows ==> row in t.rows && Complete(r.columns, row)
    ensures forall row :: row in t.rows && Complete(t.columns, row) ==> row in r.rows
    ensures Subseq(r.rows, t.rows)
    ensures forall row :: multiset(r.rows)[row] == if Complete(t.columns, row) then multiset(t.rows)[row] else 0
    ensures Rectangular(t) ==> Rectangular(r)
  {
    FilterSubseq(t.rows, CompleteIn(t.columns));
    FilterCounts(t.rows, CompleteIn(t.columns));
    Table(t.columns, Filter(t.rows, CompleteIn(t.columns)))
  }

  // ---------------------------------------------------------------------
  // Renaming the year columns

  /** A year column is one whose label contains "YR", as in "2000 [YR2000]". */
  predicate IsYearLabel(heading: string) {
    Contains(heading, "YR")
  }

  function RenameLabel(heading: string): string {
    if IsYearLabel(heading) then FirstToken(heading) else heading
  }

  /**
   * The column labels after renaming: a year column keeps only the text before
   * its first space; every other column keeps its label.
   */
  function RenameYearColumns(columns: seq<string>): (r: seq<string>)
    ensures |r| == |columns|
    ensures forall i :: 0 <= i < |columns| && IsYearLabel(columns[i]) ==>
      |r[i]| <= |columns[i]| && r[i] == columns[i][..|r[i]|] && ' ' !in r[i]
      && (|r[i]| < |columns[i]| ==> columns[i][|r[i]|] == ' ')
    ensures forall i :: 0 <= i < |columns| && !IsYearLabel(columns[i]) ==> r[i] == columns[i]
  {
    Map(columns, RenameLabel)
  }

  lemma {:induction false} ContainsHead(s: string, sub: string)
    requires sub != [] && Contains(s, sub)
    ensures sub[0] in s
    decreases |s|
  {
    if s[..|sub|] != sub {
      ContainsHead(s[1..], sub);
    }
  }

  /** Each required label holds a space and no letter 'Y'. */
  lemma RequiredLabelShape(name: string)
    requires name in RequiredColumns
    ensures ' ' in name && 'Y' !in name
  {
    assert name == CountryName || name == CountryCode || name == SeriesName || name == SeriesCode;
  }

  /**
   * Renaming leaves the four required columns where they were: their labels
   * hold no "YR", and a renamed year label holds no space while each of theirs does.
   */
  lemma RenameKeepsRequired(columns: seq<string>, name: string)
    requires name in RequiredColumns
    ensures ColumnIndex(RenameYearColumns(columns), name) == ColumnIndex(columns, name)
  {
    var renamed := RenameYearColumns(columns);
    RequiredLabelShape(name);
    assert !IsYearLabel(name) by {
      if Contains(name, "YR") {
        ContainsHead(name, "YR");
      }
    }
    forall i | 0 <= i < |columns|
      ensures renamed[i] == name <==> columns[i] == name
    {
      if IsYearLabel(columns[i]) {
        assert ' ' !in renamed[i];
      }
    }
  }

  /** The renamed table, rows untouched. */
  function Renamed(t: Table): (r: Table)
    ensures r.rows == t.rows && |r.columns| == |t.columns|
  {
    Table(RenameYearColumns(t.columns), t.rows)
  }

  /** Each position is greater than the one before it. */
  predicate Increasing(s: seq<nat>) {
    forall a, b :: 0 <= a < b < |s| ==> s[a] < s[b]
  }

  /** A position below every later one, put in front of an increasing sequence, keeps it increasing. */
  lemma ConsIncreasing(x: nat, s: seq<nat>)
    requires Increasing(s) && forall y :: y in s ==> x < y
    ensures Increasing([x] + s)
  {
    var r := [x] + s;
    forall a, b | 0 <= a < b < |r| ensures r[a] < r[b] {
      assert r[b] == s[b - 1] && s[b - 1] in s;
      if a > 0 {
        assert r[a] == s[a - 1];
      }
    }
  }

  /** Masking an increasing sequence of positions leaves it increasing. */
  lemma {:induction false} FilterIncreasing(s: seq<nat>, p: nat -> bool)
    requires Increasing(s)
    ensures Increasing(Filter(s, p))
  {
    if s != [] {
      var tail := s[1..];
      var kept := Filter(tail, p);
      FilterIncreasing(tail, p);
      if p(s[0]) {
        assert forall y :: y in tail ==> s[0] < y by {
          forall y | y in tail ensures s[0] < y {
            var k :| 0 <= k < |tail| && tail[k] == y;
            assert s[k + 1] == y;
          }
        }
        ConsIncreasing(s[0], kept);
        assert Filter(s, p) == [s[0]] + kept;
      }
    }
  }

  /** The positions of the year columns, left to right, each once. */
  function YearColumns(columns: seq<string>): (r: seq<nat>)
    ensures forall j :: j in r ==> j < |columns| && IsYearLabel(columns[j])
    ensures forall j :: 0 <= j < |columns| && IsYearLabel(columns[j]) ==> j in r
    ensures Increasing(r)
  {
    var all := Range(|columns|);
    var r := Filter(all, (j: nat) => j < |columns| && IsYearLabel(columns[j]));
    forall j | 0 <= j < |columns| && IsYearLabel(columns[j]) ensures j in r {
      assert all[j] == j;
    }
    FilterIncreasing(all, (j: nat) => j < |columns| && IsYearLabel(columns[j]));
    r
  }

  // ---------------------------------------------------------------------
  // Melt (wide to long)

  /** A long-form row before coercion: the id cells, the year label and the raw value cell. */
  datatype RawRecord = RawRecord(country: Cell, series: Cell, year: string, value: Cell)

  /** The long row that `row`'s cell under column `j` becomes. */
  function MeltCell(columns: seq<string>, row: seq<Cell>, j: nat): RawRecord {
    RawRecord(
      CellAt(columns, row, CountryName),
      CellAt(columns, row, SeriesName),
      if j < |columns| then columns[j] else "",
      if j < |row| then row[j] else None)
  }

  function MeltColumn(t: Table, j: nat): (r: seq<RawRecord>)
    ensures |r| == |t.rows|
  {
    Map(t.rows, row => MeltCell(t.columns, row, j))
  }

  /**
   * `pd.melt` over the year columns `years`, keyed by Country Name and Series
   * Name: all rows for the first year column, then all rows for the next, and
   * so on.
   */
  function Melt(t: Table, years: seq<nat>): (r: seq<RawRecord>)
    ensures |r| == |t.rows| * |years|
  {
    if years == [] then []
    else
      assert |t.rows| * |years| == |t.rows| + |t.rows| * |years[1..]|;
      MeltColumn(t, years[0]) + Melt(t, years[1..])
  }

  /** Past the first year column's rows, the melted table continues with the rest of the columns. */
  lemma MeltShift(t: Table, years: seq<nat>, off: nat)
    requires years != [] && off < |Melt(t, years[1..])|
    ensures |t.rows| + off < |Melt(t, years)|
    ensures Melt(t, years)[|t.rows| + off] == Melt(t, years[1..])[off]
  {
    assert Melt(t, years) == MeltColumn(t, years[0]) + Melt(t, years[1..]);
  }

  /** The first `|rows|` long rows melt the first year column. */
  lemma MeltHead(t: Table, years: seq<nat>, i: nat)
    requires years != [] && i < |t.rows|
    ensures i < |Melt(t, years)|
    ensures Melt(t, years)[i] == MeltCell(t.columns, t.rows[i], years[0])
  {
    assert Melt(t, years) == MeltColumn(t, years[0]) + Melt(t, years[1..]);
  }

  /** `k` blocks of `n` rows, counted by repeated addition. */
  function Offset(k: nat, n: nat): nat {
    if k == 0 then 0 else n + Offset(k - 1, n)
  }

  lemma {:induction false} OffsetIsProduct(k: nat, n: nat)
    ensures Offset(k, n) == k * n
  {
    if k > 0 {
      OffsetIsProduct(k - 1, n);
      assert k * n == n + (k - 1) * n;
    }
  }

  lemma {:induction false} MeltAtOffset(t: Table, years: seq<nat>, k: nat, i: nat)
    requires k < |years| && i < |t.rows|
    ensures Offset(k, |t.rows|) + i < |Melt(t, years)|
    ensures Melt(t, years)[Offset(k, |t.rows|) + i] == MeltCell(t.columns, t.rows[i], years[k])
  {
    if k == 0 {
      MeltHead(t, years, i);
    } else {
      MeltAtOffset(t, years[1..], k - 1, i);
      assert years[1..][k - 1] == years[k];
      assert Offset(k, |t.rows|) == |t.rows| + Offset(k - 1, |t.rows|);
      MeltShift(t, years, Offset(k - 1, |t.rows|) + i);
    }
  }

  /** Long row `k * |rows| + i` comes from source row `i` under year column `years[k]`. */
  lemma MeltAt(t: Table, years: seq<nat>, k: nat, i: nat)
    requires k < |years| && i < |t.rows|
    ensures k * |t.rows| + i < |Melt(t, years)|
    ensures Melt(t, years)[k * |t.rows| + i] == MeltCell(t.columns, t.rows[i], years[k])
  {
    MeltAtOffset(t, years, k, i);
    OffsetIsProduct(k, |t.rows|);
  }

  /** After the required columns survive dropna and renaming, every long row names its country and series. */
  lemma {:induction false} MeltKeepsIds(t: Table, years: seq<nat>)
    requires forall row :: row in t.rows ==> CellAt(t.columns, row, CountryName).Some? && CellAt(t.columns, row, SeriesName).Some?
    ensures forall r :: r in Melt(t, years) ==> r.country.Some? && r.series.Some?
  {
    if years != [] {
      MeltKeepsIds(t, years[1..]);
    }
  }

  // ---------------------------------------------------------------------
  // Numeric coercion

  /** A long row with a numeric year and value. */
  datatype LongRecord = LongRecord(country: Cell, series: Cell, year: real, value: real)

  /** `to_numeric(errors="coerce")` on the year label and the value cell; `None` if either fails. */
  function Coerce(raw: RawRecord): (r: Option<LongRecord>)
    ensures r.Some? <==> ParseNumber(raw.year).Some? && raw.value.Some? && ParseNumber(raw.value.value).Some?
    ensures r.Some? ==> r.value.country == raw.country && r.value.series == raw.series
    ensures r.Some? ==> Some(r.value.year) == ParseNumber(raw.year) && Some(r.value.value) == ParseNumber(raw.value.value)
  {
    var year := ParseNumber(raw.year);
    var value := if raw.value.Some? then ParseNumber(raw.value.value) else None;
    if year.Some? && value.Some? then Some(LongRecord(raw.country, raw.series, year.value, value.value))
    else None
  }

  predicate Parses(raw: RawRecord) {
    Coerce(raw).Some?
  }

  /** Coercion followed by `dropna(subset=["Year", "Value"])`. */
  function CoerceAll(raws: seq<RawRecord>): (r: seq<LongRecord>)
    ensures |r| <= |raws|
  {
    if raws == [] then []
    else match Coerce(raws[0])
      case Some(l) => [l] + CoerceAll(raws[1..])
      case None => CoerceAll(raws[1..])
  }

  /**
   * Coercion drops exactly the rows whose year or value does not parse and
   * keeps all others, in order, with the numbers they parse to.
   */
  lemma {:induction false} CoerceAllExact(raws: seq<RawRecord>)
    ensures |CoerceAll(raws)| == |Filter(raws, Parses)|
    ensures forall i :: 0 <= i < |CoerceAll(raws)| ==> Coerce(Filter(raws, Parses)[i]) == Some(CoerceAll(raws)[i])
  {
    if raws != [] {
      CoerceAllExact(raws[1..]);
    }
  }

  /** The rows coercion drops are exactly the unparseable ones. */
  predicate FailsToParse(raw: RawRecord) {
    !Parses(raw)
  }

  lemma CoerceDropCount(raws: seq<RawRecord>)
    ensures |raws| - |CoerceAll(raws)| == |Filter(raws, FailsToParse)|
  {
    CoerceAllExact(raws);
    FilterPartition(raws, Parses, FailsToParse);
  }

  lemma {:induction false} CoerceAllKeepsIds(raws: seq<RawRecord>)
    requires forall r :: r in raws ==> r.country.Some? && r.series.Some?
    ensures forall l :: l in CoerceAll(raws) ==> l.country.Some? && l.series.Some?
  {
    if raws != [] {
      CoerceAllKeepsIds(raws[1..]);
    }
  }

  // ---------------------------------------------------------------------
  // The whole reshaping chain

  /** The long-form table before coercion: the complete rows melted over the renamed year columns. */
  function MeltedTable(t: Table): seq<RawRecord>
    requires HasRequiredColumns(t.columns)
  {
    var clean := DropIncomplete(t);
    Melt(Renamed(clean), YearColumns(t.columns))
  }

  /** `df_long`: the melted table with unparseable rows dropped. */
  function LongTable(t: Table): (r: seq<LongRecord>)
    requires HasRequiredColumns(t.columns)
    ensures |r| <= |DropIncomplete(t).rows| * |YearColumns(t.columns)|
  {
    CoerceAll(MeltedTable(t))
  }

  /** Before coercion the long table has (complete rows) x (year columns) rows. */
  lemma MeltedTableCount(t: Table)
    requires HasRequiredColumns(t.columns)
    ensures |MeltedTable(t)| == |DropIncomplete(t).rows| * |YearColumns(t.columns)|
  {
  }

  /** Renaming the year columns leaves every required cell where it was. */
  lemma RenameKeepsCell(columns: seq<string>, row: seq<Cell>, name: string)
    requires name in RequiredColumns
    ensures CellAt(RenameYearColumns(columns), row, name) == CellAt(columns, row, name)
  {
    RenameKeepsRequired(columns, name);
  }

  /** Every row of `df_long` carries a country and a series name. */
  lemma LongTableHasIds(t: Table)
    requires HasRequiredColumns(t.columns)
    ensures forall l :: l in LongTable(t) ==> l.country.Some? && l.series.Some?
  {
    var clean := DropIncomplete(t);
    var renamed := Renamed(clean);
    forall row | row in renamed.rows
      ensures CellAt(renamed.columns, row, CountryName).Some? && CellAt(renamed.columns, row, SeriesName).Some?
    {
      assert Complete(clean.columns, row);
      RenameKeepsCell(clean.columns, row, CountryName);
      RenameKeepsCell(clean.columns, row, SeriesName);
    }
    MeltKeepsIds(renamed, YearColumns(t.columns));
    CoerceAllKeepsIds(MeltedTable(t));
  }

  // ---------------------------------------------------------------------
  // The user's selection

  /** The sidebar choices: countries, one indicator, and an inclusive year range. */
  datatype Selection = Selection(countries: set<string>, indicator: string, lo: int, hi: int)

  predicate Selected(sel: Selection, r: LongRecord) {
    && r.country.Some? && r.country.value in sel.countries
    && r.series == Some(sel.indicator)
    && sel.lo as real <= r.year <= sel.hi as real
  }

  function SelectedBy(sel: Selection): LongRecord -> bool {
    r => Selected(sel, r)
  }

  /**
   * `filtered`: exactly the long rows of a selected country, of the chosen
   * indicator, and of a year in [lo, hi], in their original order.
   */
  function FilterSelection(long: seq<LongRecord>, sel: Selection): (r: seq<LongRecord>)
    ensures forall x :: x in r ==>
      (x in long && x.country.Some? && x.country.value in sel.countries
       && x.series == Some(sel.indicator) && sel.lo as real <= x.year <= sel.hi as real)
    ensures forall x ::
      (x in long && x.country.Some? && x.country.value in sel.countries
       && x.series == Some(sel.indicator) && sel.lo as real <= x.year <= sel.hi as real) ==> x in r
    ensures Subseq(r, long)
  {
    FilterSubseq(long, SelectedBy(sel));
    Filter(long, SelectedBy(sel))
  }

  /** Filtering again with the same selection changes nothing. */
  lemma FilterSelectionIdempotent(long: seq<LongRecord>, sel: Selection)
    ensures FilterSelection(FilterSelection(long, sel), sel) == FilterSelection(long, sel)
  {
    FilterIdempotent(long, SelectedBy(sel));
  }

  /** Each selected row appears as often in `filtered` as in `df_long`. */
  lemma FilterSelectionKeepsCopies(long: seq<LongRecord>, sel: Selection, x: LongRecord)
    ensures multiset(FilterSelection(long, sel))[x] == if Selected(sel, x) then multiset(long)[x] else 0
  {
    FilterMultiset(long, SelectedBy(sel), x);
  }

  // ---------------------------------------------------------------------
  // Display scale

  const Million: real := 1000000.0
  const Billion: real := 1000000000.0
  const Trillion: real := 1000000000000.0

  /** A divisor for the plotted values and the matching axis label. */
  datatype Scale = Scale(divisor: real, axisLabel: string)

  /**
   * The threshold chain: the largest of 1e12, 1e9, 1e6 not above the maximum
   * value, else 1. `None` is pandas' NaN maximum of an empty view, which no
   * comparison accepts.
   */
  function ChooseScale(maxValue: Option<real>): (s: Scale)
    ensures || s == Scale(1.0, "Value") || s == Scale(Million, "Value (Millions)")
            || s == Scale(Billion, "Value (Billions)") || s == Scale(Trillion, "Value (Trillions)")
    ensures maxValue.None? ==> s == Scale(1.0, "Value")
    ensures maxValue.Some? ==> s.divisor == 1.0 || s.divisor <= maxValue.value
    ensures maxValue.Some? && Million <= maxValue.value ==> Million <= s.divisor
    ensures maxValue.Some? && Billion <= maxValue.value ==> Billion <= s.divisor
    ensures maxValue.Some? && Trillion <= maxValue.value ==> Trillion <= s.divisor
  {
    match maxValue
    case None => Scale(1.0, "Value")
    case Some(m) =>
      if m >= Trillion then Scale(Trillion, "Value (Trillions)")
      else if m >= Billion then Scale(Billion, "Value (Billions)")
      else if m >= Million then Scale(Million, "Value (Millions)")
      else Scale(1.0, "Value")
  }

  /**
   * What the axis then shows for the maximum: at least 1 under any divisor
   * above 1, and below 1000 under millions and billions; raw units are chosen
   * only below a million.
   */
  lemma ScaledMaximum(v: real)
    ensures ChooseScale(Some(v)).divisor > 1.0 ==> v / ChooseScale(Some(v)).divisor >= 1.0
    ensures ChooseScale(Some(v)).divisor in {Million, Billion} ==> v / ChooseScale(Some(v)).divisor < 1000.0
    ensures ChooseScale(Some(v)).divisor == 1.0 ==> v < Million
  {
    var d := ChooseScale(Some(v)).divisor;
    if d == Million {
      assert v < 1000.0 * Million;
    } else if d == Billion {
      assert v < 1000.0 * Billion;
    }
  }

  /** Exactly one million already counts in millions, and is shown as 1. */
  lemma OneMillionIsMillions()
    ensures ChooseScale(Some(Million)) == Scale(Million, "Value (Millions)")
    ensures Million / ChooseScale(Some(Million)).divisor == 1.0
  {
  }

  // ---------------------------------------------------------------------
  // Most-recent-year snapshot

  function YearOf(r: LongRecord): real { r.year }
  function ValueOf(r: LongRecord): real { r.value }

  function AtYear(y: real): LongRecord -> bool {
    (r: LongRecord) => r.year == y
  }

  /** Keeping the rows of the latest year keeps every copy of each row no other row outdates. */
  lemma LatestCounts(filtered: seq<LongRecord>, latest: real, i: nat)
    requires i < |filtered| && filtered[i].year == latest
    requires forall y :: y in filtered ==> y.year <= latest
    ensures forall x :: multiset(Filter(filtered, AtYear(latest)))[x] == if (forall y :: y in filtered ==> y.year <= x.year) then multiset(filtered)[x] else 0
  {
    FilterCounts(filtered, AtYear(latest));
    forall x | x in filtered
      ensures AtYear(latest)(x) <==> forall y :: y in filtered ==> y.year <= x.year
    {
      assert filtered[i] in filtered;
    }
  }

  /** The rows of the latest year, when `latest` is the latest year of a non-empty view. */
  lemma LatestRows(filtered: seq<LongRecord>, latest: real, i: nat)
    requires i < |filtered| && filtered[i].year == latest
    requires forall y :: y in filtered ==> y.year <= latest
    ensures Filter(filtered, AtYear(latest)) != []
    ensures forall x :: x in Filter(filtered, AtYear(latest)) ==> x in filtered && forall y :: y in filtered ==> y.year <= x.year
    ensures forall x :: x in filtered && (forall y :: y in filtered ==> y.year <= x.year) ==> x in Filter(filtered, AtYear(latest))
    ensures forall x :: multiset(Filter(filtered, AtYear(latest)))[x] == if (forall y :: y in filtered ==> y.year <= x.year) then multiset(filtered)[x] else 0
    ensures Subseq(Filter(filtered, AtYear(latest)), filtered)
  {
    assert filtered[i] in Filter(filtered, AtYear(latest));
    FilterSubseq(filtered, AtYear(latest));
    LatestCounts(filtered, latest, i);
  }

  /**
   * `recent_data`: exactly the filtered rows whose year is the latest year in
   * the filtered view, every copy of each, in order; empty only when the view is.
   */
  function RecentRows(filtered: seq<LongRecord>): (r: seq<LongRecord>)
    ensures r == [] <==> filtered == []
    ensures forall x :: x in r ==> x in filtered && forall y :: y in filtered ==> y.year <= x.year
    ensures forall x :: x in filtered && (forall y :: y in filtered ==> y.year <= x.year) ==> x in r
    ensures forall x :: multiset(r)[x] == if (forall y :: y in filtered ==> y.year <= x.year) then multiset(filtered)[x] else 0
    ensures Subseq(r, filtered)
  {
    var years := Map(filtered, YearOf);
    assert forall x :: x in filtered ==> x.year in years by {
      forall x | x in filtered ensures x.year in years {
        var i :| 0 <= i < |filtered| && filtered[i] == x;
        assert years[i] == x.year;
      }
    }
    match MaxOf(years)
    case None => []
    case Some(latest) =>
      var i :| 0 <= i < |years| && years[i] == latest;
      LatestRows(filtered, latest, i);
      Filter(filtered, AtYear(latest))
  }

  lemma DivideThenMultiply(v: real, d: real)
    requires d != 0.0
    ensures (v / d) * d == v
  {
  }

  /** `Value / scale` for every row: the heights that, times the divisor, give back the values. */
  function ScaleValues(rows: seq<LongRecord>, divisor: real): (r: seq<real>)
    requires divisor != 0.0
    ensures |r| == |rows|
    ensures forall i :: 0 <= i < |rows| ==> r[i] * divisor == rows[i].value
  {
    var r := Map(rows, (x: LongRecord) => x.value / divisor);
    forall i | 0 <= i < |rows| ensures r[i] * divisor == rows[i].value {
      DivideThenMultiply(rows[i].value, divisor);
    }
    r
  }

  /** The bar chart: its year, its rows, its own scale, and the scaled bar heights. */
  datatype BarChart = BarChart(year: real, rows: seq<LongRecord>, scale: Scale, scaled: seq<real>)

  /**
   * The bar chart of the latest year, with a scale chosen from that year's
   * maximum alone; `None` is the "no data" branch, taken exactly when the
   * filtered view is empty.
   */
  function Snapshot(filtered: seq<LongRecord>): (b: Option<BarChart>)
    ensures b.None? <==> filtered == []
    ensures b.Some? ==> b.value.rows == RecentRows(filtered)
    ensures b.Some? ==> forall x :: x in b.value.rows ==> x.year == b.value.year
    ensures b.Some? ==> b.value.scale == ChooseScale(MaxOf(Map(b.value.rows, ValueOf)))
    ensures b.Some? ==> b.value.scale.divisor != 0.0 && b.value.scaled == ScaleValues(b.value.rows, b.value.scale.divisor)
  {
    var recent := RecentRows(filtered);
    if recent == [] then None
    else
      var year := recent[0].year;
      assert forall x :: x in recent ==> x.year == year by {
        forall x | x in recent ensures x.year == year {
          assert x in filtered && recent[0] in filtered;
        }
      }
      var scale := ChooseScale(MaxOf(Map(recent, ValueOf)));
      Some(BarChart(year, recent, scale, ScaleValues(recent, scale.divisor)))
  }

  // ---------------------------------------------------------------------
  // The whole app

  /**
   * Why a run stops before drawing anything: a required column is missing
   * (the error message and `st.stop()`), or `df_long` is empty, so the year
   * slider's `int(df_long["Year"].min())` converts NaN and raises.
   */
  datatype PipelineError = MissingRequiredColumns | EmptyLongTable

  /** What the main area shows for one selection. */
  datatype Views = Views(filtered: seq<LongRecord>, lineScale: Scale, showLineChart: bool, bar: Option<BarChart>)

  /**
   * One run of the app: stop with an error when a required column is missing,
   * and crash when no long row survives coercion; otherwise the filtered view,
   * the line chart's scale (chosen from the filtered maximum), whether the line
   * chart is drawn, and the snapshot.
   */
  function Compare(t: Table, sel: Selection): (r: Result<Views, PipelineError>)
    ensures r == Failure(MissingRequiredColumns) <==> exists c :: c in RequiredColumns && c !in t.columns
    ensures r == Failure(EmptyLongTable) <==> HasRequiredColumns(t.columns) && LongTable(t) == []
    ensures r.Success? ==> HasRequiredColumns(t.columns) && r.value.filtered == FilterSelection(LongTable(t), sel)
    ensures r.Success? ==> r.value.lineScale == ChooseScale(MaxOf(Map(r.value.filtered, ValueOf)))
    ensures r.Success? ==> (r.value.showLineChart <==> r.value.filtered != [] && sel.countries != {})
    ensures r.Success? ==> r.value.bar == Snapshot(r.value.filtered)
    ensures r.Success? ==> (r.value.bar.None? <==> r.value.filtered == [])
  {
    if !HasRequiredColumns(t.columns) then Failure(MissingRequiredColumns)
    else if LongTable(t) == [] then Failure(EmptyLongTable)
    else
      var filtered := FilterSelection(LongTable(t), sel);
      var lineScale := ChooseScale(MaxOf(Map(filtered, ValueOf)));
      Success(Views(filtered, lineScale, !(filtered == [] || sel.countries == {}), Snapshot(filtered)))
  }

  /** Selecting no country leaves nothing to draw. */
  lemma NoCountriesNoCharts(t: Table, sel: Selection)
    requires HasRequiredColumns(t.columns) && LongTable(t) != [] && sel.countries == {}
    ensures Compare(t, sel).Success?
    ensures Compare(t, sel).value.filtered == [] && !Compare(t, sel).value.showLineChart
    ensures Compare(t, sel).value.bar.None? && Compare(t, sel).value.lineScale == Scale(1.0, "Value")
  {
    FilterKeepsNone(LongTable(t), SelectedBy(sel));
  }

  /**
   * A table with no "YR" column melts to nothing, so the year slider's
   * `int(NaN)` stops the app, whatever the selection.
   */
  lemma NoYearColumnsStops(t: Table, sel: Selection)
    requires HasRequiredColumns(t.columns) && YearColumns(t.columns) == []
    ensures Compare(t, sel) == Failure(EmptyLongTable)
  {
    assert |DropIncomplete(t).rows| * |YearColumns(t.columns)| == 0;
  }
}
