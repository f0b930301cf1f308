/**
 The monthly averages of wind speed (`calculate_wind_on_month`) and of
 temperature (`calculate_temperature_of_month`). Each row adds its reading
 divided by the number of days of its month to the cell of its year and
 month; then, year by year in first-seen order, the month with the largest
 (and, for temperature, the smallest) cell is reported.
 */
module Monthly {
  import opened Calendar
  import opened Optional
  import opened Dicts
  import opened Selection
  import opened Records

  /** Which reading an accumulation uses: `Ff` or `T`. */
  datatype Quantity = Wind | Temperature

  function Reading(r: Row, q: Quantity): real {
    match q
    case Wind => r.ff
    case Temperature => r.t
  }

  /** The cell of year `y`, month `m`: every row of that month adds its reading
      divided by the length of the month. */
  function MonthSum(data: seq<Row>, q: Quantity, y: Year, m: Month): real {
    if |data| == 0 then 0.0
    else
      var r := Last(data);
      MonthSum(Front(data), q, y, m)
      + (if r.cityTime.year == y && r.cityTime.month == m then Reading(r, q) / DaysInMonth(y, m) as real else 0.0)
  }

  /** The plain total of the readings of year `y`, month `m`. */
  function RawSum(data: seq<Row>, q: Quantity, y: Year, m: Month): real {
    if |data| == 0 then 0.0
    else
      var r := Last(data);
      RawSum(Front(data), q, y, m) + (if r.cityTime.year == y && r.cityTime.month == m then Reading(r, q) else 0.0)
  }

  /** Dividing each reading before adding is dividing the total once: the cell is
      the sum of the month's readings over the number of days in the month. */
  lemma {:induction false} MonthSumIsTotalOverDays(data: seq<Row>, q: Quantity, y: Year, m: Month)
    ensures MonthSum(data, q, y, m) == RawSum(data, q, y, m) / DaysInMonth(y, m) as real
  {
    if |data| > 0 {
      MonthSumIsTotalOverDays(Front(data), q, y, m);
    }
  }

  /** The brute-force sum of a month without rows is 0, the value a new
      `defaultdict(int)` cell starts from. */
  lemma {:induction false} AbsentMonthSumsToZero(data: seq<Row>, q: Quantity, y: Year, m: Month)
    requires m !in MonthsOf(data, y)
    ensures MonthSum(data, q, y, m) == 0.0
  {
    if |data| > 0 {
      AbsentMonthSumsToZero(Front(data), q, y, m);
    }
  }

  /** Two January 2020 rows with wind speeds 2 and 10 fill the January cell with
      `2/31 + 10/31`. */
  lemma TwoJanuaryRowsWind()
    ensures var data := [Row(DateTime(2020, 1, 1, 0, 0), 5.0, 2.0, Some(1.0)),
                         Row(DateTime(2020, 1, 15, 0, 0), -3.0, 10.0, None)];
            MonthSum(data, Wind, 2020, 1) == 2.0 / 31.0 + 10.0 / 31.0
  {
    var data := [Row(DateTime(2020, 1, 1, 0, 0), 5.0, 2.0, Some(1.0)),
                 Row(DateTime(2020, 1, 15, 0, 0), -3.0, 10.0, None)];
    assert Front(data) == [data[0]] && Front(Front(data)) == [];
  }

  /** `m` is the month of year `y` with the largest cell, and every month first seen
      before it in that year has a strictly smaller cell. */
  predicate IsMaxMonth(data: seq<Row>, q: Quantity, y: Year, m: Month) {
    var ms := MonthsOf(data, y);
    m in ms &&
    (forall i :: 0 <= i < |ms| ==> MonthSum(data, q, y, ms[i]) <= MonthSum(data, q, y, m)) &&
    (forall i, j :: 0 <= i < j < |ms| && ms[j] == m ==> MonthSum(data, q, y, ms[i]) < MonthSum(data, q, y, m))
  }

  /** `m` is the month of year `y` with the smallest cell, first-seen month winning ties. */
  predicate IsMinMonth(data: seq<Row>, q: Quantity, y: Year, m: Month) {
    var ms := MonthsOf(data, y);
    m in ms &&
    (forall i :: 0 <= i < |ms| ==> MonthSum(data, q, y, m) <= MonthSum(data, q, y, ms[i])) &&
    (forall i, j :: 0 <= i < j < |ms| && ms[j] == m ==> MonthSum(data, q, y, m) < MonthSum(data, q, y, ms[i]))
  }

  /** The reported month of a year is determined: two months that both qualify are the same. */
  lemma MaxMonthUnique(data: seq<Row>, q: Quantity, y: Year, m: Month, m': Month)
    requires IsMaxMonth(data, q, y, m) && IsMaxMonth(data, q, y, m')
    ensures m == m'
  {
    var ms := MonthsOf(data, y);
    MonthsExact(data, y);
    var i :| 0 <= i < |ms| && ms[i] == m;
    var i' :| 0 <= i' < |ms| && ms[i'] == m';
    var a, b := MonthSum(data, q, y, m), MonthSum(data, q, y, m');
    assert i < i' ==> a < b;
    assert i' < i ==> b < a;
  }

  /** The reported minimum month of a year is determined. */
  lemma MinMonthUnique(data: seq<Row>, q: Quantity, y: Year, m: Month, m': Month)
    requires IsMinMonth(data, q, y, m) && IsMinMonth(data, q, y, m')
    ensures m == m'
  {
    var ms := MonthsOf(data, y);
    MonthsExact(data, y);
    var i :| 0 <= i < |ms| && ms[i] == m;
    var i' :| 0 <= i' < |ms| && ms[i'] == m';
    var a, b := MonthSum(data, q, y, m), MonthSum(data, q, y, m');
    assert i < i' ==> b < a;
    assert i' < i ==> a < b;
  }

  /** The reported minimum of a year never exceeds the reported maximum. */
  lemma MinMonthNotAboveMaxMonth(data: seq<Row>, q: Quantity, y: Year, lo: Month, hi: Month)
    requires IsMinMonth(data, q, y, lo) && IsMaxMonth(data, q, y, hi)
    ensures MonthSum(data, q, y, lo) <= MonthSum(data, q, y, hi)
  {
    var ms := MonthsOf(data, y);
    var i :| 0 <= i < |ms| && ms[i] == hi;
    assert MonthSum(data, q, y, lo) <= MonthSum(data, q, y, ms[i]);
  }

  /** The per-year table of cells: years and months in first-seen order. */
  type Table = Dict<Year, Dict<Month, real>>

  /** A year entry holds exactly the cells of year `y`: one month entry per month seen
      in that year, in first-seen order, each equal to its `MonthSum`. */
  ghost predicate YearCells(year: Dict<Month, real>, data: seq<Row>, q: Quantity, y: Year) {
    Valid(year) && year.keys == MonthsOf(data, y) &&
    forall m :: m in year.vals ==> year.vals[m] == MonthSum(data, q, y, m)
  }

  /** The table holds exactly the cells of the rows: one year entry per year seen, in
      first-seen order, each holding the cells of its year. */
  ghost predicate TableOf(e: Table, data: seq<Row>, q: Quantity) {
    Valid(e) && e.keys == Years(data) &&
    forall y :: y in e.vals ==> YearCells(e.vals[y], data, q, y)
  }

  /** `year_exist`: the year's month table, or a fresh empty one. */
  function YearOrEmpty(e: Table, y: Year): (year: Dict<Month, real>)
    requires Valid(e) && forall y' :: y' in e.vals ==> Valid(e.vals[y'])
    ensures Valid(year)
    ensures y in e.vals ==> year == e.vals[y]
    ensures y !in e.vals ==> year.keys == []
  {
    if y in e.vals then e.vals[y] else Empty()
  }

  /** One pass of the accumulation loop: the row's reading over the month length is
      added to its cell, creating the year and the month entry when they are new. */
  function AddReading(e: Table, row: Row, q: Quantity): (e': Table)
    requires Valid(e) && forall y :: y in e.vals ==> Valid(e.vals[y])
  {
    var y := row.cityTime.year;
    Put(e, y, AddToYear(YearOrEmpty(e, y), row, q))
  }

  /** The year part of one pass: the month's cell, 0 when new, grows by the row's reading
      over the month length. */
  function AddToYear(year: Dict<Month, real>, row: Row, q: Quantity): Dict<Month, real>
    requires Valid(year)
  {
    var y, m := row.cityTime.year, row.cityTime.month;
    Put(year, m, GetOr(year, m, 0.0) + Reading(row, q) / DaysInMonth(y, m) as real)
  }

  /** Adding a row to its year's entry: the entry of the longer rows holds the months
      and cells of that year. */
  lemma AddToYearEntry(year: Dict<Month, real>, d: seq<Row>, row: Row, q: Quantity)
    requires YearCells(year, d, q, row.cityTime.year)
    ensures YearCells(AddToYear(year, row, q), d + [row], q, row.cityTime.year)
  {
    var y, m := row.cityTime.year, row.cityTime.month;
    var d' := d + [row];
    assert Front(d') == d && Last(d') == row;
    if m !in MonthsOf(d, y) {
      AbsentMonthSumsToZero(d, q, y, m);
    }
    var year' := AddToYear(year, row, q);
    forall m' | m' in year'.vals
      ensures year'.vals[m'] == MonthSum(d', q, y, m')
    {
      if m' != m {
        assert MonthSum(d', q, y, m') == MonthSum(d, q, y, m');
      }
    }
  }

  /** A row leaves the entry of every other year right. */
  lemma OtherYearUnchanged(year: Dict<Month, real>, d: seq<Row>, row: Row, q: Quantity, y: Year)
    requires y != row.cityTime.year && YearCells(year, d, q, y)
    ensures YearCells(year, d + [row], q, y)
  {
    assert Front(d + [row]) == d;
  }

  /** Adding the next row to the table of the rows before it gives the table of the longer rows. */
  lemma AddReadingStep(e: Table, d: seq<Row>, row: Row, q: Quantity)
    requires TableOf(e, d, q)
    ensures TableOf(AddReading(e, row, q), d + [row], q)
  {
    var y := row.cityTime.year;
    var d' := d + [row];
    assert Front(d') == d && Last(d') == row;
    if y !in e.vals {
      AbsentYearHasNoMonths(d, y);
    }
    var year := YearOrEmpty(e, y);
    assert YearCells(year, d, q, y);
    AddToYearEntry(year, d, row, q);
    var e' := AddReading(e, row, q);
    assert e'.keys == Years(d');
    forall y' | y' in e'.vals && y' != y
      ensures YearCells(e'.vals[y'], d', q, y')
    {
      OtherYearUnchanged(e.vals[y'], d, row, q, y');
    }
  }

  /** The accumulation loop shared by the wind and temperature reports. */
  method MonthlyTable(data: seq<Row>, q: Quantity) returns (e: Table)
    ensures TableOf(e, data, q)
  {
    e := Empty();
    for i := 0 to |data|
      invariant TableOf(e, data[..i], q)
    {
      assert data[..i + 1] == data[..i] + [data[i]];
      AddReadingStep(e, data[..i], data[i], q);
      e := AddReading(e, data[i], q);
    }
    assert data[..|data|] == data;
  }

  /** A reported month of a year, with its cell. */
  datatype MonthValue = MonthValue(month: Month, value: real)

  /** `max(item.items(), key=...)` over a year's months. */
  function MaxMonth(year: Dict<Month, real>): (r: MonthValue)
    requires Valid(year) && |year.keys| > 0
    ensures r.month in year.vals && r.value == year.vals[r.month]
    ensures forall i :: 0 <= i < |year.keys| ==> year.vals[year.keys[i]] <= r.value
    ensures forall i, j :: 0 <= i < j < |year.keys| && year.keys[j] == r.month ==> year.vals[year.keys[i]] < r.value
  {
    var vs := Values(year);
    var k := FirstMaxIndex(vs);
    MonthValue(year.keys[k], vs[k])
  }

  /** `min(item.items(), key=...)` over a year's months. */
  function MinMonth(year: Dict<Month, real>): (r: MonthValue)
    requires Valid(year) && |year.keys| > 0
    ensures r.month in year.vals && r.value == year.vals[r.month]
    ensures forall i :: 0 <= i < |year.keys| ==> r.value <= year.vals[year.keys[i]]
    ensures forall i, j :: 0 <= i < j < |year.keys| && year.keys[j] == r.month ==> r.value < year.vals[year.keys[i]]
  {
    var vs := Values(year);
    var k := FirstMinIndex(vs);
    MonthValue(year.keys[k], vs[k])
  }

  /** The largest cell of a year's table entry is the brute-force maximum month. */
  lemma TableMax(e: Table, data: seq<Row>, q: Quantity, y: Year)
    requires TableOf(e, data, q) && y in e.vals
    ensures |e.vals[y].keys| > 0
    ensures var r := MaxMonth(e.vals[y]);
            IsMaxMonth(data, q, y, r.month) && r.value == MonthSum(data, q, y, r.month)
  {
    SeenYearHasMonths(data, y);
    assert YearCells(e.vals[y], data, q, y);
    var year, ms := e.vals[y], MonthsOf(data, y);
    var r := MaxMonth(year);
    forall i | 0 <= i < |ms|
      ensures year.vals[ms[i]] == MonthSum(data, q, y, ms[i])
    {
      assert ms[i] in year.vals;
    }
  }

  /** The smallest cell of a year's table entry is the brute-force minimum month. */
  lemma TableMin(e: Table, data: seq<Row>, q: Quantity, y: Year)
    requires TableOf(e, data, q) && y in e.vals
    ensures |e.vals[y].keys| > 0
    ensures var r := MinMonth(e.vals[y]);
            IsMinMonth(data, q, y, r.month) && r.value == MonthSum(data, q, y, r.month)
  {
    SeenYearHasMonths(data, y);
    assert YearCells(e.vals[y], data, q, y);
    var year, ms := e.vals[y], MonthsOf(data, y);
    var r := MinMonth(year);
    forall i | 0 <= i < |ms|
      ensures year.vals[ms[i]] == MonthSum(data, q, y, ms[i])
    {
      assert ms[i] in year.vals;
    }
  }

  /** A wind line of the report: the windiest month of a year. */
  datatype WindLine = WindLine(year: Year, max: MonthValue)

  /** `l` is the wind line of the `i`-th year seen. */
  ghost predicate IsWindLine(data: seq<Row>, i: int, l: WindLine) {
    0 <= i < |Years(data)| && l.year == Years(data)[i] && IsMaxMonth(data, Wind, l.year, l.max.month) &&
    l.max.value == MonthSum(data, Wind, l.year, l.max.month)
  }

  /** The line built from the `k`-th year entry of the table is the wind line of the
      `k`-th year seen. */
  lemma WindLineOf(e: Table, data: seq<Row>, k: int)
    requires TableOf(e, data, Wind) && 0 <= k < |e.keys|
    ensures |e.vals[e.keys[k]].keys| > 0
    ensures IsWindLine(data, k, WindLine(e.keys[k], MaxMonth(e.vals[e.keys[k]])))
  {
    TableMax(e, data, Wind, e.keys[k]);
  }

  /** `report` holds the wind lines of the first `|report|` years seen. */
  ghost predicate IsWindReport(data: seq<Row>, report: seq<WindLine>) {
    forall i :: 0 <= i < |report| ==> IsWindLine(data, i, report[i])
  }

  lemma WindReportGrows(data: seq<Row>, report: seq<WindLine>, l: WindLine)
    requires IsWindReport(data, report) && IsWindLine(data, |report|, l)
    ensures IsWindReport(data, report + [l])
  {
  }

  /** `calculate_wind_on_month`: one line per year, in first-seen order, naming the
      month of that year with the largest average wind speed. */
  method WindOnMonth(data: seq<Row>) returns (report: seq<WindLine>)
    ensures |report| == |Years(data)|
    ensures forall i :: 0 <= i < |report| ==> IsWindLine(data, i, report[i])
  {
    var e := MonthlyTable(data, Wind);
    report := [];
    for k := 0 to |e.keys|
      invariant |report| == k
      invariant IsWindReport(data, report)
    {
      var y := e.keys[k];
      WindLineOf(e, data, k);
      var line := WindLine(y, MaxMonth(e.vals[y]));
      WindReportGrows(data, report, line);
      report := report + [line];
    }
  }

  /** The two temperature lines of a year: its coldest and its warmest month. */
  datatype TemperatureLines = TemperatureLines(year: Year, min: MonthValue, max: MonthValue)

  /** `l` holds the temperature lines of the `i`-th year seen. */
  ghost predicate IsTemperatureLines(data: seq<Row>, i: int, l: TemperatureLines) {
    0 <= i < |Years(data)| && l.year == Years(data)[i] &&
    IsMinMonth(data, Temperature, l.year, l.min.month) &&
    l.min.value == MonthSum(data, Temperature, l.year, l.min.month) &&
    IsMaxMonth(data, Temperature, l.year, l.max.month) &&
    l.max.value == MonthSum(data, Temperature, l.year, l.max.month)
  }

  /** The lines built from the `k`-th year entry of the table are the temperature lines
      of the `k`-th year seen, and the minimum is not above the maximum. */
  lemma TemperatureLinesOf(e: Table, data: seq<Row>, k: int)
    requires TableOf(e, data, Temperature) && 0 <= k < |e.keys|
    ensures |e.vals[e.keys[k]].keys| > 0
    ensures var y := e.keys[k];
            var l := TemperatureLines(y, MinMonth(e.vals[y]), MaxMonth(e.vals[y]));
            IsTemperatureLines(data, k, l) && l.min.value <= l.max.value
  {
    var y := e.keys[k];
    TableMin(e, data, Temperature, y);
    TableMax(e, data, Temperature, y);
    MinMonthNotAboveMaxMonth(data, Temperature, y, MinMonth(e.vals[y]).month, MaxMonth(e.vals[y]).month);
  }

  /** `report` holds the temperature lines of the first `|report|` years seen, each with
      its minimum not above its maximum. */
  ghost predicate IsTemperatureReport(data: seq<Row>, report: seq<TemperatureLines>) {
    forall i :: 0 <= i < |report| ==> IsTemperatureLines(data, i, report[i]) && report[i].min.value <= report[i].max.value
  }

  lemma TemperatureReportGrows(data: seq<Row>, report: seq<TemperatureLines>, l: TemperatureLines)
    requires IsTemperatureReport(data, report)
    requires IsTemperatureLines(data, |report|, l) && l.min.value <= l.max.value
    ensures IsTemperatureReport(data, report + [l])
  {
  }

  /** `calculate_temperature_of_month`: per year, in first-seen order, the months with the
      smallest and the largest average temperature; the minimum never exceeds the maximum. */
  method TemperatureOfMonth(data: seq<Row>) returns (report: seq<TemperatureLines>)
    ensures |report| == |Years(data)|
    ensures forall i :: 0 <= i < |report| ==> IsTemperatureLines(data, i, report[i])
    ensures forall i :: 0 <= i < |report| ==> report[i].min.value <= report[i].max.value
  {
    var e := MonthlyTable(data, Temperature);
    report := [];
    for k := 0 to |e.keys|
      invariant |report| == k
      invariant IsTemperatureReport(data, report)
    {
      var y := e.keys[k];
      TemperatureLinesOf(e, data, k);
      var lines := TemperatureLines(y, MinMonth(e.vals[y]), MaxMonth(e.vals[y]));
      TemperatureReportGrows(data, report, lines);
      report := report + [lines];
    }
  }
}
