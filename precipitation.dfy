/**
 The wettest calendar week (`calculate_precipitation`). For every row the
 month's Monday-first grid is rebuilt into a day-to-week map and a list of
 zero week totals; the first row of a month installs those zero totals, and
 every row adds its `RRR` to the total of its day's week. Then each month
 picks its wettest week, the wettest of those wins overall (first one on
 ties, years and months in first-seen order, weeks ascending), and the
 week's first and last day are reported.
 */
module Precipitation {
  import opened Calendar
  import opened Optional
  import opened Dicts
  import opened Selection
  import opened Records

  // ----- The brute-force week totals -----

  /** Total `RRR` of the rows of year `y`, month `m` whose day lies in week `w` of the grid. */
  function WeekSum(data: seq<Row>, y: Year, m: Month, w: int): real
    requires Normalized(data)
  {
    if |data| == 0 then 0.0
    else
      var r := Last(data);
      WeekSum(Front(data), y, m, w)
      + (if r.cityTime.year == y && r.cityTime.month == m && WeekOf(y, m, r.cityTime.day) == w
         then r.rrr.value else 0.0)
  }

  /** Total `RRR` of the rows of year `y`, month `m`. */
  function MonthRain(data: seq<Row>, y: Year, m: Month): real
    requires Normalized(data)
  {
    if |data| == 0 then 0.0
    else
      var r := Last(data);
      MonthRain(Front(data), y, m) + (if r.cityTime.year == y && r.cityTime.month == m then r.rrr.value else 0.0)
  }

  /** The totals of weeks `0 .. k - 1` of a month. */
  function WeeksTotal(data: seq<Row>, y: Year, m: Month, k: nat): real
    requires Normalized(data)
  {
    if k == 0 then 0.0 else WeeksTotal(data, y, m, k - 1) + WeekSum(data, y, m, k - 1)
  }

  lemma {:induction false} WeeksTotalStep(data: seq<Row>, y: Year, m: Month, k: nat)
    requires |data| > 0 && Normalized(data)
    ensures var r := Last(data);
            WeeksTotal(data, y, m, k) == WeeksTotal(Front(data), y, m, k)
              + (if r.cityTime.year == y && r.cityTime.month == m && WeekOf(y, m, r.cityTime.day) < k
                 then r.rrr.value else 0.0)
  {
    if k > 0 {
      WeeksTotalStep(data, y, m, k - 1);
    }
  }

  lemma {:induction false} NoRowsNoRain(data: seq<Row>, y: Year, m: Month, k: nat)
    requires |data| == 0
    ensures WeeksTotal(data, y, m, k) == 0.0
  {
    if k > 0 {
      NoRowsNoRain(data, y, m, k - 1);
    }
  }

  /** The weeks of a month partition its rain: every row of the month is counted in
      exactly one week, so the week totals add up to the month's total. */
  lemma {:induction false} WeeksPartitionMonth(data: seq<Row>, y: Year, m: Month)
    requires Normalized(data)
    ensures WeeksTotal(data, y, m, NumWeeks(y, m)) == MonthRain(data, y, m)
  {
    if |data| > 0 {
      var r := Last(data);
      assert Normalized(Front(data)) && r.rrr.Some?;
      WeeksPartitionMonth(Front(data), y, m);
      WeeksTotalStep(data, y, m, NumWeeks(y, m));
    } else {
      NoRowsNoRain(data, y, m, NumWeeks(y, m));
    }
  }

  /** A month without rows has no rain in any week. */
  lemma {:induction false} AbsentMonthIsDry(data: seq<Row>, y: Year, m: Month, w: int)
    requires Normalized(data) && m !in MonthsOf(data, y)
    ensures WeekSum(data, y, m, w) == 0.0
  {
    if |data| > 0 {
      AbsentMonthIsDry(Front(data), y, m, w);
    }
  }

  // ----- The day-to-week mask -----

  /** The inner loops of `calculate_precipitation`: walk the month's grid, give every
      week a zero total and map every day of the month to the index of its week. */
  method WeekMask(y: Year, m: Month) returns (daysInWeek: map<int, int>, weeks: seq<real>)
    ensures |weeks| == NumWeeks(y, m)
    ensures forall w :: 0 <= w < |weeks| ==> weeks[w] == 0.0
    ensures forall d :: IsDay(y, m, d) ==> d in daysInWeek && daysInWeek[d] == WeekOf(y, m, d)
  {
    var grid := MonthGrid(y, m);
    GridShape(y, m);
    daysInWeek, weeks := map[], [];
    for weekNumber := 0 to |grid|
      invariant |weeks| == weekNumber
      invariant forall w :: 0 <= w < weekNumber ==> weeks[w] == 0.0
      invariant forall d :: IsDay(y, m, d) && WeekOf(y, m, d) < weekNumber ==>
                  d in daysInWeek && daysInWeek[d] == WeekOf(y, m, d)
    {
      weeks := weeks + [0.0];
      var week := grid[weekNumber];
      for j := 0 to |week|
        invariant forall d :: IsDay(y, m, d) && (WeekOf(y, m, d) < weekNumber || (WeekOf(y, m, d) == weekNumber && ColumnOf(y, m, d) < j)) ==>
                    d in daysInWeek && daysInWeek[d] == WeekOf(y, m, d)
      {
        daysInWeek := daysInWeek[week[j].day := weekNumber];
      }
    }
    forall d | IsDay(y, m, d)
      ensures WeekOf(y, m, d) < |grid|
    {
      DayInExactlyOneSlot(y, m, d);
    }
  }

  // ----- The table year -> month -> week totals -----

  type Table = Dict<Year, Dict<Month, seq<real>>>

  /** Dicts are consistent and every month holds one total per week of its grid. */
  ghost predicate Shaped(e: Table) {
    Valid(e) &&
    (forall y :: y in e.vals ==> Valid(e.vals[y])) &&
    (forall y, m :: y in e.vals && m in e.vals[y].vals ==> |e.vals[y].vals[m]| == NumWeeks(y, m))
  }

  /** `cells` holds one total per week of the month's grid, each the brute-force `WeekSum`. */
  ghost predicate CellsOf(cells: seq<real>, data: seq<Row>, y: Year, m: Month)
    requires Normalized(data)
  {
    |cells| == NumWeeks(y, m) && forall w :: 0 <= w < |cells| ==> cells[w] == WeekSum(data, y, m, w)
  }

  /** `year` holds the months of year `y` in first-seen order, each with its week totals. */
  ghost predicate YearOf(year: Dict<Month, seq<real>>, data: seq<Row>, y: Year)
    requires Normalized(data)
  {
    Valid(year) && year.keys == MonthsOf(data, y) &&
    forall m :: m in year.vals ==> CellsOf(year.vals[m], data, y, m)
  }

  /** The table holds exactly the week totals of the rows. */
  ghost predicate TableOf(e: Table, data: seq<Row>) {
    Normalized(data) && Valid(e) && e.keys == Years(data) &&
    forall y :: y in e.vals ==> YearOf(e.vals[y], data, y)
  }

  lemma TableIsShaped(e: Table, data: seq<Row>)
    requires TableOf(e, data)
    ensures Shaped(e)
  {
  }

  /** One pass of the outer loop, once the mask is built: fetch the year (or a new one),
      install the zero week totals if the month is new, add the row's `RRR` to week `w`. */
  function AddRain(e: Table, row: Row, weeks: seq<real>, w: int): Table
    requires Shaped(e) && row.rrr.Some?
    requires |weeks| == NumWeeks(row.cityTime.year, row.cityTime.month)
    requires 0 <= w < |weeks|
  {
    var y, m := row.cityTime.year, row.cityTime.month;
    var year := if y in e.vals then e.vals[y] else Empty();
    Put(e, y, AddRainToYear(year, row, weeks, w))
  }

  /** The year part of one pass: install the month's zero totals if it is new, then add. */
  function AddRainToYear(year: Dict<Month, seq<real>>, row: Row, weeks: seq<real>, w: int): Dict<Month, seq<real>>
    requires Valid(year) && row.rrr.Some?
    requires forall m :: m in year.vals ==> |year.vals[m]| == NumWeeks(row.cityTime.year, m)
    requires |weeks| == NumWeeks(row.cityTime.year, row.cityTime.month)
    requires 0 <= w < |weeks|
  {
    var m := row.cityTime.month;
    var year' := if m in year.vals then year else Put(year, m, weeks);
    var cells := year'.vals[m];
    Put(year', m, cells[w := cells[w] + row.rrr.value])
  }

  /** The week totals of a month the row does not belong to stay right. */
  lemma CellsOther(cells: seq<real>, d: seq<Row>, row: Row, y: Year, m: Month)
    requires Normalized(d + [row]) && row.rrr.Some? && (row.cityTime.year != y || row.cityTime.month != m)
    requires Normalized(d) && CellsOf(cells, d, y, m)
    ensures CellsOf(cells, d + [row], y, m)
  {
    assert Front(d + [row]) == d;
  }

  /** Adding the row's `RRR` to its week keeps the totals of its month right. */
  lemma CellsAdd(cells: seq<real>, d: seq<Row>, row: Row)
    requires Normalized(d + [row]) && row.rrr.Some? && Normalized(d)
    requires CellsOf(cells, d, row.cityTime.year, row.cityTime.month)
    ensures var t := row.cityTime;
            var w := WeekOf(t.year, t.month, t.day);
            0 <= w < |cells| &&
            CellsOf(cells[w := cells[w] + row.rrr.value], d + [row], t.year, t.month)
  {
    assert Front(d + [row]) == d && Last(d + [row]) == row;
  }

  /** The zero totals installed for a month seen for the first time are right. */
  lemma CellsFresh(weeks: seq<real>, d: seq<Row>, y: Year, m: Month)
    requires Normalized(d) && m !in MonthsOf(d, y)
    requires |weeks| == NumWeeks(y, m) && forall k :: 0 <= k < |weeks| ==> weeks[k] == 0.0
    ensures CellsOf(weeks, d, y, m)
  {
    forall k | 0 <= k < |weeks|
      ensures weeks[k] == WeekSum(d, y, m, k)
    {
      AbsentMonthIsDry(d, y, m, k);
    }
  }

  /** A year other than the row's keeps its months and totals. */
  lemma YearOther(year: Dict<Month, seq<real>>, d: seq<Row>, row: Row, y: Year)
    requires Normalized(d + [row]) && row.rrr.Some? && Normalized(d) && y != row.cityTime.year
    requires YearOf(year, d, y)
    ensures YearOf(year, d + [row], y)
  {
    assert Front(d + [row]) == d;
    forall m | m in year.vals
      ensures CellsOf(year.vals[m], d + [row], y, m)
    {
      CellsOther(year.vals[m], d, row, y, m);
    }
  }

  /** The row's own year after one pass holds the months and totals of the longer rows. */
  lemma YearAdd(year: Dict<Month, seq<real>>, d: seq<Row>, row: Row, weeks: seq<real>)
    requires Normalized(d + [row]) && row.rrr.Some? && Normalized(d)
    requires YearOf(year, d, row.cityTime.year)
    requires |weeks| == NumWeeks(row.cityTime.year, row.cityTime.month)
    requires forall k :: 0 <= k < |weeks| ==> weeks[k] == 0.0
    ensures var t := row.cityTime;
            var w := WeekOf(t.year, t.month, t.day);
            0 <= w < |weeks| &&
            YearOf(AddRainToYear(year, row, weeks, w), d + [row], t.year)
  {
    var t := row.cityTime;
    var y, m := t.year, t.month;
    var d' := d + [row];
    assert Front(d') == d && Last(d') == row;
    var w := WeekOf(y, m, t.day);
    var year1 := if m in year.vals then year else Put(year, m, weeks);
    if m !in year.vals {
      CellsFresh(weeks, d, y, m);
    }
    assert CellsOf(year1.vals[m], d, y, m);
    CellsAdd(year1.vals[m], d, row);
    var year' := AddRainToYear(year, row, weeks, w);
    assert year'.keys == MonthsOf(d', y);
    forall m' | m' in year'.vals && m' != m
      ensures CellsOf(year'.vals[m'], d', y, m')
    {
      CellsOther(year.vals[m'], d, row, y, m');
    }
  }

  /** Adding the next row to the table of the rows before it gives the table of the longer rows. */
  lemma AddRainStep(e: Table, d: seq<Row>, row: Row, weeks: seq<real>)
    requires Normalized(d + [row]) && row.rrr.Some? && TableOf(e, d)
    requires |weeks| == NumWeeks(row.cityTime.year, row.cityTime.month)
    requires forall k :: 0 <= k < |weeks| ==> weeks[k] == 0.0
    ensures var t := row.cityTime;
            var w := WeekOf(t.year, t.month, t.day);
            0 <= w < |weeks| && Shaped(e) &&
            TableOf(AddRain(e, row, weeks, w), d + [row])
  {
    var t := row.cityTime;
    var y := t.year;
    var d' := d + [row];
    assert Front(d') == d && Last(d') == row;
    TableIsShaped(e, d);
    if y !in e.vals {
      AbsentYearHasNoMonths(d, y);
    }
    var year := if y in e.vals then e.vals[y] else Empty();
    assert YearOf(year, d, y);
    YearAdd(year, d, row, weeks);
    var e' := AddRain(e, row, weeks, WeekOf(y, t.month, t.day));
    assert e'.keys == Years(d');
    forall y' | y' in e'.vals && y' != y
      ensures YearOf(e'.vals[y'], d', y')
    {
      YearOther(e.vals[y'], d, row, y');
    }
  }

  /** The accumulation loop of `calculate_precipitation`. */
  method PrecipitationTable(data: seq<Row>) returns (e: Table)
    requires Normalized(data)
    ensures TableOf(e, data)
  {
    e := Empty();
    for i := 0 to |data|
      invariant TableOf(e, data[..i])
    {
      var row := data[i];
      var daysInWeek, weeks := WeekMask(row.cityTime.year, row.cityTime.month);
      var week := daysInWeek[row.cityTime.day];
      assert data[..i + 1] == data[..i] + [row];
      AddRainStep(e, data[..i], row, weeks);
      e := AddRain(e, row, weeks, week);
    }
    assert data[..|data|] == data;
  }

  // ----- Choosing the wettest week -----

  /** Every year entry holds at least one month: entries are made only by adding a row. */
  ghost predicate NoEmptyYear(e: Table)
    requires Valid(e)
  {
    forall y :: y in e.vals ==> |e.vals[y].keys| > 0
  }

  /** The week totals of the table, indexed by the position of the year, the position of
      the month within its year, and the week. */
  ghost function TableBuckets(e: Table): seq<seq<seq<real>>>
    requires Shaped(e)
  {
    seq(|e.keys|, a requires 0 <= a < |e.keys| =>
      var year := e.vals[e.keys[a]];
      seq(|year.keys|, b requires 0 <= b < |year.keys| => year.vals[year.keys[b]]))
  }

  /** The brute-force week totals of the rows, indexed the same way: years and months in
      first-seen order, weeks in grid order. */
  ghost function DataBuckets(data: seq<Row>): seq<seq<seq<real>>>
    requires Normalized(data)
  {
    var ys := Years(data);
    seq(|ys|, a requires 0 <= a < |ys| => MonthBuckets(data, ys[a]))
  }

  /** The brute-force week totals of the months of year `y`, in first-seen order. */
  ghost function MonthBuckets(data: seq<Row>, y: Year): seq<seq<real>>
    requires Normalized(data)
  {
    var ms := MonthsOf(data, y);
    seq(|ms|, b requires 0 <= b < |ms| => WeekBuckets(data, y, ms[b]))
  }

  /** The brute-force week totals of month `m` of year `y`, in grid order. */
  ghost function WeekBuckets(data: seq<Row>, y: Year, m: Month): seq<real>
    requires Normalized(data)
  {
    seq(NumWeeks(y, m), w requires 0 <= w < NumWeeks(y, m) => WeekSum(data, y, m, w))
  }

  /** The table built from the rows holds the brute-force week totals, in the same order. */
  lemma TableBucketsAreDataBuckets(e: Table, data: seq<Row>)
    requires TableOf(e, data)
    ensures Shaped(e) && NoEmptyYear(e)
    ensures TableBuckets(e) == DataBuckets(data)
  {
    TableIsShaped(e, data);
    var T, D := TableBuckets(e), DataBuckets(data);
    forall a | 0 <= a < |T|
      ensures T[a] == D[a]
    {
      var y := e.keys[a];
      assert YearOf(e.vals[y], data, y);
      forall b | 0 <= b < |T[a]|
        ensures T[a][b] == D[a][b]
      {
        var m := e.vals[y].keys[b];
        assert CellsOf(e.vals[y].vals[m], data, y, m);
      }
    }
    forall y | y in e.vals
      ensures |e.vals[y].keys| > 0
    {
      SeenYearHasMonths(data, y);
    }
  }

  /** Year position, month position, week: the order in which the selection meets the weeks. */
  predicate Before(a: int, b: int, w: int, a': int, b': int, w': int) {
    a < a' || (a == a' && (b < b' || (b == b' && w < w')))
  }

  /** `(a, b, w)` is the wettest week of `B`: no week has more rain, and every week met
      before it (an earlier year, an earlier month of the year, an earlier week of the
      month) has strictly less. */
  ghost predicate IsWettest(B: seq<seq<seq<real>>>, a: int, b: int, w: int) {
    0 <= a < |B| && 0 <= b < |B[a]| && 0 <= w < |B[a][b]| &&
    forall a', b', w' :: 0 <= a' < |B| && 0 <= b' < |B[a']| && 0 <= w' < |B[a'][b']| ==>
      B[a'][b'][w'] <= B[a][b][w] && (Before(a', b', w', a, b, w) ==> B[a'][b'][w'] < B[a][b][w])
  }

  /** The wettest week is unique: the selection is fully determined by the totals. */
  lemma WettestUnique(B: seq<seq<seq<real>>>, a: int, b: int, w: int, a': int, b': int, w': int)
    requires IsWettest(B, a, b, w) && IsWettest(B, a', b', w')
    ensures a == a' && b == b' && w == w'
  {
    var x, x' := B[a][b][w], B[a'][b'][w'];
    assert Before(a, b, w, a', b', w') ==> x < x';
    assert Before(a', b', w', a, b, w) ==> x' < x;
  }

  /** When every week has the same total (a dry period, say) the very first week wins. */
  lemma EvenRainPicksFirstWeek(B: seq<seq<seq<real>>>, a: int, b: int, w: int)
    requires IsWettest(B, a, b, w) && |B[0]| > 0 && |B[0][0]| > 0
    requires forall a', b', w' :: 0 <= a' < |B| && 0 <= b' < |B[a']| && 0 <= w' < |B[a'][b']| ==>
               B[a'][b'][w'] == B[0][0][0]
    ensures a == 0 && b == 0 && w == 0
  {
    var x, z := B[a][b][w], B[0][0][0];
    assert x == z;
  }

  /** One entry of `max_precipitation_on_years`: a month and its wettest week. */
  datatype Peak = Peak(year: Year, month: Month, week: int, total: real)

  /** `p` is the entry for month position `b` of year position `a` of the table. */
  ghost predicate IsPeakOf(e: Table, p: Peak, a: int, b: int)
    requires Shaped(e)
  {
    0 <= a < |e.keys| && 0 <= b < |e.vals[e.keys[a]].keys| &&
    var year := e.vals[e.keys[a]];
    var cells := year.vals[year.keys[b]];
    p.year == e.keys[a] && p.month == year.keys[b] && IsFirstMax(cells, p.week) && p.total == cells[p.week]
  }

  predicate PosBefore(p: (int, int), q: (int, int)) {
    p.0 < q.0 || (p.0 == q.0 && p.1 < q.1)
  }

  /** The month positions of year position `a`, in order. */
  function MonthPositions(a: int, n: nat): seq<(int, int)> {
    seq(n, b => (a, b))
  }

  /** The (year position, month position) pairs of the first `a` years, in table order. */
  ghost function Positions(e: Table, a: int): seq<(int, int)>
    requires Shaped(e) && 0 <= a <= |e.keys|
  {
    if a == 0 then [] else Positions(e, a - 1) + MonthPositions(a - 1, |e.vals[e.keys[a - 1]].keys|)
  }

  /** The positions are valid, belong to the first `a` years, and are met in strictly
      increasing order. */
  lemma {:induction false} PositionsOrdered(e: Table, a: int)
    requires Shaped(e) && 0 <= a <= |e.keys|
    ensures forall i :: 0 <= i < |Positions(e, a)| ==>
              var p := Positions(e, a)[i];
              0 <= p.0 < a && 0 <= p.1 < |e.vals[e.keys[p.0]].keys|
    ensures forall i, j :: 0 <= i < j < |Positions(e, a)| ==> PosBefore(Positions(e, a)[i], Positions(e, a)[j])
  {
    if a > 0 {
      PositionsOrdered(e, a - 1);
    }
  }

  /** `(a, b)` is one of the positions in `pos`. */
  ghost predicate Listed(pos: seq<(int, int)>, a: int, b: int) {
    exists i :: 0 <= i < |pos| && pos[i] == (a, b)
  }

  /** Every month of the first `a` years has its position listed. */
  lemma {:induction false} PositionsCover(e: Table, a: int)
    requires Shaped(e) && 0 <= a <= |e.keys|
    ensures forall a', b' :: 0 <= a' < a && 0 <= b' < |e.vals[e.keys[a']].keys| ==> Listed(Positions(e, a), a', b')
  {
    if a > 0 {
      PositionsCover(e, a - 1);
      var P, Q := Positions(e, a - 1), Positions(e, a);
      var n := |e.vals[e.keys[a - 1]].keys|;
      assert Q == P + MonthPositions(a - 1, n);
      forall a', b' | 0 <= a' < a && 0 <= b' < |e.vals[e.keys[a']].keys|
        ensures Listed(Q, a', b')
      {
        if a' < a - 1 {
          assert Listed(P, a', b');
          var i :| 0 <= i < |P| && P[i] == (a', b');
          assert Q[i] == (a', b');
        } else {
          assert Q[|P| + b'] == (a', b');
        }
      }
    }
  }

  /** The first loop of the selection: for every year of the table and every month of it,
      in table order, the month's first wettest week. */
  method MonthlyPeaks(e: Table) returns (peaks: seq<Peak>)
    requires Shaped(e)
    ensures |peaks| == |Positions(e, |e.keys|)|
    ensures forall i :: 0 <= i < |peaks| ==>
              IsPeakOf(e, peaks[i], Positions(e, |e.keys|)[i].0, Positions(e, |e.keys|)[i].1)
  {
    peaks := [];
    ghost var pos: seq<(int, int)> := [];
    for a := 0 to |e.keys|
      invariant pos == Positions(e, a) && |peaks| == |pos|
      invariant forall i :: 0 <= i < |pos| ==> IsPeakOf(e, peaks[i], pos[i].0, pos[i].1)
    {
      var y := e.keys[a];
      var year := e.vals[y];
      for b := 0 to |year.keys|
        invariant pos == Positions(e, a) + MonthPositions(a, b) && |peaks| == |pos|
        invariant forall i :: 0 <= i < |pos| ==> IsPeakOf(e, peaks[i], pos[i].0, pos[i].1)
      {
        var m := year.keys[b];
        var cells := year.vals[m];
        var w := FirstMaxIndex(cells);
        peaks := peaks + [Peak(y, m, w, cells[w])];
        assert MonthPositions(a, b + 1) == MonthPositions(a, b) + [(a, b)];
        pos := pos + [(a, b)];
      }
    }
  }

  /** The totals the second `max` compares. */
  function Totals(peaks: seq<Peak>): (ts: seq<real>)
    ensures |ts| == |peaks| && forall i :: 0 <= i < |peaks| ==> ts[i] == peaks[i].total
  {
    seq(|peaks|, i requires 0 <= i < |peaks| => peaks[i].total)
  }

  /** Taking the first wettest entry of the month peaks picks the wettest week of the table. */
  lemma PeaksSelectWettest(e: Table, peaks: seq<Peak>, pos: seq<(int, int)>, k: int)
    requires Shaped(e) && |peaks| == |pos|
    requires forall i :: 0 <= i < |pos| ==> IsPeakOf(e, peaks[i], pos[i].0, pos[i].1)
    requires forall i, j :: 0 <= i < j < |pos| ==> PosBefore(pos[i], pos[j])
    requires forall a, b :: 0 <= a < |e.keys| && 0 <= b < |e.vals[e.keys[a]].keys| ==> Listed(pos, a, b)
    requires IsFirstMax(Totals(peaks), k)
    ensures IsWettest(TableBuckets(e), pos[k].0, pos[k].1, peaks[k].week)
  {
    var B := TableBuckets(e);
    var a, b, w := pos[k].0, pos[k].1, peaks[k].week;
    assert IsPeakOf(e, peaks[k], a, b);
    assert B[a][b][w] == peaks[k].total;
    forall a', b', w' | 0 <= a' < |B| && 0 <= b' < |B[a']| && 0 <= w' < |B[a'][b']|
      ensures B[a'][b'][w'] <= B[a][b][w] && (Before(a', b', w', a, b, w) ==> B[a'][b'][w'] < B[a][b][w])
    {
      assert Listed(pos, a', b');
      var i :| 0 <= i < |pos| && pos[i] == (a', b');
      assert IsPeakOf(e, peaks[i], a', b');
      var x, top, best := B[a'][b'][w'], peaks[i].total, peaks[k].total;
      assert x <= top && (w' < peaks[i].week ==> x < top);
      assert top == Totals(peaks)[i] && best == Totals(peaks)[k];
      assert top <= best && (i < k ==> top < best);
      assert k < i ==> PosBefore(pos[k], pos[i]);
      assert i < k ==> PosBefore(pos[i], pos[k]);
    }
  }

  /** A non-empty table has some month, so the month peaks are not empty. */
  lemma PeaksCoverTable(e: Table)
    requires Shaped(e) && NoEmptyYear(e)
    ensures |Positions(e, |e.keys|)| == 0 <==> |e.keys| == 0
  {
    PositionsCover(e, |e.keys|);
    if |e.keys| > 0 {
      assert |e.vals[e.keys[0]].keys| > 0;
    }
  }

  /** The selection of `calculate_precipitation`: the first wettest week of every month,
      then the first wettest of those. `max` of an empty list raises `ValueError`,
      which is `None` here. */
  method WettestWeek(e: Table) returns (r: Option<Peak>, ghost a: int, ghost b: int)
    requires Shaped(e) && NoEmptyYear(e)
    ensures r.None? <==> |e.keys| == 0
    ensures r.Some? ==> IsPeakOf(e, r.value, a, b) && IsWettest(TableBuckets(e), a, b, r.value.week)
  {
    var peaks := MonthlyPeaks(e);
    PeaksCoverTable(e);
    if |peaks| == 0 {
      r, a, b := None, 0, 0;
    } else {
      var k := FirstMaxIndex(Totals(peaks));
      ghost var pos := Positions(e, |e.keys|);
      PositionsOrdered(e, |e.keys|);
      PositionsCover(e, |e.keys|);
      PeaksSelectWettest(e, peaks, pos, k);
      r := Some(peaks[k]);
      a, b := pos[k].0, pos[k].1;
    }
  }

  // ----- The reported date range -----

  /** `first .. last` are exactly the days of the month that lie in week `w` of its grid. */
  ghost predicate IsWeekRange(y: Year, m: Month, w: int, first: int, last: int) {
    IsDay(y, m, first) && IsDay(y, m, last) &&
    forall d :: IsDay(y, m, d) ==> (first <= d <= last <==> WeekOf(y, m, d) == w)
  }

  function Max(x: int, y: int): int { if x < y then y else x }
  function Min(x: int, y: int): int { if x < y then x else y }

  /** The first and last day of the month in week `w`: the first and last slot of the
      week that is not padding. */
  function WeekRange(y: Year, m: Month, w: int): (range: (int, int))
    requires 0 <= w < NumWeeks(y, m)
    ensures IsWeekRange(y, m, w, range.0, range.1)
  {
    var b, n := LeadingBlanks(y, m), DaysInMonth(y, m);
    (Max(1, 7 * w - b + 1), Min(n, 7 * w + 7 - b))
  }

  /** The report line as written: the day of the week's first slot and of its last slot
      go into `datetime`, which raises `ValueError` (here `None`) on a padding day 0. That
      happens exactly on the first week of a month that does not start on a Monday and on
      the last week of a month that does not end on a Sunday; otherwise the two days are
      the week's range. */
  function PrintedRangeAsWritten(y: Year, m: Month, w: int): (range: Option<(int, int)>)
    requires 0 <= w < NumWeeks(y, m)
    ensures range.None? <==> (w == 0 && LeadingBlanks(y, m) > 0) ||
                             (w == NumWeeks(y, m) - 1 && TrailingBlanks(y, m) > 0)
    ensures range.Some? ==> range.value == WeekRange(y, m, w)
  {
    GridShape(y, m);
    var week := MonthGrid(y, m)[w];
    if week[0].day == 0 || week[6].day == 0 then None else Some((week[0].day, week[6].day))
  }

  /** A single row gives one year with one month, whose only rain is the row's, in the
      week of its day. */
  lemma OneRowBuckets(row: Row)
    requires row.rrr.Some?
    ensures var t := row.cityTime;
            var B := DataBuckets([row]);
            Normalized([row]) && Years([row]) == [t.year] && MonthsOf([row], t.year) == [t.month] &&
            |B| == 1 && |B[0]| == 1 && |B[0][0]| == NumWeeks(t.year, t.month) &&
            forall w :: 0 <= w < |B[0][0]| ==>
              B[0][0][w] == if w == WeekOf(t.year, t.month, t.day) then row.rrr.value else 0.0
  {
    var data, t := [row], row.cityTime;
    var y, m := t.year, t.month;
    assert Front(data) == [] && Last(data) == row;
    assert Years(data) == [y];
    assert MonthsOf(data, y) == [m];
    var B := DataBuckets(data);
    forall w | 0 <= w < |B[0][0]|
      ensures B[0][0][w] == if w == WeekOf(y, m, t.day) then row.rrr.value else 0.0
    {
      assert B[0][0][w] == WeekSum(data, y, m, w);
      assert WeekSum(Front(data), y, m, w) == 0.0;
    }
  }

  /** A single row with some rain makes the week of its day the wettest week. */
  lemma OneRainyRow(row: Row)
    requires row.rrr.Some? && row.rrr.value > 0.0
    ensures var t := row.cityTime;
            Normalized([row]) && Years([row]) == [t.year] && MonthsOf([row], t.year) == [t.month] &&
            IsWettest(DataBuckets([row]), 0, 0, WeekOf(t.year, t.month, t.day))
  {
    var t := row.cityTime;
    var y, m, v := t.year, t.month, row.rrr.value;
    OneRowBuckets(row);
    var w := WeekOf(y, m, t.day);
    var B := DataBuckets([row]);
    forall a', b', w' | 0 <= a' < |B| && 0 <= b' < |B[a']| && 0 <= w' < |B[a'][b']|
      ensures B[a'][b'][w'] <= B[0][0][w] && (Before(a', b', w', 0, 0, w) ==> B[a'][b'][w'] < B[0][0][w])
    {
      assert a' == 0 && b' == 0;
      assert B[0][0][w] == v;
    }
  }

  /** 1 January 2020 is a Wednesday, so January 2020 spans five grid weeks, the first
      starting with two padding slots. */
  lemma JanuaryTwentyTwenty()
    ensures LeadingBlanks(2020, 1) == 2 && NumWeeks(2020, 1) == 5 && WeekOf(2020, 1, 1) == 0
  {
    assert DaysBeforeYear(2020) == 737424;
  }

  /** A rain record on 1 January 2020: the wettest week is the first week of January,
      which starts with two padding slots, so the report line as written fails, while
      that week holds 1 to 5 January. */
  lemma WettestFirstWeekFails()
    ensures var data := [Row(DateTime(2020, 1, 1, 12, 0), -1.0, 2.0, Some(1.0))];
            Normalized(data) && Years(data) == [2020] && MonthsOf(data, 2020) == [1] &&
            IsWettest(DataBuckets(data), 0, 0, 0) &&
            PrintedRangeAsWritten(2020, 1, 0).None? && WeekRange(2020, 1, 0) == (1, 5)
  {
    var row := Row(DateTime(2020, 1, 1, 12, 0), -1.0, 2.0, Some(1.0));
    OneRainyRow(row);
    JanuaryTwentyTwenty();
    FirstJanuaryWeekAsWritten();
  }

  lemma FirstJanuaryWeekAsWritten()
    ensures PrintedRangeAsWritten(2020, 1, 0).None? && WeekRange(2020, 1, 0) == (1, 5)
  {
    JanuaryTwentyTwenty();
  }

  /** Rows without rain (every `RRR` zero, as for readings that did not parse) give
      zero week totals. */
  lemma {:induction false} DryRowsDryWeeks(data: seq<Row>, y: Year, m: Month, w: int)
    requires forall i :: 0 <= i < |data| ==> data[i].rrr == Some(0.0)
    ensures Normalized(data) && WeekSum(data, y, m, w) == 0.0
  {
    if |data| > 0 {
      assert Last(data) == data[|data| - 1];
      DryRowsDryWeeks(Front(data), y, m, w);
    }
  }

  /** With no rain at all every week ties at zero, so the first week of the first month
      wins; the report line as written then fails unless that month starts on a Monday. */
  lemma DryDataPicksFirstWeek(data: seq<Row>, a: int, b: int, w: int)
    requires forall i :: 0 <= i < |data| ==> data[i].rrr == Some(0.0)
    requires Normalized(data) && IsWettest(DataBuckets(data), a, b, w)
    ensures a == 0 && b == 0 && w == 0
    ensures var y := Years(data)[0];
            var m := MonthsOf(data, y)[0];
            PrintedRangeAsWritten(y, m, 0).None? <==> LeadingBlanks(y, m) > 0
  {
    var B := DataBuckets(data);
    var y := Years(data)[0];
    SeenYearHasMonths(data, y);
    assert |B[0]| > 0 && |B[0][0]| > 0;
    forall a', b', w' | 0 <= a' < |B| && 0 <= b' < |B[a']| && 0 <= w' < |B[a'][b']|
      ensures B[a'][b'][w'] == B[0][0][0]
    {
      var y', m' := Years(data)[a'], MonthsOf(data, Years(data)[a'])[b'];
      assert B[a'][b'][w'] == WeekSum(data, y', m', w');
      DryRowsDryWeeks(data, y', m', w');
      DryRowsDryWeeks(data, y, MonthsOf(data, y)[0], 0);
    }
    EvenRainPicksFirstWeek(B, a, b, w);
  }

  // ----- The order of the observations of a month -----

  /** Two neighbouring rows of the same year, swapped, leave the year keys as they were. */
  lemma {:induction false} SwapKeepsYears(d: seq<Row>, r1: Row, r2: Row, s: seq<Row>)
    requires r1.cityTime.year == r2.cityTime.year
    ensures Years(d + [r1, r2] + s) == Years(d + [r2, r1] + s)
    decreases |s|
  {
    var x, z := d + [r1, r2] + s, d + [r2, r1] + s;
    if |s| == 0 {
      assert Front(x) == d + [r1] && Last(x) == r2 && Front(d + [r1]) == d;
      assert Front(z) == d + [r2] && Last(z) == r1 && Front(d + [r2]) == d;
    } else {
      assert Front(x) == d + [r1, r2] + Front(s) && Last(x) == Last(s);
      assert Front(z) == d + [r2, r1] + Front(s) && Last(z) == Last(s);
      SwapKeepsYears(d, r1, r2, Front(s));
    }
  }

  /** Two neighbouring rows of the same month, swapped, leave the month keys of every
      year as they were. */
  lemma {:induction false} SwapKeepsMonths(d: seq<Row>, r1: Row, r2: Row, s: seq<Row>, y: Year)
    requires r1.cityTime.year == r2.cityTime.year && r1.cityTime.month == r2.cityTime.month
    ensures MonthsOf(d + [r1, r2] + s, y) == MonthsOf(d + [r2, r1] + s, y)
    decreases |s|
  {
    var x, z := d + [r1, r2] + s, d + [r2, r1] + s;
    if |s| == 0 {
      assert Front(x) == d + [r1] && Last(x) == r2 && Front(d + [r1]) == d;
      assert Front(z) == d + [r2] && Last(z) == r1 && Front(d + [r2]) == d;
    } else {
      assert Front(x) == d + [r1, r2] + Front(s) && Last(x) == Last(s);
      assert Front(z) == d + [r2, r1] + Front(s) && Last(z) == Last(s);
      SwapKeepsMonths(d, r1, r2, Front(s), y);
    }
  }

  /** Swapping two neighbouring rows keeps both of them, so the rows stay normalised. */
  lemma SwapKeepsNormalized(d: seq<Row>, r1: Row, r2: Row, s: seq<Row>)
    requires Normalized(d + [r1, r2] + s)
    ensures Normalized(d + [r2, r1] + s)
  {
    var x, z := d + [r1, r2] + s, d + [r2, r1] + s;
    forall i | 0 <= i < |z|
      ensures z[i].rrr.Some?
    {
      var j := if i == |d| then i + 1 else if i == |d| + 1 then i - 1 else i;
      assert z[i] == x[j];
    }
  }

  /** Addition does not care about order: swapping two neighbouring rows keeps every
      week total. */
  lemma {:induction false} SwapKeepsWeekSum(d: seq<Row>, r1: Row, r2: Row, s: seq<Row>, y: Year, m: Month, w: int)
    requires Normalized(d + [r1, r2] + s)
    ensures Normalized(d + [r2, r1] + s)
    ensures WeekSum(d + [r1, r2] + s, y, m, w) == WeekSum(d + [r2, r1] + s, y, m, w)
    decreases |s|
  {
    SwapKeepsNormalized(d, r1, r2, s);
    var x, z := d + [r1, r2] + s, d + [r2, r1] + s;
    if |s| == 0 {
      assert Front(x) == d + [r1] && Last(x) == r2 && Front(d + [r1]) == d;
      assert Front(z) == d + [r2] && Last(z) == r1 && Front(d + [r2]) == d;
    } else {
      assert Front(x) == d + [r1, r2] + Front(s) && Last(x) == Last(s);
      assert Front(z) == d + [r2, r1] + Front(s) && Last(z) == Last(s);
      SwapKeepsWeekSum(d, r1, r2, Front(s), y, m, w);
    }
  }

  /** Two neighbouring rows of the same month, swapped, give the same week totals in the
      same order. */
  lemma SwapKeepsBuckets(d: seq<Row>, r1: Row, r2: Row, s: seq<Row>)
    requires Normalized(d + [r1, r2] + s)
    requires r1.cityTime.year == r2.cityTime.year && r1.cityTime.month == r2.cityTime.month
    ensures Normalized(d + [r2, r1] + s)
    ensures DataBuckets(d + [r1, r2] + s) == DataBuckets(d + [r2, r1] + s)
  {
    SwapKeepsNormalized(d, r1, r2, s);
    var x, z := d + [r1, r2] + s, d + [r2, r1] + s;
    SwapKeepsYears(d, r1, r2, s);
    var ys := Years(x);
    forall a | 0 <= a < |ys|
      ensures MonthBuckets(x, ys[a]) == MonthBuckets(z, ys[a])
    {
      var y := ys[a];
      SwapKeepsMonths(d, r1, r2, s, y);
      var ms := MonthsOf(x, y);
      forall b | 0 <= b < |ms|
        ensures WeekBuckets(x, y, ms[b]) == WeekBuckets(z, y, ms[b])
      {
        forall w | 0 <= w < NumWeeks(y, ms[b])
          ensures WeekSum(x, y, ms[b], w) == WeekSum(z, y, ms[b], w)
        {
          SwapKeepsWeekSum(d, r1, r2, s, y, ms[b], w);
        }
      }
    }
  }

  /** Swapping two neighbouring observations of the same month leaves the wettest week,
      its year, its month and its total unchanged; so an unbroken run of one month's
      observations (one day's hourly readings, say) may come in any order. */
  lemma SwapKeepsWettest(d: seq<Row>, r1: Row, r2: Row, s: seq<Row>, a: int, b: int, w: int, a': int, b': int, w': int)
    requires Normalized(d + [r1, r2] + s)
    requires r1.cityTime.year == r2.cityTime.year && r1.cityTime.month == r2.cityTime.month
    requires IsWettest(DataBuckets(d + [r1, r2] + s), a, b, w)
    ensures Normalized(d + [r2, r1] + s)
    ensures IsWettest(DataBuckets(d + [r2, r1] + s), a', b', w') ==>
              var x, z := d + [r1, r2] + s, d + [r2, r1] + s;
              a' == a && b' == b && w' == w &&
              Years(z)[a'] == Years(x)[a] &&
              MonthsOf(z, Years(z)[a'])[b'] == MonthsOf(x, Years(x)[a])[b] &&
              WeekSum(z, Years(z)[a'], MonthsOf(z, Years(z)[a'])[b'], w') == WeekSum(x, Years(x)[a], MonthsOf(x, Years(x)[a])[b], w)
  {
    SwapKeepsBuckets(d, r1, r2, s);
    var x, z := d + [r1, r2] + s, d + [r2, r1] + s;
    if IsWettest(DataBuckets(z), a', b', w') {
      WettestUnique(DataBuckets(x), a, b, w, a', b', w');
      SwapKeepsYears(d, r1, r2, s);
      var y := Years(x)[a];
      SwapKeepsMonths(d, r1, r2, s, y);
      SwapKeepsWeekSum(d, r1, r2, s, y, MonthsOf(x, y)[b], w);
    }
  }

  // ----- The whole computation -----

  /** What the report line says: the month, the first and last day of the wettest
      week, and its total. */
  datatype WeekReport = WeekReport(year: Year, month: Month, first: int, last: int, total: real)

  /** `calculate_precipitation`: build the table, choose the wettest week and report
      its range and total. No rows means `max` of an empty list, `None` here. The ghost
      outputs name the chosen year position, month position and week. The report holds
      the corrected range; the last ensures says when the line as written raises. */
  method CalculatePrecipitation(data: seq<Row>) returns (r: Option<WeekReport>, ghost a: int, ghost b: int, ghost w: int)
    requires Normalized(data)
    ensures r.None? <==> |data| == 0
    ensures r.Some? ==>
              IsWettest(DataBuckets(data), a, b, w) &&
              r.value.year == Years(data)[a] && r.value.month == MonthsOf(data, r.value.year)[b] &&
              r.value.total == WeekSum(data, r.value.year, r.value.month, w) &&
              IsWeekRange(r.value.year, r.value.month, w, r.value.first, r.value.last)
    ensures r.Some? ==>
              var y, m := r.value.year, r.value.month;
              0 <= w < NumWeeks(y, m) &&
              (PrintedRangeAsWritten(y, m, w).None? <==>
                 (w == 0 && LeadingBlanks(y, m) > 0) || (w == NumWeeks(y, m) - 1 && TrailingBlanks(y, m) > 0))
  {
    var e := PrecipitationTable(data);
    TableBucketsAreDataBuckets(e, data);
    NoRowsNoYears(data);
    var peak;
    peak, a, b := WettestWeek(e);
    if peak.None? {
      r, w := None, 0;
    } else {
      var p := peak.value;
      w := p.week;
      var range := WeekRange(p.year, p.month, p.week);
      r := Some(WeekReport(p.year, p.month, range.0, range.1, p.total));
    }
  }
}
