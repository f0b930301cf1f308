/**
 The proleptic Gregorian calendar as the weather report uses it: month
 lengths (`calendar.monthrange`), the weekday of a date (`datetime.date.weekday`,
 Monday = 0) and the Monday-first month grid (`Calendar(firstweekday=0)
 .monthdays2calendar`), where the month is laid out as weeks of seven
 (day, weekday) slots and the slots outside the month hold day 0.
 */
module Calendar {

  /** The years a `datetime` can hold. */
  type Year = y: int | 1 <= y <= 9999 witness 1
  type Month = m: int | 1 <= m <= 12 witness 1

  predicate IsLeapYear(y: int) {
    y % 4 == 0 && (y % 100 != 0 || y % 400 == 0)
  }

  /** Number of days of month `m` of year `y`: the table of month lengths,
      plus one for February of a leap year. */
  function DaysInMonth(y: Year, m: Month): (n: int)
    ensures m == 1 || m == 3 || m == 5 || m == 7 || m == 8 || m == 10 || m == 12 ==> n == 31
    ensures m == 4 || m == 6 || m == 9 || m == 11 ==> n == 30
    ensures m == 2 ==> (n == 29 <==> IsLeapYear(y)) && (n == 28 <==> !IsLeapYear(y))
  {
    [0, 31, 28, 31, 30, 31, 30, 31, 31, 30, 31, 30, 31][m] + (if m == 2 && IsLeapYear(y) then 1 else 0)
  }

  predicate IsDay(y: Year, m: Month, d: int) {
    1 <= d <= DaysInMonth(y, m)
  }

  function DaysInYear(y: Year): int {
    if IsLeapYear(y) then 366 else 365
  }

  /** Days in the years before `y` (day 1 is 1 January of year 1). */
  function DaysBeforeYear(y: Year): nat {
    var p := y - 1;
    p * 365 + p / 4 - p / 100 + p / 400
  }

  /** Days in the months of year `y` before month `m`. */
  function DaysBeforeMonth(y: Year, m: Month): nat {
    [0, 0, 31, 59, 90, 120, 151, 181, 212, 243, 273, 304, 334][m] + (if m > 2 && IsLeapYear(y) then 1 else 0)
  }

  /** Proleptic Gregorian ordinal of a date: 1 January of year 1 is day 1. */
  function Ordinal(y: Year, m: Month, d: int): int {
    DaysBeforeYear(y) + DaysBeforeMonth(y, m) + d
  }

  /** Day of the week, Monday = 0 .. Sunday = 6 (1 January of year 1 was a Monday). */
  function Weekday(y: Year, m: Month, d: int): (w: int)
    ensures 0 <= w < 7
  {
    (Ordinal(y, m, d) + 6) % 7
  }

  /** The months of a year tile the year: each starts the day after the previous one ends. */
  lemma MonthsTileYear(y: Year, m: Month)
    ensures m < 12 ==> DaysBeforeMonth(y, m + 1) == DaysBeforeMonth(y, m) + DaysInMonth(y, m)
    ensures m == 12 ==> DaysBeforeMonth(y, m) + DaysInMonth(y, m) == DaysInYear(y)
  {
  }

  /** Consecutive years tile the day count: a year has 366 days exactly when it is a leap year. */
  lemma {:induction false} YearsTileDays(y: Year)
    requires y < 9999
    ensures DaysBeforeYear(y + 1) == DaysBeforeYear(y) + DaysInYear(y)
  {
    var p := y - 1;
    assert y / 4 == p / 4 + (if y % 4 == 0 then 1 else 0);
    assert y / 100 == p / 100 + (if y % 100 == 0 then 1 else 0);
    assert y / 400 == p / 400 + (if y % 400 == 0 then 1 else 0);
  }

  /** The first of the next month falls `DaysInMonth` weekdays after the first of this
      month, across a year boundary too. */
  lemma NextMonthWeekday(y: Year, m: Month)
    requires m == 12 ==> y < 9999
    ensures m < 12 ==> Weekday(y, m + 1, 1) == (Weekday(y, m, 1) + DaysInMonth(y, m)) % 7
    ensures m == 12 ==> Weekday(y + 1, 1, 1) == (Weekday(y, m, 1) + DaysInMonth(y, m)) % 7
  {
    MonthsTileYear(y, m);
    var n := DaysInMonth(y, m);
    var o := Ordinal(y, m, 1);
    if m == 12 {
      YearsTileDays(y);
      assert Ordinal(y + 1, 1, 1) == o + n;
    } else {
      assert Ordinal(y, m + 1, 1) == o + n;
    }
    ModShift(o + 6, n);
  }

  lemma ModShift(a: int, n: int)
    ensures (a + n) % 7 == (a % 7 + n) % 7
  {
    var q := a / 7;
    assert a == 7 * q + a % 7;
    assert (a + n) == 7 * q + (a % 7 + n);
  }

  // ----- The Monday-first month grid -----

  /** A grid slot: a day of the month (0 for padding) and its weekday column. */
  datatype Slot = Slot(day: int, weekday: int)

  /** Padding slots before day 1: the weekday of the 1st, as weeks start on Monday. */
  function LeadingBlanks(y: Year, m: Month): (k: int)
    ensures 0 <= k < 7
  {
    Weekday(y, m, 1)
  }

  /** Padding slots after the last day, up to the end of the last week. */
  function TrailingBlanks(y: Year, m: Month): (k: int)
    ensures 0 <= k < 7
  {
    (0 - Weekday(y, m, 1) - DaysInMonth(y, m)) % 7
  }

  function Blanks(k: nat): seq<int> {
    seq(k, _ => 0)
  }

  /** The days of the month in grid order, padded with zeros to whole weeks. */
  function MonthDays(y: Year, m: Month): seq<int> {
    Blanks(LeadingBlanks(y, m)) + seq(DaysInMonth(y, m), i => i + 1) + Blanks(TrailingBlanks(y, m))
  }

  /** The padded days paired with their weekday column. */
  function MonthDays2(y: Year, m: Month): seq<Slot> {
    var days := MonthDays(y, m);
    seq(|days|, i requires 0 <= i < |days| => Slot(days[i], i % 7))
  }

  /** The padded days cut into weeks of seven slots. */
  function MonthGrid(y: Year, m: Month): seq<seq<Slot>> {
    var slots := MonthDays2(y, m);
    seq(|slots| / 7, w requires 0 <= w < |slots| / 7 => slots[7 * w .. 7 * w + 7])
  }

  /** The content of slot `i` (counted from the top-left corner) of the grid. */
  function DayAt(y: Year, m: Month, i: int): int {
    var b := LeadingBlanks(y, m);
    if b <= i < b + DaysInMonth(y, m) then i - b + 1 else 0
  }

  /** Number of weeks of the grid: the padded days are a whole number of weeks. */
  function NumWeeks(y: Year, m: Month): (k: int)
    ensures 4 <= k <= 6
    ensures 7 * k == LeadingBlanks(y, m) + DaysInMonth(y, m) + TrailingBlanks(y, m)
  {
    (LeadingBlanks(y, m) + DaysInMonth(y, m) + TrailingBlanks(y, m)) / 7
  }

  /** Week index of day `d`: the row of the grid that holds it. */
  function WeekOf(y: Year, m: Month, d: int): (w: int)
    ensures IsDay(y, m, d) ==> 0 <= w < NumWeeks(y, m)
  {
    (LeadingBlanks(y, m) + d - 1) / 7
  }

  /** Column of day `d` in its week. */
  function ColumnOf(y: Year, m: Month, d: int): int {
    (LeadingBlanks(y, m) + d - 1) % 7
  }

  /** The padded days are the leading blanks, the days 1 .. n and the trailing blanks. */
  lemma MonthDaysAt(y: Year, m: Month)
    ensures |MonthDays(y, m)| == 7 * NumWeeks(y, m)
    ensures forall i :: 0 <= i < |MonthDays(y, m)| ==> MonthDays(y, m)[i] == DayAt(y, m, i)
  {
    var b, n, a := LeadingBlanks(y, m), DaysInMonth(y, m), TrailingBlanks(y, m);
    var days := MonthDays(y, m);
    forall i | 0 <= i < |days|
      ensures days[i] == DayAt(y, m, i)
    {
      if i < b {
        assert days[i] == Blanks(b)[i];
      } else if i < b + n {
        assert days[i] == seq(n, k => k + 1)[i - b];
      } else {
        assert days[i] == Blanks(a)[i - b - n];
      }
    }
  }

  /** The grid has between four and six weeks of seven slots each, and slot `j` of
      week `w` holds the `7 * w + j`-th padded day, in weekday column `j`. */
  lemma GridShape(y: Year, m: Month)
    ensures |MonthGrid(y, m)| == NumWeeks(y, m)
    ensures 4 <= NumWeeks(y, m) <= 6
    ensures forall w :: 0 <= w < NumWeeks(y, m) ==> |MonthGrid(y, m)[w]| == 7
    ensures forall w, j :: 0 <= w < NumWeeks(y, m) && 0 <= j < 7 ==>
              MonthGrid(y, m)[w][j] == Slot(DayAt(y, m, 7 * w + j), j)
  {
    forall w, j | 0 <= w < NumWeeks(y, m) && 0 <= j < 7
      ensures |MonthGrid(y, m)[w]| == 7 && MonthGrid(y, m)[w][j] == Slot(DayAt(y, m, 7 * w + j), j)
    {
      GridSlot(y, m, w, j);
    }
  }

  /** Slot `j` of week `w` of the grid. */
  lemma GridSlot(y: Year, m: Month, w: int, j: int)
    requires 0 <= w < NumWeeks(y, m) && 0 <= j < 7
    ensures |MonthGrid(y, m)| == NumWeeks(y, m) && |MonthGrid(y, m)[w]| == 7
    ensures MonthGrid(y, m)[w][j] == Slot(DayAt(y, m, 7 * w + j), j)
  {
    SlotsAt(y, m);
    var slots := MonthDays2(y, m);
    assert |slots| / 7 == NumWeeks(y, m);
    var week := MonthGrid(y, m)[w];
    assert week == slots[7 * w .. 7 * w + 7];
    assert week[j] == slots[7 * w + j];
    DivSeven(w, j);
  }

  /** The padded days paired with their weekday columns. */
  lemma SlotsAt(y: Year, m: Month)
    ensures |MonthDays2(y, m)| == 7 * NumWeeks(y, m)
    ensures forall i :: 0 <= i < |MonthDays2(y, m)| ==> MonthDays2(y, m)[i] == Slot(DayAt(y, m, i), i % 7)
  {
    MonthDaysAt(y, m);
  }

  lemma DivSeven(w: int, j: int)
    requires 0 <= j < 7
    ensures (7 * w + j) % 7 == j && (7 * w + j) / 7 == w
  {
  }

  /** Every day of the month appears in exactly one slot of the grid: slot
      `ColumnOf(d)` of week `WeekOf(d)`. */
  lemma DayInExactlyOneSlot(y: Year, m: Month, d: int)
    requires IsDay(y, m, d)
    ensures 0 <= WeekOf(y, m, d) < NumWeeks(y, m) && 0 <= ColumnOf(y, m, d) < 7
    ensures MonthGrid(y, m)[WeekOf(y, m, d)][ColumnOf(y, m, d)].day == d
    ensures forall w, j :: 0 <= w < NumWeeks(y, m) && 0 <= j < 7 && MonthGrid(y, m)[w][j].day == d ==>
              w == WeekOf(y, m, d) && j == ColumnOf(y, m, d)
  {
    GridShape(y, m);
    var b := LeadingBlanks(y, m);
    assert 7 * WeekOf(y, m, d) + ColumnOf(y, m, d) == b + d - 1;
    forall w, j | 0 <= w < NumWeeks(y, m) && 0 <= j < 7 && MonthGrid(y, m)[w][j].day == d
      ensures w == WeekOf(y, m, d) && j == ColumnOf(y, m, d)
    {
      assert DayAt(y, m, 7 * w + j) == d;
      assert 7 * w + j == b + d - 1;
    }
  }

  /** Week indices follow the days: day 1 is in week 0, the last day in the last
      week, and a later day is never in an earlier week. */
  lemma WeekOfMonotone(y: Year, m: Month, d: int, d': int)
    requires IsDay(y, m, d) && IsDay(y, m, d') && d <= d'
    ensures WeekOf(y, m, 1) == 0
    ensures WeekOf(y, m, DaysInMonth(y, m)) == NumWeeks(y, m) - 1
    ensures WeekOf(y, m, d) <= WeekOf(y, m, d')
  {
    GridShape(y, m);
  }

  /** Every week of the grid holds at least one day of the month. */
  lemma NoEmptyWeek(y: Year, m: Month, w: int)
    requires 0 <= w < NumWeeks(y, m)
    ensures exists d :: IsDay(y, m, d) && WeekOf(y, m, d) == w
  {
    GridShape(y, m);
    var b, n := LeadingBlanks(y, m), DaysInMonth(y, m);
    var d := if 7 * w < b then 1 else if 7 * w - b + 1 <= n then 7 * w - b + 1 else n;
    assert IsDay(y, m, d) && WeekOf(y, m, d) == w;
  }
}
