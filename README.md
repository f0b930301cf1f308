# Weather report of `main.py`, modelled in Dafny

`main.py` reads hourly weather observations (`city_time`, air temperature `T`,
wind speed `Ff`, precipitation `RRR`) and prints six results:

- the windiest month of every year;
- the coldest and warmest month of every year, by average daily reading;
- the coldest and warmest single observation of the whole period;
- the calendar week with the most precipitation, with its first and last day.

This project models the computing core of that script:

- `count_days_in_month`;
- the Monday-first month grid of `calendar.Calendar(firstweekday=0)`;
- `format_data` with its fallback of an unparsable `RRR` to `0.0`;
- `year_exist`;
- the monthly accumulators of `calculate_wind_on_month` and
  `calculate_temperature_of_month`, and their per-year selections;
- `calculate_precipitation`: week buckets, the wettest week of each month,
  the wettest week overall, and its date range;
- the whole-period temperature records taken in `run`.

Each part is proved against an independent brute-force definition over the
observation rows.

Modules, one file each:

- `Optional` (`option.dfy`): the result of a computation that raises in Python.
- `Dicts` (`dicts.dfy`): Python's insertion-ordered `dict`, as a key sequence
  plus a map. Assigning to an existing key keeps its place; a new key goes last.
- `Selection` (`selection.dfy`): built-in `max`/`min` with a `key`. They scan
  left to right and keep the first item on ties.
- `Calendar` (`calendar.dfy`): proleptic Gregorian month lengths and weekdays,
  and the month grid, in which padding slots hold day 0.
- `Records` (`records.dfy`): observation rows, `format_data`, and the years and
  months of the rows in first-seen order.
- `Monthly` (`monthly.dfy`): the wind and temperature reports.
- `Precipitation` (`precipitation.dfy`): the wettest-week report.
- `Extremes` (`extremes.dfy`): the coldest and warmest observation.

How the code works and what is proved about it:

- **Per-year tables.** Every loop that fills a per-year table is a `method`.
  Its invariant says the table holds exactly the brute-force sums of the rows
  seen so far, with keys in first-seen order. One pass of the loop body is a
  function with a step lemma.
- **Monthly reports.** The wind and temperature methods return one line per
  year, in first-seen order. Each line names the month that is the first-seen
  maximum (or minimum) of that year's brute-force averages.
- **Wettest week.** The method returns `None` exactly when there are no rows.
  Otherwise it returns the unique wettest week in the source's iteration
  order: an earlier year, an earlier month of that year, or an earlier week of
  that month must have strictly less rain. It also returns the first and last
  day of the month that fall in that week.

## Model

| member | source | states |
|---|---|---|
| Calendar.IsLeapYear | main.py:56 | the leap rule inside `calendar.monthrange`: divisible by 4, and not by 100 unless by 400; no contract of its own, its meaning is carried by `DaysInMonth` (February has 29 days exactly in a leap year) and `YearsTileDays` (366 days exactly in a leap year) |
| Calendar.DaysInMonth | main.py:52-56 | 31 days for January, March, May, July, August, October, December; 30 for April, June, September, November; February has 29 days exactly in a leap year, else 28 |
| Calendar.MonthsTileYear | main.py:52-56 | each month starts the day after the previous one ends, and the twelve months fill the year |
| Calendar.YearsTileDays | main.py:123 | the day count of consecutive years adds up, a year having 366 days exactly when it is a leap year |
| Calendar.Weekday | main.py:123 | every date has a weekday column from Monday = 0 to Sunday = 6 |
| Calendar.NextMonthWeekday | main.py:123 | the first of the next month (also across New Year) falls the month's length in weekdays after the first of this month |
| Calendar.NumWeeks | main.py:123 | a month grid has four to six weeks and its padded days fill whole weeks |
| Calendar.WeekOf | main.py:123-126 | every day of the month has a week index inside the grid |
| Calendar.MonthDays | main.py:123 | the padded days of `itermonthdays` with `firstweekday=0`: zeros for the weekdays before the 1st, the days 1 to n, zeros to the end of the last week; no contract of its own, `MonthDaysAt` states its length and contents |
| Calendar.MonthDays2 | main.py:123 | `itermonthdays2`: each padded day paired with its weekday column; no contract of its own, `SlotsAt` states slot i holds the i-th padded day in column i mod 7 |
| Calendar.MonthGrid | main.py:123 | `monthdays2calendar`: the paired days cut into weeks of seven; no contract of its own, `GridShape` and `GridSlot` state its shape and every slot |
| Calendar.MonthDaysAt | main.py:123 | the padded days of a month are its leading blanks, the days 1 to n and the trailing blanks, a whole number of weeks |
| Calendar.GridSlot | main.py:123-126 | slot j of week w of the grid holds the (7w+j)-th padded day in weekday column j |
| Calendar.GridShape | main.py:123-126 | the grid has NumWeeks weeks of seven slots; slot j of week w holds the (7w+j)-th padded day in weekday column j |
| Calendar.DayInExactlyOneSlot | main.py:123-126 | every day of the month appears in exactly one slot of the grid, at week WeekOf and column ColumnOf |
| Calendar.WeekOfMonotone | main.py:123-126 | day 1 is in week 0, the last day in the last week, and a later day is never in an earlier week |
| Calendar.NoEmptyWeek | main.py:123-126 | every week of the grid holds at least one day of the month |
| Records.ParsePrecipitation | main.py:31-34 | the try/except of `format_data`: a parsed `RRR` is kept, one that `float()` rejects with `ValueError` becomes 0.0; no contract of its own, `Normalize` states it |
| Records.Normalize | main.py:31-34 | after normalisation RRR always holds a number: a parsed value is kept, an unparsable one becomes 0.0, and no other column changes |
| Records.NormalizeIdempotent | main.py:26-34 | normalising a row twice is normalising it once |
| Records.FormatData | main.py:26-34 | every row of the array is replaced in place by its normalised form, so afterwards every RRR holds a number |
| Records.YearsExact | main.py:64-72 | the year keys list each year once, and exactly the years some row has |
| Records.MonthsExact | main.py:64-72 | the month keys of a year list each month once, and exactly the months some row of that year has |
| Records.YearsGrowByPrefix | main.py:64-72 | the years of any prefix of the rows are a prefix of all years: keys are in first-seen order |
| Records.MonthsGrowByPrefix | main.py:64-72 | the months of a year of any prefix of the rows are a prefix of its months: first-seen order |
| Records.AbsentYearHasNoMonths | main.py:37-45 | a year no row has has no month entries |
| Records.SeenYearHasMonths | main.py:74-76 | every year in the table has at least one month, so the per-year max/min never meets an empty dict |
| Records.NoRowsNoYears | main.py:137-145 | the table has some year exactly when there is some row |
| Dicts.Put | main.py:72 | the store `d[k] = v` (also main.py:94, 131 and 135): the dict stays consistent, its keys distinct and exactly the stored ones; `PutStores` states the new contents and order |
| Dicts.PutStores | main.py:72 | after `d[k] = v` the key holds `v`, every other key keeps its value, the old keys keep their order and a new key goes last |
| Selection.FirstMaxIndex | main.py:76 | the index chosen by max holds a largest value, and every earlier value is strictly smaller |
| Selection.FirstMinIndex | main.py:98 | the index chosen by min holds a smallest value, and every earlier value is strictly larger |
| Selection.FirstMaxUnique | main.py:76 | only one index satisfies the first-maximum property: the choice is determined |
| Selection.FirstMinUnique | main.py:98 | only one index satisfies the first-minimum property |
| Selection.AllEqualFirstWins | main.py:76 | when all values are equal, max and min pick the first item |
| Monthly.MonthSumIsTotalOverDays | main.py:68-70 | adding each reading divided by the month length gives the month's total reading over the number of days |
| Monthly.AbsentMonthSumsToZero | main.py:37-45 | the brute-force sum of a month without rows is 0, the value a new `defaultdict(int)` cell starts from |
| Monthly.TwoJanuaryRowsWind | main.py:64-72 | two January 2020 rows with wind 2 and 10 give the January cell 2/31 + 10/31 |
| Monthly.MaxMonthUnique | main.py:76 | two months that both are the first-seen largest cell of a year are the same |
| Monthly.MinMonthUnique | main.py:98 | two months that both are the first-seen smallest cell of a year are the same |
| Monthly.MinMonthNotAboveMaxMonth | main.py:96-104 | the coldest month's cell never exceeds the warmest month's cell |
| Monthly.YearOrEmpty | main.py:37-45 | year_exist returns the year's month table if the year was seen, else an empty one |
| Monthly.AddToYear | main.py:66-70 | the year part of one loop pass, `year[month] += reading / days` on a cell that starts at 0; no contract of its own, `AddToYearEntry` states it yields the year's brute-force cells over the longer rows |
| Monthly.AddReading | main.py:66-72 | one whole pass of the loop body, storing the updated year back; no contract of its own, `AddReadingStep` states it turns the table of the rows before into the table of the longer rows |
| Monthly.AddToYearEntry | main.py:66-72 | adding a row to its year's entry yields the months and cells of that year over the longer rows |
| Monthly.OtherYearUnchanged | main.py:64-72 | a row leaves every other year's months and cells as they were |
| Monthly.AddReadingStep | main.py:64-72 | one pass of the accumulation loop turns the table of the rows before into the table of the longer rows |
| Monthly.MonthlyTable | main.py:64-72 | the accumulation loop ends with exactly the brute-force cells of all rows, keys in first-seen order |
| Monthly.MaxMonth | main.py:76 | the chosen month is a key whose cell is the largest, every earlier key's cell being strictly smaller |
| Monthly.MinMonth | main.py:98 | the chosen month is a key whose cell is the smallest, every earlier key's cell being strictly larger |
| Monthly.TableMax | main.py:74-76 | max over a year's table entry is the brute-force windiest (largest) month of that year, with its average |
| Monthly.TableMin | main.py:96-98 | min over a year's table entry is the brute-force smallest month of that year, with its average |
| Monthly.WindLineOf | main.py:74-78 | the line built from the k-th year entry names the k-th year seen and its brute-force windiest month |
| Monthly.TemperatureLinesOf | main.py:96-104 | the lines built from the k-th year entry name the k-th year seen and its brute-force coldest and warmest months, the first not above the second |
| Monthly.WindOnMonth | main.py:59-78 | one line per year in first-seen order, naming the month with the largest average wind speed and that average |
| Monthly.TemperatureOfMonth | main.py:81-104 | one pair of lines per year in first-seen order: the coldest and warmest month by average temperature, the first not above the second |
| Precipitation.WeeksTotalStep | main.py:133 | a row adds its RRR to the weeks' running total exactly when its day falls in one of those weeks of its month |
| Precipitation.WeeksPartitionMonth | main.py:121-133 | every row of a month lands in exactly one week, so the week totals add up to the month's rain |
| Precipitation.AbsentMonthIsDry | main.py:128-131 | a month without rows has zero rain in every week |
| Precipitation.WeekMask | main.py:121-126 | the mask gives one zero total per week of the grid and maps every day of the month to its week index |
| Precipitation.AddRainToYear | main.py:116-133 | the year part of one loop pass: a new month gets the zero week totals, then the row's `RRR` is added to its week; no contract of its own, `YearAdd` and `YearOther` state its effect |
| Precipitation.AddRain | main.py:116-135 | one whole pass of the loop body, storing the updated year back; no contract of its own, `AddRainStep` states it turns the table of the rows before into the table of the longer rows |
| Precipitation.CellsOther | main.py:133 | a row leaves the week totals of every other month right |
| Precipitation.CellsAdd | main.py:133 | adding the row's RRR to its day's week keeps its month's week totals right |
| Precipitation.CellsFresh | main.py:128-131 | the zero totals installed for a first-seen month are its week totals |
| Precipitation.YearOther | main.py:133-135 | a row leaves every other year's months and week totals right |
| Precipitation.YearAdd | main.py:116-135 | one pass leaves the row's year with the months and week totals of the longer rows |
| Precipitation.AddRainStep | main.py:113-135 | one pass of the loop turns the table of the rows before into the table of the longer rows |
| Precipitation.PrecipitationTable | main.py:111-135 | the loop ends with exactly the brute-force week totals of every month seen, keys in first-seen order |
| Precipitation.TableBucketsAreDataBuckets | main.py:137-141 | the table's totals, read in dict order, are the brute-force totals by year, month and week, and no year is empty |
| Precipitation.WettestUnique | main.py:137-145 | only one week can be the wettest: largest total, everything met before it strictly smaller |
| Precipitation.EvenRainPicksFirstWeek | main.py:141-145 | when every week has the same total, the first week of the first month wins |
| Precipitation.PositionsOrdered | main.py:137-141 | the month entries are listed in strictly increasing year-then-month order, all of them valid |
| Precipitation.PositionsCover | main.py:137-141 | every month of the table has an entry in the list |
| Precipitation.MonthlyPeaks | main.py:137-141 | the list holds, for every month in table order, the month's first wettest week and its total |
| Precipitation.PeaksSelectWettest | main.py:137-145 | the first largest entry of the month list is the wettest week of the whole table |
| Precipitation.PeaksCoverTable | main.py:137-145 | the month list is empty exactly when the table is |
| Precipitation.WettestWeek | main.py:137-145 | None exactly for an empty table; otherwise the chosen entry is its month's first wettest week and the wettest week overall |
| Precipitation.WeekRange | main.py:146-151 | the reported first and last days are days of the month, and a day lies between them exactly when it is in the chosen week |
| Precipitation.PrintedRangeAsWritten | main.py:146-151 | the report line fails exactly on the first week of a month not starting on Monday or the last week of a month not ending on Sunday; otherwise it prints the week's range |
| Precipitation.OneRowBuckets | main.py:113-135 | a single row gives one year, one month, and rain only in the week of its day |
| Precipitation.OneRainyRow | main.py:137-145 | a single row with rain makes the week of its day the wettest week |
| Precipitation.JanuaryTwentyTwenty | main.py:123 | 1 January 2020 is a Wednesday, so January 2020 has five grid weeks and day 1 in week 0 |
| Precipitation.WettestFirstWeekFails | main.py:150 | one rainy row on 1 January 2020 makes week 0 the wettest; the report line as written fails there, while the week holds 1 to 5 January |
| Precipitation.FirstJanuaryWeekAsWritten | main.py:150 | for week 0 of January 2020 the line as written fails and the range is 1 to 5 |
| Precipitation.DryRowsDryWeeks | main.py:133 | rows whose RRR are all zero give zero week totals |
| Precipitation.DryDataPicksFirstWeek | main.py:141-150 | with no rain at all the first week of the first month wins, and the line as written fails there exactly when that month does not start on a Monday |
| Precipitation.SwapKeepsYears | main.py:113-135 | swapping two neighbouring rows of the same year leaves the year keys and their order unchanged |
| Precipitation.SwapKeepsMonths | main.py:113-135 | swapping two neighbouring rows of the same month leaves every year's month keys and their order unchanged |
| Precipitation.SwapKeepsWeekSum | main.py:133 | swapping two neighbouring rows changes no week total |
| Precipitation.SwapKeepsBuckets | main.py:113-141 | swapping two neighbouring rows of the same month gives the same week totals in the same order |
| Precipitation.SwapKeepsWettest | main.py:137-145 | swapping two neighbouring observations of the same month leaves the wettest week, its year, month and total unchanged, so an unbroken run of one month's observations (one day's hourly readings in file order) may come in any order |
| Precipitation.CalculatePrecipitation | main.py:107-151 | None exactly when there are no rows; otherwise the unique wettest week with its month, its brute-force total, and the first and last day of the month in that week; the line as written raises exactly when that week is the first week of a month not starting on Monday or the last week of a month not ending on Sunday |
| Extremes.ColdestRow | main.py:162 | None exactly for no rows; otherwise the first row with the lowest temperature |
| Extremes.WarmestRow | main.py:165 | None exactly for no rows; otherwise the first row with the highest temperature |
| Extremes.ColdestNotAboveWarmest | main.py:162-166 | both records are rows of the data, and the coldest reading is not above the warmest |
| Extremes.ColdestIsUnique | main.py:162 | any row that is the first coldest is the reported one |
| Extremes.WarmestIsUnique | main.py:165 | any row that is the first warmest is the reported one |
| Extremes.RecordsIgnoreNormalization | main.py:156-165 | normalising RRR first does not change which rows are the records |
| Extremes.TwoJanuaryRows | main.py:162-166 | of 5.0 on 1 January 2020 and -3.0 on 15 January 2020, the second is the coldest row and the first the warmest |

## Left out

- `read_csv` (main.py:15-23) is not modelled: it does file I/O and CSV parsing. The model starts from a sequence of rows.
- The timestamp, `T` and `Ff` columns arrive already parsed. Row `cityTime` is restricted to real dates.
  - A malformed timestamp, `T` or `Ff` makes `format_data` raise; that is not modelled.
  - An `RRR` that `float()` rejects with `ValueError` is modelled, as `None` before normalisation; it becomes 0.0.
  - A missing `RRR` (an absent column or a short line, which `DictReader` fills with Python's `None`) makes `float(None)` raise `TypeError`. `except ValueError` does not catch it, so `format_data` fails; that failure is not modelled.
- Printing is not modelled: the reports are values. This covers `print`, `format_float` (rounding to two decimals), `calendar.month_name` and the date formatting.
- Floating point is modelled as exact `real` arithmetic, so rounding error in the sums is not captured. In particular, `SwapKeepsWettest` (the order of an unbroken run of a month's observations does not matter) holds exactly only for exact sums; with floats the totals may differ in the last bits.
- `run` (main.py:154-168) and the `__main__` guard are not modelled as one method. Each step they sequence is modelled.
- Keys and in-place updates are modelled as values:
  - The wind and temperature tables key years by `str(year)`; the model keys them by the year number. The key order is the same.
  - The `year` dict taken from `e` is mutated in place and stored back. The model writes the updated entry with `Put`, which gives the same keys, values and order.
- The per-row day-to-week map also maps the padding day 0. Only real days are ever looked up, so `WeekMask` states only those.
- The week table is modelled as a sequence indexed by week number. In the source it is a `defaultdict` with keys 0 to the number of weeks minus 1, inserted in that order.
- The loop at main.py:146-148 walks every week of the grid and prints only at the chosen one. `PrintedRangeAsWritten` indexes the grid at that week directly.
- With no rows at all, the source's `max` of an empty list raises `ValueError`. So do `min`/`max` over the rows. The model returns `None` in these cases.
- Tie-breaking follows the code: the first-seen year, then the first-seen month of that year, then the lower week. This is not ascending month order. The months of a year are in the order their first rows appear.
- `CalculatePrecipitation` reports the corrected range `WeekRange`, not the failing `datetime` call (see Findings).
- Precipitation.SwapKeepsWettest: covers only swaps of neighbouring observations of the same month, so it reaches every order of an unbroken run of one month's observations but not reorderings across other months' observations (such as moving a January row past a February row and back).

## Findings

| source | as written | input that shows it | evidently intended | confidence | as-written member | corrected member |
|---|---|---|---|---|---|---|
| main.py:150 | the days in the first and last slot of the chosen grid week, `week[0][0]` and `week[-1][0]`, are passed to `datetime`, and a padding slot holds day 0, which `datetime` rejects with `ValueError` | one row on 01.01.2020 with RRR 1.0: 1 January 2020 is a Wednesday, so the wettest week is week 0 of January, whose first slot is padding (`WettestFirstWeekFails`); a period with no rain at all fails the same way unless its first month starts on a Monday (`DryDataPicksFirstWeek`) | report the first and last day of the month that fall in the week (1 – 5 January 2020 here) | not executed | Precipitation.PrintedRangeAsWritten | Precipitation.WeekRange |
