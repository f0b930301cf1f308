/**
 The observation rows of `data.csv` and their normalisation (`format_data`),
 plus the grouping of rows by year and month that every aggregation uses:
 the years in the order the rows first show them, the months of a year in
 the same order.
 */
module Records {
  import opened Calendar
  import opened Optional
  import opened Dicts

  datatype DateTime = DateTime(year: Year, month: Month, day: int, hour: int, minute: int)

  /** What `datetime.strptime(_, '%d.%m.%Y %H:%M')` can return: a real calendar date. */
  type Timestamp = t: DateTime | IsDay(t.year, t.month, t.day) && 0 <= t.hour < 24 && 0 <= t.minute < 60
    witness DateTime(1, 1, 1, 0, 0)

  /** One row: `city_time`, `T` and `Ff` as parsed, and `RRR` as `float()` left it,
      `None` when it raised `ValueError`. */
  datatype Row = Row(cityTime: Timestamp, t: real, ff: real, rrr: Option<real>)

  /** The precipitation fallback: a reading that did not parse counts as no rain. */
  function ParsePrecipitation(raw: Option<real>): real {
    match raw
    case Some(v) => v
    case None => 0.0
  }

  /** The row after `format_data`: only `RRR` changes, and it always holds a number. */
  function Normalize(r: Row): (n: Row)
    ensures n.rrr.Some?
    ensures n.cityTime == r.cityTime && n.t == r.t && n.ff == r.ff
    ensures r.rrr.Some? ==> n == r
    ensures r.rrr.None? ==> n.rrr == Some(0.0)
  {
    r.(rrr := Some(ParsePrecipitation(r.rrr)))
  }

  /** Every row has gone through `format_data`. */
  predicate Normalized(data: seq<Row>) {
    forall i :: 0 <= i < |data| ==> data[i].rrr.Some?
  }

  /** Normalising twice is normalising once. */
  lemma NormalizeIdempotent(r: Row)
    ensures Normalize(Normalize(r)) == Normalize(r)
  {
  }

  /** `format_data`: every row is overwritten in place by its normalised form. */
  method FormatData(data: array<Row>)
    modifies data
    ensures forall i :: 0 <= i < data.Length ==> data[i] == Normalize(old(data[i]))
    ensures Normalized(data[..])
  {
    for i := 0 to data.Length
      invariant forall k :: 0 <= k < i ==> data[k] == Normalize(old(data[k]))
      invariant forall k :: i <= k < data.Length ==> data[k] == old(data[k])
    {
      data[i] := Normalize(data[i]);
    }
  }

  // ----- Grouping by year and month, in first-seen order -----

  function Last(data: seq<Row>): Row
    requires |data| > 0
  {
    data[|data| - 1]
  }

  function Front(data: seq<Row>): seq<Row>
    requires |data| > 0
  {
    data[..|data| - 1]
  }

  /** The years of the rows, each once, in the order they first appear. */
  function Years(data: seq<Row>): seq<Year> {
    if |data| == 0 then []
    else
      var ys := Years(Front(data));
      var y := Last(data).cityTime.year;
      if y in ys then ys else ys + [y]
  }

  /** The months of year `y` among the rows, each once, in the order they first appear. */
  function MonthsOf(data: seq<Row>, y: Year): seq<Month> {
    if |data| == 0 then []
    else
      var ms := MonthsOf(Front(data), y);
      var t := Last(data).cityTime;
      if t.year != y || t.month in ms then ms else ms + [t.month]
  }

  predicate HasYear(data: seq<Row>, y: Year) {
    exists i :: 0 <= i < |data| && data[i].cityTime.year == y
  }

  predicate HasMonth(data: seq<Row>, y: Year, m: Month) {
    exists i :: 0 <= i < |data| && data[i].cityTime.year == y && data[i].cityTime.month == m
  }

  /** Each year is listed once, and exactly the years some row has are listed. */
  lemma {:induction false} YearsExact(data: seq<Row>)
    ensures Distinct(Years(data))
    ensures forall y :: y in Years(data) <==> HasYear(data, y)
  {
    if |data| > 0 {
      YearsExact(Front(data));
      forall y ensures y in Years(data) <==> HasYear(data, y) {
        if HasYear(data, y) {
          var i :| 0 <= i < |data| && data[i].cityTime.year == y;
          if i < |data| - 1 {
            assert Front(data)[i] == data[i];
            assert HasYear(Front(data), y);
          }
        }
        if HasYear(Front(data), y) {
          var i :| 0 <= i < |data| - 1 && Front(data)[i].cityTime.year == y;
          assert data[i] == Front(data)[i];
        }
      }
    }
  }

  /** Each month of a year is listed once, and exactly the months some row of that
      year has are listed: a month without rows gets no entry. */
  lemma {:induction false} MonthsExact(data: seq<Row>, y: Year)
    ensures Distinct(MonthsOf(data, y))
    ensures forall m :: m in MonthsOf(data, y) <==> HasMonth(data, y, m)
  {
    if |data| > 0 {
      MonthsExact(Front(data), y);
      forall m ensures m in MonthsOf(data, y) <==> HasMonth(data, y, m) {
        if HasMonth(data, y, m) {
          var i :| 0 <= i < |data| && data[i].cityTime.year == y && data[i].cityTime.month == m;
          if i < |data| - 1 {
            assert Front(data)[i] == data[i];
            assert HasMonth(Front(data), y, m);
          }
        }
        if HasMonth(Front(data), y, m) {
          var i :| 0 <= i < |data| - 1 && Front(data)[i].cityTime.year == y && Front(data)[i].cityTime.month == m;
          assert data[i] == Front(data)[i];
        }
      }
    }
  }

  /** First-seen order: the years of any prefix of the rows are a prefix of the years
      of all rows, so a year listed earlier appeared earlier. */
  lemma {:induction false} YearsGrowByPrefix(data: seq<Row>, k: int)
    requires 0 <= k <= |data|
    ensures Years(data[..k]) <= Years(data)
    decreases |data|
  {
    if k < |data| {
      assert Front(data) == data[..|data| - 1];
      assert data[..k] == Front(data)[..k];
      YearsGrowByPrefix(Front(data), k);
    } else {
      assert data[..k] == data;
    }
  }

  /** First-seen order for the months of a year. */
  lemma {:induction false} MonthsGrowByPrefix(data: seq<Row>, y: Year, k: int)
    requires 0 <= k <= |data|
    ensures MonthsOf(data[..k], y) <= MonthsOf(data, y)
    decreases |data|
  {
    if k < |data| {
      assert data[..k] == Front(data)[..k];
      MonthsGrowByPrefix(Front(data), y, k);
    } else {
      assert data[..k] == data;
    }
  }

  /** A year that no row has has no months. */
  lemma {:induction false} AbsentYearHasNoMonths(data: seq<Row>, y: Year)
    requires y !in Years(data)
    ensures MonthsOf(data, y) == []
  {
    if |data| > 0 {
      AbsentYearHasNoMonths(Front(data), y);
    }
  }

  /** A year seen in the rows has at least one month. */
  lemma SeenYearHasMonths(data: seq<Row>, y: Year)
    requires y in Years(data)
    ensures |MonthsOf(data, y)| > 0
  {
    YearsExact(data);
    MonthsExact(data, y);
    var i :| 0 <= i < |data| && data[i].cityTime.year == y;
    assert HasMonth(data, y, data[i].cityTime.month);
  }

  /** Some year is listed exactly when there is some row. */
  lemma NoRowsNoYears(data: seq<Row>)
    ensures |Years(data)| == 0 <==> |data| == 0
  {
    if |data| > 0 {
      YearsExact(data);
      assert HasYear(data, data[0].cityTime.year);
    }
  }
}
