/**
 The whole-period temperature records of `run`: the coldest and the warmest
 row of the data, compared by `T` alone. Python's `min` and `max` keep the
 first row on ties and raise `ValueError` on an empty list, which is `None`
 here.
 */
module Extremes {
  import opened Optional
  import opened Selection
  import opened Records

  /** The `T` column. */
  function Temperatures(data: seq<Row>): (ts: seq<real>)
    ensures |ts| == |data| && forall i :: 0 <= i < |data| ==> ts[i] == data[i].t
  {
    seq(|data|, i requires 0 <= i < |data| => data[i].t)
  }

  /** `min(data, key=lambda x: x['T'])`: the first row with the lowest temperature. */
  function ColdestRow(data: seq<Row>): (r: Option<Row>)
    ensures r.None? <==> |data| == 0
    ensures r.Some? ==> exists i :: IsFirstMin(Temperatures(data), i) && r.value == data[i]
  {
    if |data| == 0 then None else Some(data[FirstMinIndex(Temperatures(data))])
  }

  /** `max(data, key=lambda x: x["T"])`: the first row with the highest temperature. */
  function WarmestRow(data: seq<Row>): (r: Option<Row>)
    ensures r.None? <==> |data| == 0
    ensures r.Some? ==> exists i :: IsFirstMax(Temperatures(data), i) && r.value == data[i]
  {
    if |data| == 0 then None else Some(data[FirstMaxIndex(Temperatures(data))])
  }

  /** The coldest reading is never above the warmest one, and both are readings of the data. */
  lemma ColdestNotAboveWarmest(data: seq<Row>)
    requires |data| > 0
    ensures ColdestRow(data).value.t <= WarmestRow(data).value.t
    ensures ColdestRow(data).value in data && WarmestRow(data).value in data
  {
    var ts := Temperatures(data);
    var i := FirstMinIndex(ts);
    var j := FirstMaxIndex(ts);
    assert ts[i] <= ts[j];
  }

  /** The selection is fully determined: any first coldest row is the one reported. */
  lemma ColdestIsUnique(data: seq<Row>, i: int)
    requires IsFirstMin(Temperatures(data), i)
    ensures ColdestRow(data) == Some(data[i])
  {
    FirstMinUnique(Temperatures(data), i, FirstMinIndex(Temperatures(data)));
  }

  /** The selection is fully determined: any first warmest row is the one reported. */
  lemma WarmestIsUnique(data: seq<Row>, i: int)
    requires IsFirstMax(Temperatures(data), i)
    ensures WarmestRow(data) == Some(data[i])
  {
    FirstMaxUnique(Temperatures(data), i, FirstMaxIndex(Temperatures(data)));
  }

  /** `format_data` changes only `RRR`, so the records are the same rows before and after it,
      up to that column. */
  lemma RecordsIgnoreNormalization(data: seq<Row>)
    requires |data| > 0
    ensures var n := seq(|data|, i requires 0 <= i < |data| => Normalize(data[i]));
            ColdestRow(n) == Some(Normalize(ColdestRow(data).value)) &&
            WarmestRow(n) == Some(Normalize(WarmestRow(data).value))
  {
    var n := seq(|data|, i requires 0 <= i < |data| => Normalize(data[i]));
    assert Temperatures(n) == Temperatures(data);
  }

  /** Two rows of January 2020, the second colder: it is the coldest row, and the first
      is the warmest. */
  lemma TwoJanuaryRows()
    ensures var data := [Row(DateTime(2020, 1, 1, 0, 0), 5.0, 2.0, Some(1.0)),
                         Row(DateTime(2020, 1, 15, 0, 0), -3.0, 10.0, Some(0.0))];
            ColdestRow(data) == Some(data[1]) && WarmestRow(data) == Some(data[0])
  {
    var data := [Row(DateTime(2020, 1, 1, 0, 0), 5.0, 2.0, Some(1.0)),
                 Row(DateTime(2020, 1, 15, 0, 0), -3.0, 10.0, Some(0.0))];
    ColdestIsUnique(data, 1);
    WarmestIsUnique(data, 0);
  }
}
