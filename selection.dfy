/**
 Python's built-in `max` and `min` with a `key`: they scan the items from
 left to right and replace the current candidate only by a strictly larger
 (smaller) one, so among equal values the first one wins. An empty
 argument raises `ValueError`; the callers model that case themselves.
 */
module Selection {

  /** `i` holds a largest value of `vals`, and every earlier value is strictly smaller. */
  predicate IsFirstMax(vals: seq<real>, i: int) {
    0 <= i < |vals| &&
    (forall j :: 0 <= j < |vals| ==> vals[j] <= vals[i]) &&
    (forall j :: 0 <= j < i ==> vals[j] < vals[i])
  }

  /** `i` holds a smallest value of `vals`, and every earlier value is strictly larger. */
  predicate IsFirstMin(vals: seq<real>, i: int) {
    0 <= i < |vals| &&
    (forall j :: 0 <= j < |vals| ==> vals[i] <= vals[j]) &&
    (forall j :: 0 <= j < i ==> vals[i] < vals[j])
  }

  /** `max(range(len(vals)), key=vals.__getitem__)`. */
  function FirstMaxIndex(vals: seq<real>): (i: int)
    requires |vals| > 0
    ensures IsFirstMax(vals, i)
  {
    if |vals| == 1 then 0
    else
      var k := FirstMaxIndex(vals[..|vals| - 1]);
      if vals[k] < vals[|vals| - 1] then |vals| - 1 else k
  }

  /** `min(range(len(vals)), key=vals.__getitem__)`. */
  function FirstMinIndex(vals: seq<real>): (i: int)
    requires |vals| > 0
    ensures IsFirstMin(vals, i)
  {
    if |vals| == 1 then 0
    else
      var k := FirstMinIndex(vals[..|vals| - 1]);
      if vals[|vals| - 1] < vals[k] then |vals| - 1 else k
  }

  /** The first-winning maximum is unique: the selection is fully determined. */
  lemma FirstMaxUnique(vals: seq<real>, i: int, i': int)
    requires IsFirstMax(vals, i) && IsFirstMax(vals, i')
    ensures i == i'
  {
    var a, b := vals[i], vals[i'];
    assert i < i' ==> a < b;
    assert i' < i ==> b < a;
  }

  /** The first-winning minimum is unique. */
  lemma FirstMinUnique(vals: seq<real>, i: int, i': int)
    requires IsFirstMin(vals, i) && IsFirstMin(vals, i')
    ensures i == i'
  {
    var a, b := vals[i], vals[i'];
    assert i < i' ==> b < a;
    assert i' < i ==> a < b;
  }

  /** When all values are equal the first item wins. */
  lemma AllEqualFirstWins(vals: seq<real>, i: int)
    requires IsFirstMax(vals, i) || IsFirstMin(vals, i)
    requires forall j :: 0 <= j < |vals| ==> vals[j] == vals[0]
    ensures i == 0
  {
    assert vals[0] == vals[i];
  }
}
