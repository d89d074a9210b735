/**
 * The best-match selection of the matcher: numpy's `argmin` over the distance
 * vector, which scans left to right and moves only on a strictly smaller
 * value, so ties go to the earliest index.
 */
module Argmin {

  /** `k` holds the smallest value of `d`, and no earlier index holds that value. */
  ghost predicate IsFirstMinimum(d: seq<real>, k: int)
  {
    0 <= k < |d| &&
    (forall j :: 0 <= j < |d| ==> d[k] <= d[j]) &&
    (forall j :: 0 <= j < k ==> d[k] < d[j])
  }

  /** Stable argmin of a non-empty vector, computed as numpy's left-to-right scan. */
  function StableArgmin(d: seq<real>): (k: nat)
    requires |d| > 0
    ensures k < |d|
    ensures forall j :: 0 <= j < |d| ==> d[k] <= d[j]
    ensures forall j :: 0 <= j < k ==> d[k] < d[j]
  {
    if |d| == 1 then 0
    else
      var k := StableArgmin(d[..|d| - 1]);
      if d[|d| - 1] < d[k] then |d| - 1 else k
  }

  /** The first minimum is unique, so the scan returns exactly that index. */
  lemma FirstMinimumUnique(d: seq<real>, k: int)
    requires IsFirstMinimum(d, k)
    ensures k == StableArgmin(d)
  {
  }

  /** The minimum value lies below a bound exactly when some entry does. */
  lemma MinimumBelow(d: seq<real>, bound: real)
    requires |d| > 0
    ensures d[StableArgmin(d)] < bound <==> exists j :: 0 <= j < |d| && d[j] < bound
  {
  }
}
