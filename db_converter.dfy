/**
 * `find_less_than_or_equal`: Python's `bisect.bisect_right` written out as its binary
 * search, minus one.
 */
module DbConverter {

  predicate Sorted(a: seq<real>) {
    forall i, j :: 0 <= i < j < |a| ==> a[i] <= a[j]
  }

  /** `i` splits `a`: everything up to and including index `i` is <= x, everything after is > x. */
  predicate SplitsAt(a: seq<real>, x: real, i: int) {
    -1 <= i < |a| &&
    (forall k :: 0 <= k <= i ==> a[k] <= x) &&
    (forall k :: i < k < |a| ==> a[k] > x)
  }

  /** At most one index splits a list, so "the rightmost index with a[i] <= x" is well defined. */
  lemma SplitsAtUnique(a: seq<real>, x: real, i: int, j: int)
    requires SplitsAt(a, x, i) && SplitsAt(a, x, j)
    ensures i == j
  {
    if 0 <= i {
      ghost var u := a[i];
    }
    if 0 <= j {
      ghost var v := a[j];
    }
  }

  /**
   * `bisect_right(a, x) - 1`. On a sorted list the result is the rightmost index holding a
   * value <= x: len(a) - 1 when x is at least every element, -1 when x is below all of them.
   */
  method FindLessThanOrEqual(a: seq<real>, x: real) returns (i: int)
    ensures -1 <= i < |a|
    ensures Sorted(a) ==> SplitsAt(a, x, i)
    ensures Sorted(a) && (forall k :: 0 <= k < |a| ==> a[k] <= x) ==> i == |a| - 1
    ensures Sorted(a) && (forall k :: 0 <= k < |a| ==> x < a[k]) ==> i == -1
  {
    var lo, hi := 0, |a|;
    while lo < hi
      invariant 0 <= lo <= hi <= |a|
      invariant Sorted(a) ==> forall k :: 0 <= k < lo ==> a[k] <= x
      invariant Sorted(a) ==> forall k :: hi <= k < |a| ==> a[k] > x
      decreases hi - lo
    {
      var mid := (lo + hi) / 2;
      if x < a[mid] {
        hi := mid;
      } else {
        lo := mid + 1;
      }
    }
    i := lo - 1;
    if |a| > 0 {
      ghost var first, last := a[0], a[|a| - 1];
    }
  }
}
