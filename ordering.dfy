/** The order `SELECT ... ORDER BY student_id ASC` returns rows in: a scan
    of the primary key from the lowest possible id upwards. */
module Ordering {

  /** The members of `keys` in [lo, hi), ascending. */
  function KeyScan(keys: set<int>, lo: int, hi: int): (r: seq<int>)
    ensures forall x :: x in r <==> x in keys && lo <= x < hi
    ensures forall i, j :: 0 <= i < j < |r| ==> r[i] < r[j]
    decreases hi - lo
  {
    if lo >= hi then []
    else if lo in keys then
      var rest := KeyScan(keys, lo + 1, hi);
      assert forall j :: 0 <= j < |rest| ==> rest[j] in rest && lo < rest[j];
      [lo] + rest
    else KeyScan(keys, lo + 1, hi)
  }
}
