/** Linear scans over a point sequence, used by the reference definitions. */
module Scan {
  import opened Market

  /** The first index at or after `from` whose point satisfies `holds`, or `|pts|` if none does. */
  function FirstWhere(pts: seq<PricePoint>, holds: PricePoint -> bool, from: nat): (k: nat)
    requires from <= |pts|
    ensures from <= k <= |pts|
    ensures forall i :: from <= i < k ==> !holds(pts[i])
    ensures k < |pts| ==> holds(pts[k])
    decreases |pts| - from
  {
    if from == |pts| || holds(pts[from]) then from else FirstWhere(pts, holds, from + 1)
  }
}
