/**
 * The intersection and the demand query are inverse to each other on a curve
 * whose points have distinct prices: reading the demand at the price found
 * for a target gives the target back, and, when demand also strictly falls,
 * the price found for the demand at a price is that price.
 */
module CurveInverse {
  import opened PointBids
  import opened RealArith
  import opened Intersection
  import opened DemandAt

  /** Within a run of points all demanding `t`, the curve demands `t` everywhere. */
  lemma CurveDemandOnFlatRun(bid: PointBid, l: nat, r: nat, t: real, q: real)
    requires Valid(bid) && PricesStrictlyAscending(bid.points)
    requires l < r < |bid.points|
    requires forall i :: l <= i <= r ==> bid.points[i].demand == t
    requires bid.points[l].price.value < q < bid.points[r].price.value
    ensures CurveDemand(bid, q) == t
  {
    var pts := bid.points;
    var k := LocatePrice(pts, q, l, r);
    if !(l < k && pts[k].price.value == q) {
      var d := CurveDemand(bid, q);
      assert d == Interpolate(pts[k], pts[k + 1], q);
      var width := pts[k + 1].price.value - pts[k].price.value;
      assert (d - t) * width == 0.0 * width;
      CancelFactor(d - t, 0.0, width);
    }
  }

  /** Strictly between two neighbours the curve lies on the line through them. */
  lemma CurveDemandOnSegment(bid: PointBid, l: nat, q: real)
    requires Valid(bid) && PricesStrictlyAscending(bid.points)
    requires Straddles(bid.points, q, l)
    ensures var x0, x1 := bid.points[l].price.value, bid.points[l + 1].price.value;
            var y0, y1 := bid.points[l].demand, bid.points[l + 1].demand;
            (CurveDemand(bid, q) - y0) * (x1 - x0) == (y1 - y0) * (q - x0)
  {
    assert CurveDemand(bid, q) == Interpolate(bid.points[l], bid.points[l + 1], q);
  }

  /** A price on the line through two straddling neighbours, at the height of
      the target, reads back as the target. */
  lemma SegmentRoundTrip(bid: PointBid, l: nat, t: real, q: real)
    requires Valid(bid) && PricesStrictlyAscending(bid.points)
    requires l + 1 < |bid.points|
    requires bid.points[l].demand > t > bid.points[l + 1].demand
    requires bid.points[l].price.value < q < bid.points[l + 1].price.value
    requires var x0, x1 := bid.points[l].price.value, bid.points[l + 1].price.value;
             var y0, y1 := bid.points[l].demand, bid.points[l + 1].demand;
             q == x0 + (x1 - x0) * ((y0 - t) / (y0 - y1))
    ensures CurveDemand(bid, q) == t
  {
    CurveDemandOnSegment(bid, l, q);
    DemandOnLine(bid.points[l].price.value, bid.points[l + 1].price.value,
                 bid.points[l].demand, bid.points[l + 1].demand, t, q, CurveDemand(bid, q));
  }

  /** Intersecting inside two neighbours that straddle the target and reading
      the demand back gives the target. */
  lemma StraddledTargetRoundTrip(bid: PointBid, l: nat, t: real)
    requires Valid(bid) && PricesStrictlyAscending(bid.points)
    requires l + 1 < |bid.points|
    requires bid.points[l].demand > t > bid.points[l + 1].demand
    ensures CurveDemand(bid, IntersectPrice(bid, l, l + 1, t)) == t
  {
    IntersectBetweenNeighbours(bid, l, t);
    IntersectStrictlyBetweenNeighbours(bid, l, t);
    SegmentRoundTrip(bid, l, t, IntersectPrice(bid, l, l + 1, t));
  }

  /** The demand read at the price found for a target strictly inside the
      curve's demand range is that target. */
  lemma DemandAtClearingPrice(bid: PointBid, t: real)
    requires Valid(bid) && PricesStrictlyAscending(bid.points)
    requires MinimumDemand(bid) < t < MaximumDemand(bid)
    ensures CurveDemand(bid, ClearingPrice(bid, t).value) == t
  {
    var pts := bid.points;
    var n := |pts|;
    var b := ReferenceBracket(pts, t);
    var l, r := b.0, b.1;
    assert ClearingPrice(bid, t).value == IntersectPrice(bid, l, r, t);
    if pts[l].demand == t {
      assert 0 < l && r < n - 1;
      assert pts[r].demand == t;
      var q := IntersectPrice(bid, l, r, t);
      assert q == (pts[l].price.value + pts[r].price.value) / 2.0;
      if l < r {
        CurveDemandOnFlatRun(bid, l, r, t, q);
      }
    } else {
      StraddledTargetRoundTrip(bid, l, t);
    }
  }

  /** At a point's own price, strictly inside the curve, the price found for
      its demand is that price again. */
  lemma PointRoundTrip(bid: PointBid, k: nat)
    requires Valid(bid) && DemandStrictlyDescending(bid.points)
    requires 0 < k < |bid.points| - 1
    ensures ClearingPrice(bid, bid.points[k].demand).value == bid.points[k].price.value
  {
    var pts := bid.points;
    var d := pts[k].demand;
    assert IsBracket(pts, d, k, k);
    var b := ReferenceBracket(pts, d);
    BracketUnique(pts, d, k, k, b.0, b.1);
  }

  /** On a strictly falling curve, a target strictly between two neighbours'
      demands is bracketed by exactly those neighbours. */
  lemma StraddledTargetBracket(bid: PointBid, k: nat, d: real)
    requires Valid(bid) && DemandStrictlyDescending(bid.points)
    requires k + 1 < |bid.points|
    requires bid.points[k].demand > d > bid.points[k + 1].demand
    ensures ClearingPrice(bid, d).value == IntersectPrice(bid, k, k + 1, d)
  {
    var pts := bid.points;
    assert IsBracket(pts, d, k, k + 1);
    var b := ReferenceBracket(pts, d);
    BracketUnique(pts, d, k, k + 1, b.0, b.1);
  }

  /** Between two neighbours, the price found for the interpolated demand is the price interpolated at. */
  lemma StraddledPriceRoundTrip(bid: PointBid, k: nat, p: real)
    requires Valid(bid) && PricesStrictlyAscending(bid.points) && DemandStrictlyDescending(bid.points)
    requires Straddles(bid.points, p, k)
    ensures ClearingPrice(bid, Interpolate(bid.points[k], bid.points[k + 1], p)).value == p
  {
    var pts := bid.points;
    var x0, x1 := pts[k].price.value, pts[k + 1].price.value;
    var y0, y1 := pts[k].demand, pts[k + 1].demand;
    var d := Interpolate(pts[k], pts[k + 1], p);
    LineStrictlyInside(x0, x1, y0, y1, p, d);
    StraddledTargetBracket(bid, k, d);
    IntersectBetweenNeighbours(bid, k, d);
    PriceOnLine(x0, x1, y0, y1, p, d);
  }

  /** On a curve whose demand strictly falls, the price found for the demand
      read at an interior price is that price. */
  lemma ClearingPriceAtDemand(bid: PointBid, p: real)
    requires Valid(bid) && PricesStrictlyAscending(bid.points) && DemandStrictlyDescending(bid.points)
    requires bid.points[0].price.value < p < Last(bid).price.value
    ensures ClearingPrice(bid, CurveDemand(bid, p)).value == p
  {
    var pts := bid.points;
    var k := LocatePrice(pts, p, 0, |pts| - 1);
    if 0 < k && pts[k].price.value == p {
      PointRoundTrip(bid, k);
    } else {
      StraddledPriceRoundTrip(bid, k, p);
    }
  }
}
