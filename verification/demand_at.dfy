/**
 * The demand a point bid expresses at a given price: the inverse query of
 * the intersection. The query price is taken by its value under the bid's
 * own market basis.
 */
module DemandAt {
  import opened Market
  import opened PointBids
  import opened Scan
  import opened RealArith

  /** Demand on the straight line through `lower` and `higher`, at price `p`. */
  function Interpolate(lower: PricePoint, higher: PricePoint, p: real): (d: real)
    requires lower.price.value < higher.price.value
    ensures (d - lower.demand) * (higher.price.value - lower.price.value)
            == (higher.demand - lower.demand) * (p - lower.price.value)
    ensures lower.price.value <= p <= higher.price.value ==> Between(d, lower.demand, higher.demand)
  {
    var width := higher.price.value - lower.price.value;
    var factor := (p - lower.price.value) / width;
    LinearBlend(lower.demand, higher.demand, p - lower.price.value, width);
    (1.0 - factor) * lower.demand + factor * higher.demand
  }

  /** `p` lies strictly between the prices of neighbours `k` and `k + 1`. */
  predicate Straddles(pts: seq<PricePoint>, p: real, k: int)
  {
    0 <= k < |pts| - 1 && pts[k].price.value < p < pts[k + 1].price.value
  }

  /** Point `j` is priced exactly `p` and is the lower side of any vertical step
      there: either a point at the same price precedes it or none follows it. */
  predicate LowerSideAt(pts: seq<PricePoint>, p: real, j: int)
  {
    && 0 < j < |pts| - 1
    && pts[j].price.value == p
    && (pts[j - 1].price.value == p || pts[j + 1].price.value != p)
  }

  /** State of the price search: a narrower index window, or an exact hit's demand. */
  datatype SearchState = Narrowed(low: nat, high: nat) | Hit(demand: real)

  /** What the price search keeps: the point at `low` is priced below `p`, and
      `high` is the end of the sequence or a point priced above `p`. */
  predicate SearchInvariant(pts: seq<PricePoint>, p: real, low: nat, high: nat)
  {
    && low < high <= |pts|
    && pts[low].price.value < p
    && (high == |pts| || pts[high].price.value > p)
  }

  /** One round of the binary search over prices. On an exact hit the
      successor's demand is used when it shares the price, else the middle
      point's own demand. */
  function SearchStep(pts: seq<PricePoint>, p: real, low: nat, high: nat): (s: SearchState)
    requires SearchInvariant(pts, p, low, high) && high - low > 1
    requires p < pts[|pts| - 1].price.value
    ensures s.Narrowed? ==> SearchInvariant(pts, p, s.low, s.high)
    ensures s.Narrowed? ==> low <= s.low && s.high <= high && s.high - s.low < high - low
    ensures s.Hit? ==> exists j :: LowerSideAt(pts, p, j) && s.demand == pts[j].demand
  {
    var middle := (low + high) / 2;
    if pts[middle].price.value < p then Narrowed(middle, high)
    else if pts[middle].price.value > p then Narrowed(low, middle)
    else if pts[middle + 1].price.value == p then
      assert LowerSideAt(pts, p, middle + 1);
      Hit(pts[middle + 1].demand)
    else
      assert LowerSideAt(pts, p, middle);
      Hit(pts[middle].demand)
  }

  /** Reference definition of the demand curve when no two points share a
      price: flat outside the points, through every point, straight between
      neighbours. */
  function CurveDemand(bid: PointBid, p: real): (d: real)
    requires Valid(bid) && PricesStrictlyAscending(bid.points)
    ensures MinimumDemand(bid) <= d <= MaximumDemand(bid)
    ensures p <= bid.points[0].price.value ==> d == MaximumDemand(bid)
    ensures p >= Last(bid).price.value ==> d == MinimumDemand(bid)
    ensures forall i :: 0 <= i < |bid.points| && bid.points[i].price.value == p ==> d == bid.points[i].demand
    ensures forall k :: Straddles(bid.points, p, k) ==> d == Interpolate(bid.points[k], bid.points[k + 1], p)
  {
    var pts := bid.points;
    var n := |pts|;
    DescendingPairwise(pts);
    if n == 1 || p <= pts[0].price.value then
      pts[0].demand
    else if p >= pts[n - 1].price.value then
      pts[n - 1].demand
    else
      var k := FirstWhere(pts, (pp: PricePoint) => pp.price.value >= p, 0);
      assert k != 0 && k < n;
      if pts[k].price.value == p then
        pts[k].demand
      else
        assert Straddles(pts, p, k - 1);
        Interpolate(pts[k - 1], pts[k], p)
  }

  /** `d` is a demand the query at price `p` may return: the boundary cases
      decide it outside the curve; inside, it is the lower side of a vertical
      step at `p` or the interpolation between straddling neighbours. */
  predicate Answers(bid: PointBid, p: real, d: real)
    requires Valid(bid)
  {
    var pts := bid.points;
    var n := |pts|;
    if n == 1 || p < pts[0].price.value then d == MaximumDemand(bid)
    else if p == pts[0].price.value then
      d == (if pts[1].price.value == p then pts[1].demand else MaximumDemand(bid))
    else if pts[n - 1].price.value <= p then d == MinimumDemand(bid)
    else StepAnswer(pts, p, d) || SegmentAnswer(pts, p, d)
  }

  /** `d` is the demand of the lower side of a vertical step at `p`. */
  predicate StepAnswer(pts: seq<PricePoint>, p: real, d: real)
  {
    exists j :: 0 < j < |pts| - 1 && LowerSideAt(pts, p, j) && d == pts[j].demand
  }

  /** `d` is the interpolation at `p` between two neighbours straddling it. */
  predicate SegmentAnswer(pts: seq<PricePoint>, p: real, d: real)
  {
    exists k :: 0 <= k < |pts| - 1 && Straddles(pts, p, k) && d == Interpolate(pts[k], pts[k + 1], p)
  }

  /** The demand at price `p`, as the source computes it: boundary cases
      first, then a binary search over prices and linear interpolation. */
  method GetDemandAt(bid: PointBid, p: real) returns (d: real)
    requires Valid(bid)
    ensures MinimumDemand(bid) <= d <= MaximumDemand(bid)
    ensures Answers(bid, p, d)
    ensures PricesStrictlyAscending(bid.points) ==> d == CurveDemand(bid, p)
  {
    var pts := bid.points;
    var n := |pts|;
    DescendingPairwise(pts);
    if n == 1 {
      return MaximumDemand(bid);
    } else if p < pts[0].price.value {
      return MaximumDemand(bid);
    } else if p == pts[0].price.value {
      if p == pts[1].price.value {
        return pts[1].demand;
      } else {
        return MaximumDemand(bid);
      }
    } else if p >= pts[n - 1].price.value {
      return MinimumDemand(bid);
    }
    var low: nat, high: nat := 0, n;
    while high - low > 1
      invariant SearchInvariant(pts, p, low, high)
      decreases high - low
    {
      match SearchStep(pts, p, low, high)
      case Hit(demand) =>
        return demand;
      case Narrowed(l, h) =>
        low, high := l, h;
    }
    assert Straddles(pts, p, low);
    d := Interpolate(pts[low], pts[high], p);
  }

  /** A price strictly between two points' prices either is some later
      point's price or falls strictly between two neighbours. */
  lemma LocatePrice(pts: seq<PricePoint>, q: real, i: nat, j: nat) returns (k: nat)
    requires PricesStrictlyAscending(pts)
    requires i < j < |pts| && pts[i].price.value < q < pts[j].price.value
    ensures i <= k < j
    ensures (i < k && pts[k].price.value == q) || Straddles(pts, q, k)
  {
    var first := FirstWhere(pts, (pp: PricePoint) => pp.price.value >= q, 0);
    assert i < first <= j;
    if pts[first].price.value == q {
      k := first;
    } else {
      k := first - 1;
    }
  }

  /** At or beyond a point's price, the curve demands no more than that point. */
  lemma CurveDemandBelowEarlierPoint(bid: PointBid, k: nat, p: real)
    requires Valid(bid) && PricesStrictlyAscending(bid.points)
    requires k < |bid.points| && bid.points[k].price.value <= p
    ensures CurveDemand(bid, p) <= bid.points[k].demand
  {
    var pts := bid.points;
    var n := |pts|;
    DescendingPairwise(pts);
    if p < pts[n - 1].price.value && p != pts[k].price.value {
      var j := LocatePrice(pts, p, k, n - 1);
      if !(k < j && pts[j].price.value == p) {
        assert CurveDemand(bid, p) == Interpolate(pts[j], pts[j + 1], p);
      }
    }
  }

  /** At or before a point's price, the curve demands no less than that point. */
  lemma CurveDemandAboveLaterPoint(bid: PointBid, k: nat, p: real)
    requires Valid(bid) && PricesStrictlyAscending(bid.points)
    requires k < |bid.points| && p <= bid.points[k].price.value
    ensures bid.points[k].demand <= CurveDemand(bid, p)
  {
    var pts := bid.points;
    DescendingPairwise(pts);
    if pts[0].price.value < p && p != pts[k].price.value {
      var j := LocatePrice(pts, p, 0, k);
      if !(0 < j && pts[j].price.value == p) {
        assert CurveDemand(bid, p) == Interpolate(pts[j], pts[j + 1], p);
      }
    }
  }

  /** Within one straddled segment the curve falls with the price. */
  lemma SegmentFalls(bid: PointBid, k: nat, p: real, p': real)
    requires Valid(bid) && PricesStrictlyAscending(bid.points)
    requires Straddles(bid.points, p, k) && Straddles(bid.points, p', k) && p <= p'
    ensures CurveDemand(bid, p') <= CurveDemand(bid, p)
  {
    var lower, higher := bid.points[k], bid.points[k + 1];
    DescendingBetween(bid.points, k, k + 1);
    InterpolationFalls(lower, higher, p, p');
    assert CurveDemand(bid, p) == Interpolate(lower, higher, p);
    assert CurveDemand(bid, p') == Interpolate(lower, higher, p');
  }

  /** The demand curve never rises as the price rises. */
  lemma CurveDemandNonIncreasing(bid: PointBid, p: real, p': real)
    requires Valid(bid) && PricesStrictlyAscending(bid.points)
    requires p <= p'
    ensures CurveDemand(bid, p') <= CurveDemand(bid, p)
  {
    var pts := bid.points;
    var n := |pts|;
    if p <= pts[0].price.value {
      assert CurveDemand(bid, p) == MaximumDemand(bid);
    } else if pts[n - 1].price.value <= p' {
      assert CurveDemand(bid, p') == MinimumDemand(bid);
    } else {
      var k := LocatePrice(pts, p, 0, n - 1);
      if 0 < k && pts[k].price.value == p {
        CurveDemandBelowEarlierPoint(bid, k, p');
      } else if pts[k + 1].price.value <= p' {
        CurveDemandBelowEarlierPoint(bid, k + 1, p');
        CurveDemandAboveLaterPoint(bid, k + 1, p);
      } else {
        SegmentFalls(bid, k, p, p');
      }
    }
  }

  /** The straddled neighbours behind a segment answer, and the answer lies between their demands. */
  lemma SegmentOfAnswer(pts: seq<PricePoint>, p: real, d: real) returns (k: nat)
    requires SegmentAnswer(pts, p, d)
    ensures Straddles(pts, p, k)
    ensures Between(d, pts[k].demand, pts[k + 1].demand)
  {
    k :| 0 <= k < |pts| - 1 && Straddles(pts, p, k) && d == Interpolate(pts[k], pts[k + 1], p);
  }

  /** Every answer stays within the curve's demand range. */
  lemma AnswerWithinRange(bid: PointBid, p: real, d: real)
    requires Valid(bid) && Answers(bid, p, d)
    ensures MinimumDemand(bid) <= d <= MaximumDemand(bid)
  {
    var pts := bid.points;
    var n := |pts|;
    DescendingPairwise(pts);
    if n > 1 && pts[0].price.value < p < pts[n - 1].price.value && !StepAnswer(pts, p, d) {
      var k := SegmentOfAnswer(pts, p, d);
    }
  }

  /** On ascending prices, an answer at `p` is at least the demand of every
      point priced above `p` and of the last point priced exactly `p`. */
  lemma AnswerAboveLaterPoint(bid: PointBid, p: real, d: real, i: nat)
    requires Valid(bid) && PricesAscending(bid.points) && Answers(bid, p, d)
    requires i < |bid.points| && bid.points[i].price.value >= p
    requires i == |bid.points| - 1 || bid.points[i + 1].price.value > p
    ensures bid.points[i].demand <= d
  {
    var pts := bid.points;
    var n := |pts|;
    DescendingPairwise(pts);
    if n == 1 || p < pts[0].price.value {
    } else if p == pts[0].price.value {
      if pts[1].price.value == p {
        assert 1 <= i;
      }
    } else if pts[n - 1].price.value <= p {
      assert i == n - 1;
    } else if StepAnswer(pts, p, d) {
      var j :| 0 < j < n - 1 && LowerSideAt(pts, p, j) && d == pts[j].demand;
      assert j <= i;
    } else {
      var k := SegmentOfAnswer(pts, p, d);
      assert k + 1 <= i;
    }
  }

  /** On ascending prices, an answer strictly between two neighbours' prices
      is the interpolation between those neighbours. */
  lemma AnswerOnSegment(bid: PointBid, p: real, d: real, k: nat)
    requires Valid(bid) && PricesAscending(bid.points) && Answers(bid, p, d)
    requires Straddles(bid.points, p, k)
    ensures d == Interpolate(bid.points[k], bid.points[k + 1], p)
  {
    var pts := bid.points;
    var n := |pts|;
    assert pts[0].price.value <= pts[k].price.value < p;
    assert p < pts[k + 1].price.value <= pts[n - 1].price.value;
    assert !StepAnswer(pts, p, d) by {
      forall j | 0 < j < n - 1 ensures pts[j].price.value != p {
        if j <= k {
          assert pts[j].price.value <= pts[k].price.value;
        } else {
          assert pts[k + 1].price.value <= pts[j].price.value;
        }
      }
    }
    var m :| 0 <= m < n - 1 && Straddles(pts, p, m) && d == Interpolate(pts[m], pts[m + 1], p);
  }

  /** On ascending prices, vertical steps included, the demand query never
      rises as the price rises: every answer at a higher price is at most
      every answer at a lower one. */
  lemma AnswersNonIncreasing(bid: PointBid, p: real, d: real, p': real, d': real)
    requires Valid(bid) && PricesAscending(bid.points)
    requires p < p' && Answers(bid, p, d) && Answers(bid, p', d')
    ensures d' <= d
  {
    var pts := bid.points;
    var n := |pts|;
    DescendingPairwise(pts);
    AnswerWithinRange(bid, p, d);
    AnswerWithinRange(bid, p', d');
    if n == 1 || p' <= pts[0].price.value {
      assert d == MaximumDemand(bid);
    } else if pts[n - 1].price.value <= p' {
      assert d' == MinimumDemand(bid);
    } else if StepAnswer(pts, p', d') {
      var j :| 0 < j < n - 1 && LowerSideAt(pts, p', j) && d' == pts[j].demand;
      AnswerAboveLaterPoint(bid, p, d, j);
    } else {
      var k := SegmentOfAnswer(pts, p', d');
      if p <= pts[k].price.value {
        AnswerAboveLaterPoint(bid, p, d, k);
      } else {
        SegmentFallsAfter(bid, p, d, p', d', k);
      }
    }
  }

  /** Along one falling segment, interpolation falls as the price rises. */
  lemma InterpolationFalls(lower: PricePoint, higher: PricePoint, p: real, p': real)
    requires lower.price.value < higher.price.value && higher.demand <= lower.demand
    requires p <= p'
    ensures Interpolate(lower, higher, p') <= Interpolate(lower, higher, p)
  {
    var d := Interpolate(lower, higher, p);
    var d' := Interpolate(lower, higher, p');
    LineFalls(lower.price.value, higher.price.value, lower.demand, higher.demand, p, d, p', d');
  }

  /** Two answers inside one segment fall along its line. */
  lemma SegmentFallsAfter(bid: PointBid, p: real, d: real, p': real, d': real, k: nat)
    requires Valid(bid) && PricesAscending(bid.points)
    requires Answers(bid, p, d) && Answers(bid, p', d')
    requires Straddles(bid.points, p, k) && Straddles(bid.points, p', k) && p <= p'
    ensures d' <= d
  {
    AnswerOnSegment(bid, p, d, k);
    AnswerOnSegment(bid, p', d', k);
    DescendingBetween(bid.points, k, k + 1);
    InterpolationFalls(bid.points[k], bid.points[k + 1], p, p');
  }
}
