/**
 * The price at which a point bid's demand reaches a target demand (the
 * auctioneer asks for target 0, the clearing price).
 */
module Intersection {
  import opened Results
  import opened Market
  import opened PointBids
  import opened Scan
  import opened RealArith

  /** `(l, r)` is the bracket of target `t`: every point before `l` demands
      more than `t`, every point after `r` less, and the bracket is either the
      whole run of points demanding exactly `t` or two neighbours straddling it. */
  predicate IsBracket(pts: seq<PricePoint>, t: real, l: nat, r: nat)
  {
    && l <= r < |pts|
    && (forall i :: 0 <= i < l ==> pts[i].demand > t)
    && (forall i :: r < i < |pts| ==> pts[i].demand < t)
    && ((forall i :: l <= i <= r ==> pts[i].demand == t)
        || (r == l + 1 && pts[l].demand > t > pts[r].demand))
  }

  /** A target has at most one bracket. */
  lemma BracketUnique(pts: seq<PricePoint>, t: real, l: nat, r: nat, l': nat, r': nat)
    requires IsBracket(pts, t, l, r)
    requires IsBracket(pts, t, l', r')
    ensures l == l' && r == r'
  {
    var exact := forall i :: l <= i <= r ==> pts[i].demand == t;
    var exact' := forall i :: l' <= i <= r' ==> pts[i].demand == t;
    if exact && exact' {
      assert pts[l].demand == t && pts[l'].demand == t;
      assert pts[r].demand == t && pts[r'].demand == t;
    } else if exact {
      assert false;
    } else if exact' {
      assert false;
    } else {
      assert pts[l].demand > t && pts[l'].demand > t;
      assert pts[r].demand < t && pts[r'].demand < t;
    }
  }

  /** The bracket found by two linear scans: the first point demanding at most
      `t` and the first demanding less than `t`. */
  function ReferenceBracket(pts: seq<PricePoint>, t: real): (b: (nat, nat))
    requires |pts| > 0 && Descending(pts)
    requires pts[|pts| - 1].demand <= t <= pts[0].demand
    ensures IsBracket(pts, t, b.0, b.1)
  {
    DescendingPairwise(pts);
    var lo := FirstWhere(pts, (pp: PricePoint) => pp.demand <= t, 0);
    var hi := FirstWhere(pts, (pp: PricePoint) => pp.demand < t, 0);
    assert lo < |pts|;
    if lo < hi then
      (lo, hi - 1)
    else
      assert lo != 0;
      (lo - 1, lo)
  }

  /** Every point priced inside the basis range. */
  predicate PricesWithinBasis(bid: PointBid)
  {
    forall i :: 0 <= i < |bid.points| ==>
      bid.basis.minimumPrice <= bid.points[i].price.value <= bid.basis.maximumPrice
  }

  /** Lower end of the interpolation: the basis minimum when the bracket ends
      at the first point. On ascending prices inside the basis it lies at or
      below the price of every point from `l` on. */
  function LeftPrice(bid: PointBid, l: nat, r: nat): (p: real)
    requires l <= r < |bid.points|
    ensures PricesAscending(bid.points) && PricesWithinBasis(bid) ==>
              forall i :: l <= i < |bid.points| ==> p <= bid.points[i].price.value
  {
    if r == 0 then bid.basis.minimumPrice else bid.points[l].price.value
  }

  /** Upper end of the interpolation: the basis maximum when the bracket starts
      at the last point. On ascending prices inside the basis it lies at or
      above the price of every point up to `r`. */
  function RightPrice(bid: PointBid, l: nat, r: nat): (p: real)
    requires l <= r < |bid.points|
    ensures PricesAscending(bid.points) && PricesWithinBasis(bid) ==>
              forall i :: 0 <= i <= r ==> bid.points[i].price.value <= p
  {
    if l == |bid.points| - 1 then bid.basis.maximumPrice else bid.points[r].price.value
  }

  /** Where `t` sits between the bracket's demands, 0.5 for a flat bracket. */
  function DemandFactor(bid: PointBid, l: nat, r: nat, t: real): (f: real)
    requires l <= r < |bid.points|
    ensures bid.points[l].demand >= t >= bid.points[r].demand ==> 0.0 <= f <= 1.0
    ensures bid.points[l].demand != bid.points[r].demand ==>
              bid.points[l].demand - f * (bid.points[l].demand - bid.points[r].demand) == t
  {
    var left := bid.points[l].demand;
    var right := bid.points[r].demand;
    if left == right then 0.5
    else
      var f := (left - t) / (left - right);
      assert left >= t >= right ==> 0.0 <= f <= 1.0 by {
        if left >= t >= right {
          QuotientInUnitInterval(left - t, left - right);
        }
      }
      f
  }

  /** Linear interpolation of the price between the bracket's two ends. */
  function IntersectPrice(bid: PointBid, l: nat, r: nat, t: real): (q: real)
    requires l <= r < |bid.points|
    ensures bid.points[l].demand >= t >= bid.points[r].demand ==>
              Between(q, LeftPrice(bid, l, r), RightPrice(bid, l, r))
    ensures bid.points[l].demand == bid.points[r].demand ==>
              q == (LeftPrice(bid, l, r) + RightPrice(bid, l, r)) / 2.0
  {
    var lo := LeftPrice(bid, l, r);
    var hi := RightPrice(bid, l, r);
    var f := DemandFactor(bid, l, r, t);
    assert bid.points[l].demand >= t >= bid.points[r].demand ==> Between(lo + (hi - lo) * f, lo, hi) by {
      if bid.points[l].demand >= t >= bid.points[r].demand {
        StepBetween(lo, hi, f);
      }
    }
    lo + (hi - lo) * f
  }

  /** Between two neighbours that straddle the target, the intersection is
      their prices blended by how far the target lies down the demand step. */
  lemma IntersectBetweenNeighbours(bid: PointBid, l: nat, t: real)
    requires l + 1 < |bid.points|
    requires bid.points[l].demand > t > bid.points[l + 1].demand
    ensures var x0, x1 := bid.points[l].price.value, bid.points[l + 1].price.value;
            var y0, y1 := bid.points[l].demand, bid.points[l + 1].demand;
            IntersectPrice(bid, l, l + 1, t) == x0 + (x1 - x0) * ((y0 - t) / (y0 - y1))
  {
    assert LeftPrice(bid, l, l + 1) == bid.points[l].price.value;
    assert RightPrice(bid, l, l + 1) == bid.points[l + 1].price.value;
  }

  /** Between two neighbours at distinct prices that straddle the target, the
      intersection lies strictly between their prices. */
  lemma IntersectStrictlyBetweenNeighbours(bid: PointBid, l: nat, t: real)
    requires l + 1 < |bid.points|
    requires bid.points[l].demand > t > bid.points[l + 1].demand
    requires bid.points[l].price.value < bid.points[l + 1].price.value
    ensures bid.points[l].price.value < IntersectPrice(bid, l, l + 1, t) < bid.points[l + 1].price.value
  {
    var x0, x1 := bid.points[l].price.value, bid.points[l + 1].price.value;
    var y0, y1 := bid.points[l].demand, bid.points[l + 1].demand;
    IntersectBetweenNeighbours(bid, l, t);
    FractionStrictlyInside(x0, x1, y0, y1, t, IntersectPrice(bid, l, l + 1, t));
  }

  /** Reference definition of the intersection price. */
  function ClearingPrice(bid: PointBid, t: real): (p: Price)
    requires Valid(bid)
    ensures p.basis == bid.basis
  {
    if t > MaximumDemand(bid) then Price(bid.basis, bid.basis.minimumPrice)
    else if t < MinimumDemand(bid) then Price(bid.basis, bid.basis.maximumPrice)
    else
      var b := ReferenceBracket(bid.points, t);
      Price(bid.basis, IntersectPrice(bid, b.0, b.1, t))
  }

  /** Bisection over the demands for a bracket of `t`, widened across exact matches. */
  method FindBracket(bid: PointBid, t: real) returns (l: nat, r: nat)
    requires Valid(bid)
    requires MinimumDemand(bid) <= t <= MaximumDemand(bid)
    ensures IsBracket(bid.points, t, l, r)
  {
    var pts := bid.points;
    var n := |pts|;
    DescendingPairwise(pts);
    l, r := 0, n - 1;
    if t == pts[l].demand {
      r := l;
    } else if t == pts[r].demand {
      l := r;
    } else {
      while r - l > 1
        invariant l <= r < n
        invariant (l == r && pts[l].demand == t) || (l < r && pts[l].demand > t > pts[r].demand)
        decreases r - l
      {
        var middle := (l + r) / 2;
        var middleDemand := pts[middle].demand;
        if t == middleDemand {
          l, r := middle, middle;
        } else if middleDemand > t {
          l := middle;
        } else {
          r := middle;
        }
      }
    }
    while l > 0 && t == pts[l - 1].demand
      invariant l <= r < n
      invariant (forall i :: l <= i <= r ==> pts[i].demand == t)
                || (r == l + 1 && pts[l].demand > t > pts[r].demand)
      decreases l
    {
      l := l - 1;
    }
    while r < n - 1 && t == pts[r + 1].demand
      invariant l <= r < n
      invariant l == 0 || pts[l - 1].demand != t
      invariant (forall i :: l <= i <= r ==> pts[i].demand == t)
                || (r == l + 1 && pts[l].demand > t > pts[r].demand)
      decreases n - r
    {
      r := r + 1;
    }
  }

  /** The intersection as the source computes it: boundary prices outside the
      curve's demand range, otherwise interpolation over the bisected bracket. */
  method CalculateIntersection(bid: PointBid, t: real) returns (p: Price)
    requires Valid(bid)
    ensures p == ClearingPrice(bid, t)
    ensures t > MaximumDemand(bid) ==> p.value == bid.basis.minimumPrice
    ensures t < MinimumDemand(bid) ==> p.value == bid.basis.maximumPrice
  {
    var pts := bid.points;
    if t > pts[0].demand {
      return Price(bid.basis, bid.basis.minimumPrice);
    } else if t < pts[|pts| - 1].demand {
      return Price(bid.basis, bid.basis.maximumPrice);
    }
    var l, r := FindBracket(bid, t);
    var b := ReferenceBracket(pts, t);
    BracketUnique(pts, t, l, r, b.0, b.1);
    p := Price(bid.basis, IntersectPrice(bid, l, r, t));
  }

  /** The intersection never leaves the basis price range. */
  lemma ClearingPriceInRange(bid: PointBid, t: real)
    requires Valid(bid) && PricesWithinBasis(bid)
    requires bid.basis.minimumPrice <= bid.basis.maximumPrice
    ensures bid.basis.minimumPrice <= ClearingPrice(bid, t).value <= bid.basis.maximumPrice
  {
    if MinimumDemand(bid) <= t <= MaximumDemand(bid) {
      var b := ReferenceBracket(bid.points, t);
      assert bid.points[b.0].demand >= t >= bid.points[b.1].demand;
      var lo := LeftPrice(bid, b.0, b.1);
      var hi := RightPrice(bid, b.0, b.1);
      assert bid.basis.minimumPrice <= lo <= bid.basis.maximumPrice;
      assert bid.basis.minimumPrice <= hi <= bid.basis.maximumPrice;
    }
  }

  /** A single-point (flat) bid clears at a basis bound, or at their midpoint when the target is its demand. */
  lemma FlatBidClearingPrice(bid: PointBid, t: real)
    requires Valid(bid) && |bid.points| == 1
    ensures ClearingPrice(bid, t).value ==
              if t > bid.points[0].demand then bid.basis.minimumPrice
              else if t < bid.points[0].demand then bid.basis.maximumPrice
              else (bid.basis.minimumPrice + bid.basis.maximumPrice) / 2.0
  {
    if t == bid.points[0].demand {
      var b := ReferenceBracket(bid.points, t);
      assert b == (0, 0);
    }
  }

  /** Demand above zero everywhere clears at the maximum price, below zero everywhere at the minimum. */
  lemma OneSidedBidClearsAtBound(bid: PointBid)
    requires Valid(bid)
    ensures (forall i :: 0 <= i < |bid.points| ==> bid.points[i].demand > 0.0) ==>
              ClearingPrice(bid, 0.0).value == bid.basis.maximumPrice
    ensures (forall i :: 0 <= i < |bid.points| ==> bid.points[i].demand < 0.0) ==>
              ClearingPrice(bid, 0.0).value == bid.basis.minimumPrice
  {
    var n := |bid.points|;
    assert MinimumDemand(bid) == bid.points[n - 1].demand;
    assert MaximumDemand(bid) == bid.points[0].demand;
  }

  /** Points (0, 10), (50, 10), (100, -10) on a 0..100 basis clear at price 75. */
  lemma ExampleClearsAt75(basis: MarketBasis)
    requires basis.minimumPrice == 0.0 && basis.maximumPrice == 100.0
    ensures var pts := [PricePoint(Price(basis, 0.0), 10.0),
                        PricePoint(Price(basis, 50.0), 10.0),
                        PricePoint(Price(basis, 100.0), -10.0)];
            NewPointBid(basis, pts).Ok?
            && ClearingPrice(NewPointBid(basis, pts).value, 0.0).value == 75.0
  {
    var pts := [PricePoint(Price(basis, 0.0), 10.0),
                PricePoint(Price(basis, 50.0), 10.0),
                PricePoint(Price(basis, 100.0), -10.0)];
    assert pts[2].demand != pts[0].demand;
    var bid := NewPointBid(basis, pts).value;
    var b := ReferenceBracket(bid.points, 0.0);
    BracketUnique(bid.points, 0.0, b.0, b.1, 1, 2);
    assert DemandFactor(bid, 1, 2, 0.0) == 0.5;
  }

  /** Collapsing a flat curve to its first point moves the price at which it
      meets its own demand: points (10, 5), (20, 5) on a 0..100 basis meet
      demand 5 at 15, the collapsed bid at the basis midpoint 50. */
  lemma FlatCollapseMovesIntersection(basis: MarketBasis)
    requires basis.minimumPrice == 0.0 && basis.maximumPrice == 100.0
    ensures var pts := [PricePoint(Price(basis, 10.0), 5.0), PricePoint(Price(basis, 20.0), 5.0)];
            && Valid(PointBid(basis, pts))
            && ClearingPrice(PointBid(basis, pts), 5.0).value == 15.0
            && NewPointBid(basis, pts) == Ok(PointBid(basis, [pts[0]]))
            && ClearingPrice(NewPointBid(basis, pts).value, 5.0).value == 50.0
  {
    var pts := [PricePoint(Price(basis, 10.0), 5.0), PricePoint(Price(basis, 20.0), 5.0)];
    var b := ReferenceBracket(pts, 5.0);
    BracketUnique(pts, 5.0, b.0, b.1, 0, 1);
    FlatBidClearingPrice(PointBid(basis, [pts[0]]), 5.0);
  }
}
