/**
 * The point-list bid: an immutable, non-empty sequence of (price, demand)
 * points under one market basis whose demand never rises along the sequence.
 */
module PointBids {
  import opened Results
  import opened Market

  /** Why the constructor refuses a point list. */
  datatype ConstructionError =
    | NoPricePoints
    | ForeignMarketBasis(index: nat)
    | DemandRises(index: nat)

  datatype PointBid = PointBid(basis: MarketBasis, points: seq<PricePoint>)

  /** Every point is priced under `basis`. */
  predicate InBasis(basis: MarketBasis, pts: seq<PricePoint>)
  {
    forall i :: 0 <= i < |pts| ==> pts[i].price.basis == basis
  }

  /** No point's demand exceeds its predecessor's. */
  predicate Descending(pts: seq<PricePoint>)
  {
    forall i :: 0 < i < |pts| ==> pts[i].demand <= pts[i - 1].demand
  }

  /** What every constructed bid satisfies. */
  predicate Valid(bid: PointBid)
  {
    |bid.points| > 0 && InBasis(bid.basis, bid.points) && Descending(bid.points)
  }

  /** Prices never fall along the sequence (what the builder's ordering provides). */
  predicate PricesAscending(pts: seq<PricePoint>)
  {
    forall i, j :: 0 <= i <= j < |pts| ==> pts[i].price.value <= pts[j].price.value
  }

  /** Prices strictly rise along the sequence: no two points share a price. */
  predicate PricesStrictlyAscending(pts: seq<PricePoint>)
  {
    forall i, j :: 0 <= i < j < |pts| ==> pts[i].price.value < pts[j].price.value
  }

  /** Demand strictly falls along the sequence. */
  predicate DemandStrictlyDescending(pts: seq<PricePoint>)
  {
    forall i, j :: 0 <= i < j < |pts| ==> pts[j].demand < pts[i].demand
  }

  /** The constructor's test of point `j`: its basis matches and its demand
      does not exceed the previous point's (the first point is compared with itself). */
  predicate Acceptable(basis: MarketBasis, pts: seq<PricePoint>, j: nat)
    requires j < |pts|
  {
    pts[j].price.basis == basis && (j == 0 || pts[j].demand <= pts[j - 1].demand)
  }

  /** `e` is the error the in-order scan from `from` raises first. */
  predicate RejectedAt(basis: MarketBasis, pts: seq<PricePoint>, from: nat, e: ConstructionError)
  {
    match e
    case NoPricePoints => false
    case ForeignMarketBasis(k) =>
      && from <= k < |pts|
      && pts[k].price.basis != basis
      && (forall j :: from <= j < k ==> Acceptable(basis, pts, j))
    case DemandRises(k) =>
      && from <= k < |pts|
      && 0 < k
      && pts[k].price.basis == basis
      && pts[k].demand > pts[k - 1].demand
      && (forall j :: from <= j < k ==> Acceptable(basis, pts, j))
  }

  /** The constructor's scan from index `from`: per point the basis test comes
      before the descent test, and the first failing point decides the error. */
  function FirstViolation(basis: MarketBasis, pts: seq<PricePoint>, from: nat): (e: Option<ConstructionError>)
    requires from <= |pts|
    ensures e.None? <==> forall j :: from <= j < |pts| ==> Acceptable(basis, pts, j)
    ensures e.Some? ==> RejectedAt(basis, pts, from, e.value)
    decreases |pts| - from
  {
    if from == |pts| then None
    else if pts[from].price.basis != basis then
      assert !Acceptable(basis, pts, from);
      Some(ForeignMarketBasis(from))
    else if from > 0 && pts[from].demand > pts[from - 1].demand then
      assert !Acceptable(basis, pts, from);
      Some(DemandRises(from))
    else
      FirstViolation(basis, pts, from + 1)
  }

  /** Every point has the first point's demand. */
  predicate AllDemandsEqual(pts: seq<PricePoint>)
    requires |pts| > 0
  {
    forall j :: 0 <= j < |pts| ==> pts[j].demand == pts[0].demand
  }

  /** The validating constructor. */
  function NewPointBid(basis: MarketBasis, pts: seq<PricePoint>): (r: Result<PointBid, ConstructionError>)
    ensures r == Err(NoPricePoints) <==> |pts| == 0
    ensures r.Ok? <==> |pts| > 0 && InBasis(basis, pts) && Descending(pts)
    ensures r.Err? && |pts| > 0 ==> RejectedAt(basis, pts, 0, r.error)
    ensures r.Ok? ==> Valid(r.value) && r.value.basis == basis
    ensures r.Ok? && AllDemandsEqual(pts) ==> r.value.points == [pts[0]]
    ensures r.Ok? && !AllDemandsEqual(pts) ==> r.value.points == pts
  {
    if |pts| == 0 then Err(NoPricePoints)
    else
      match FirstViolation(basis, pts, 0)
      case Some(e) =>
        assert !Acceptable(basis, pts, e.index);
        Err(e)
      case None =>
        assert forall j :: 0 <= j < |pts| ==> Acceptable(basis, pts, j);
        assert InBasis(basis, pts) by {
          forall i | 0 <= i < |pts| ensures pts[i].price.basis == basis {
            assert Acceptable(basis, pts, i);
          }
        }
        assert Descending(pts) by {
          forall i | 0 < i < |pts| ensures pts[i].demand <= pts[i - 1].demand {
            assert Acceptable(basis, pts, i);
          }
        }
        Ok(PointBid(basis, if AllDemandsEqual(pts) then [pts[0]] else pts))
  }

  /** Demand along a descending sequence never rises, however far apart the points. */
  lemma {:induction false} DescendingBetween(pts: seq<PricePoint>, i: nat, j: nat)
    requires Descending(pts)
    requires i <= j < |pts|
    ensures pts[j].demand <= pts[i].demand
    decreases j - i
  {
    if i < j {
      DescendingBetween(pts, i, j - 1);
    }
  }

  /** The pairwise form of `Descending`. */
  lemma DescendingPairwise(pts: seq<PricePoint>)
    requires Descending(pts)
    ensures forall i, j :: 0 <= i <= j < |pts| ==> pts[j].demand <= pts[i].demand
  {
    forall i, j | 0 <= i <= j < |pts|
      ensures pts[j].demand <= pts[i].demand
    {
      DescendingBetween(pts, i, j);
    }
  }

  /** The first point of the curve: on a valid bid it demands the most, and
      once prices ascend it is priced lowest. */
  function First(bid: PointBid): (r: PricePoint)
    requires |bid.points| > 0
    ensures r in bid.points
    ensures Descending(bid.points) ==> forall i :: 0 <= i < |bid.points| ==> bid.points[i].demand <= r.demand
    ensures PricesAscending(bid.points) ==> forall i :: 0 <= i < |bid.points| ==> r.price.value <= bid.points[i].price.value
  {
    assert Descending(bid.points) ==> forall i :: 0 <= i < |bid.points| ==> bid.points[i].demand <= bid.points[0].demand by {
      if Descending(bid.points) {
        DescendingPairwise(bid.points);
      }
    }
    bid.points[0]
  }

  /** The last point of the curve: on a valid bid it demands the least, and
      once prices ascend it is priced highest. */
  function Last(bid: PointBid): (r: PricePoint)
    requires |bid.points| > 0
    ensures r in bid.points
    ensures Descending(bid.points) ==> forall i :: 0 <= i < |bid.points| ==> r.demand <= bid.points[i].demand
    ensures PricesAscending(bid.points) ==> forall i :: 0 <= i < |bid.points| ==> bid.points[i].price.value <= r.price.value
  {
    var n := |bid.points|;
    assert Descending(bid.points) ==> forall i :: 0 <= i < n ==> bid.points[n - 1].demand <= bid.points[i].demand by {
      if Descending(bid.points) {
        DescendingPairwise(bid.points);
      }
    }
    bid.points[n - 1]
  }

  /** The first point's demand, which no point of a valid bid exceeds. */
  function MaximumDemand(bid: PointBid): (d: real)
    requires Valid(bid)
    ensures forall i :: 0 <= i < |bid.points| ==> bid.points[i].demand <= d
    ensures d == First(bid).demand
  {
    DescendingPairwise(bid.points);
    First(bid).demand
  }

  /** The last point's demand, which every point of a valid bid reaches. */
  function MinimumDemand(bid: PointBid): (d: real)
    requires Valid(bid)
    ensures forall i :: 0 <= i < |bid.points| ==> d <= bid.points[i].demand
    ensures d == Last(bid).demand
    ensures d <= MaximumDemand(bid)
  {
    DescendingPairwise(bid.points);
    Last(bid).demand
  }

  /** Value equality of bids: same basis and the same points in the same order. */
  function SameBid(a: PointBid, b: PointBid): (r: bool)
    ensures r <==> a.basis == b.basis && |a.points| == |b.points|
                   && forall i :: 0 <= i < |a.points| ==> a.points[i] == b.points[i]
  {
    a.basis == b.basis && a.points == b.points
  }
}
