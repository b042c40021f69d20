/**
 * The price search of `getDemandAt` as written: when the middle point is
 * priced exactly at the query and its successor is not, the branch evaluates
 * the middle point's demand without returning it and leaves the search
 * window unchanged, so the loop never ends. `DemandAt.SearchStep` is the
 * corrected round, which returns the middle point's demand.
 */
module Findings {
  import opened Market
  import opened Results
  import opened PointBids
  import opened DemandAt

  /** One round of the price search as written. */
  function SearchStepAsWritten(pts: seq<PricePoint>, p: real, low: nat, high: nat): (s: SearchState)
    requires SearchInvariant(pts, p, low, high) && high - low > 1
    requires p < pts[|pts| - 1].price.value
    ensures s.Narrowed? ==> SearchInvariant(pts, p, s.low, s.high) && low <= s.low && s.high <= high
    ensures s == Narrowed(low, high) <==>
              pts[(low + high) / 2].price.value == p && pts[(low + high) / 2 + 1].price.value != p
    ensures s.Hit? ==> StepAnswer(pts, p, s.demand)
  {
    var middle := (low + high) / 2;
    if pts[middle].price.value < p then Narrowed(middle, high)
    else if pts[middle].price.value > p then Narrowed(low, middle)
    else if pts[middle + 1].price.value == p then
      assert LowerSideAt(pts, p, middle + 1);
      Hit(pts[middle + 1].demand)
    else Narrowed(low, high)
  }

  /** At most `fuel` rounds of the as-written search loop, then its
      interpolation; `None` when the fuel runs out with the loop still going. */
  function RunAsWritten(pts: seq<PricePoint>, p: real, low: nat, high: nat, fuel: nat): (r: Option<real>)
    requires SearchInvariant(pts, p, low, high)
    requires p < pts[|pts| - 1].price.value
    ensures r.Some? ==> StepAnswer(pts, p, r.value) || SegmentAnswer(pts, p, r.value)
    decreases fuel
  {
    if high - low <= 1 then
      assert Straddles(pts, p, low);
      Some(Interpolate(pts[low], pts[high], p))
    else if fuel == 0 then
      None
    else
      match SearchStepAsWritten(pts, p, low, high)
      case Hit(d) => Some(d)
      case Narrowed(l, h) => RunAsWritten(pts, p, l, h, fuel - 1)
  }

  /** A 0..100 basis for the example. */
  function ExampleBasis(): MarketBasis
  {
    MarketBasis("electricity", "EUR", 100, 0.0, 100.0)
  }

  /** Points at prices 0, 50 and 100 with falling demand. */
  function ExamplePoints(): seq<PricePoint>
  {
    [PricePoint(Price(ExampleBasis(), 0.0), 10.0),
     PricePoint(Price(ExampleBasis(), 50.0), 5.0),
     PricePoint(Price(ExampleBasis(), 100.0), 0.0)]
  }

  /** The example is a valid bid and a query at 50 reaches the price search. */
  lemma ExampleReachesSearch()
    ensures NewPointBid(ExampleBasis(), ExamplePoints()) == Ok(PointBid(ExampleBasis(), ExamplePoints()))
    ensures ExamplePoints()[0].price.value < 50.0 < ExamplePoints()[2].price.value
    ensures SearchInvariant(ExamplePoints(), 50.0, 0, 3)
  {
    assert ExamplePoints()[1].demand != ExamplePoints()[0].demand;
  }

  /** As written, the search for price 50 over the example never leaves its loop. */
  lemma {:induction false} AsWrittenNeverEnds(fuel: nat)
    ensures RunAsWritten(ExamplePoints(), 50.0, 0, 3, fuel) == None
  {
    if fuel > 0 {
      assert SearchStepAsWritten(ExamplePoints(), 50.0, 0, 3) == Narrowed(0, 3);
      AsWrittenNeverEnds(fuel - 1);
    }
  }

  /** The corrected round answers the same query with the middle point's demand. */
  lemma CorrectedSearchAnswers()
    ensures SearchStep(ExamplePoints(), 50.0, 0, 3) == Hit(5.0)
  {
  }
}
