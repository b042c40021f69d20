# PowerMatcher point bids in Dafny

This project models `PointBid`, the bid-curve value of the PowerMatcher
market. A point bid is an immutable, non-empty sequence of (price, demand)
points under one market basis, and its demand never rises along the
sequence. The model covers:

- the validating constructor. It refuses an empty point list, a point of a
  foreign market basis, and rising demand. It collapses a curve whose demands
  are all equal to its first point;
- `calculateIntersection` and `intersect`. These find the price at which the
  curve meets a target demand. The auctioneer asks for target 0, which gives
  the clearing price;
- `getDemandAt`, the inverse query. It has boundary cases, a rule for two
  points at one price, and a binary search over prices followed by linear
  interpolation;
- `getMaximumDemand`, `getMinimumDemand`, `getFirst`, `getLast` and `equals`;
- the `Builder`. It collects points into an ordered set and hands them to the
  constructor in that order.

Prices and demands are `real`. `demandIsEqual` is exact equality. A `Price`
compares by its value. A query price is taken to be on the bid's own basis.

The modules are:

- `Market`: the basis, price and point records, and the point order.
- `PointBids`: the bid, its constructor, its invariant, and the demand bounds.
- `Intersection`: the bisection and interpolation, with a linear-scan
  reference bracket and reference clearing price.
- `DemandAt`: the price search and interpolation, with a reference curve
  `CurveDemand`.
- `CurveInverse`: the round trips between the two queries.
- `Builders`: the builder.
- `Findings`: the price search as written.

Loops become methods with invariants. `CalculateIntersection` is proved
equal to a linear-scan reference clearing price for every target.
`FindBracket` is proved to end on the unique bracket of the target.
`GetDemandAt` is proved to return one of the answers the source's case
analysis allows. On curves whose prices are distinct, it is also proved
equal to a reference piecewise-linear curve.

## Model

| member | source | states |
|---|---|---|
| PointBids.FirstViolation | net.powermatcher.api/src/net/powermatcher/api/data/PointBid.java:111-123 | The scan finds nothing exactly when every point has the bid's basis and no more demand than its predecessor. Otherwise it reports the first failing point, and for that point the basis test comes before the descent test. |
| PointBids.NewPointBid | net.powermatcher.api/src/net/powermatcher/api/data/PointBid.java:105-130 | Refuses the input with NoPricePoints exactly when it is empty. Succeeds exactly when the input is non-empty, all in the basis and never rising. Any other refusal names the first offending point. A success is a valid bid of that basis holding exactly `[pts[0]]` when every demand equals the first, and the input unchanged otherwise. |
| PointBids.DescendingBetween | net.powermatcher.api/src/net/powermatcher/api/data/PointBid.java:116-117 | The neighbour-by-neighbour descent check makes every later point demand no more than every earlier one. |
| PointBids.MaximumDemand | net.powermatcher.api/src/net/powermatcher/api/data/PointBid.java:225-227 | The first point's demand is an upper bound on every point's demand. |
| PointBids.MinimumDemand | net.powermatcher.api/src/net/powermatcher/api/data/PointBid.java:233-235 | The last point's demand is a lower bound on every point's demand and does not exceed the maximum. |
| PointBids.First | net.powermatcher.api/src/net/powermatcher/api/data/PointBid.java:321-323 | The first point belongs to the curve. On a descending curve no point demands more, and on ascending prices no point is priced lower. |
| PointBids.Last | net.powermatcher.api/src/net/powermatcher/api/data/PointBid.java:328-330 | The last point belongs to the curve. On a descending curve no point demands less, and on ascending prices no point is priced higher. |
| PointBids.SameBid | net.powermatcher.api/src/net/powermatcher/api/data/PointBid.java:385-395 | Two bids are equal exactly when their bases match and their point arrays agree in length and at every index. |
| Intersection.ReferenceBracket | net.powermatcher.api/src/net/powermatcher/api/data/PointBid.java:166-197 | For a target within the curve's demand range, two linear scans give a bracket. A bracket is either the whole run of points demanding the target, or two neighbours straddling it, with higher demand before and lower after. |
| Intersection.BracketUnique | net.powermatcher.api/src/net/powermatcher/api/data/PointBid.java:166-197 | A target has at most one bracket, so any search that finds one finds the same one. |
| Intersection.FindBracket | net.powermatcher.api/src/net/powermatcher/api/data/PointBid.java:157-197 | The bisection over demands, followed by widening across exact matches, ends on a bracket of the target, with every index inside the array. |
| Intersection.LeftPrice | net.powermatcher.api/src/net/powermatcher/api/data/PointBid.java:206-207 | On ascending prices inside the basis, the lower end of the interpolation lies at or below the price of every point from the bracket's left end on. That end is the basis minimum when the bracket ends at the first point, and the left point's price otherwise. |
| Intersection.RightPrice | net.powermatcher.api/src/net/powermatcher/api/data/PointBid.java:208-209 | On ascending prices inside the basis, the upper end of the interpolation lies at or above the price of every point up to the bracket's right end. That end is the basis maximum when the bracket starts at the last point, and the right point's price otherwise. |
| Intersection.DemandFactor | net.powermatcher.api/src/net/powermatcher/api/data/PointBid.java:214-215 | The factor lies in [0, 1] when the target lies between the bracket's demands. When those demands differ, moving that fraction down the demand step lands exactly on the target. |
| Intersection.IntersectPrice | net.powermatcher.api/src/net/powermatcher/api/data/PointBid.java:202-218 | The price lies between the bracket's left and right prices, which are the basis bounds at the array ends. A flat bracket gives their midpoint. |
| Intersection.IntersectStrictlyBetweenNeighbours | net.powermatcher.api/src/net/powermatcher/api/data/PointBid.java:206-216 | Between two neighbours at distinct prices that straddle the target, the price lies strictly between their prices. |
| Intersection.CalculateIntersection | net.powermatcher.api/src/net/powermatcher/api/data/PointBid.java:156-200 | The method's result equals the reference clearing price for every target. A target above the maximum demand gives the basis minimum price, and one below the minimum demand gives the basis maximum. |
| Intersection.ClearingPriceInRange | net.powermatcher.api/src/net/powermatcher/api/data/PointBid.java:156-218 | When every point is priced inside the basis range, so is the intersection. |
| Intersection.FlatBidClearingPrice | net.powermatcher.api/src/net/powermatcher/api/data/PointBid.java:160-218 | A single-point bid meets a target at the basis minimum when the target is above its demand, at the maximum when below, and at the basis midpoint when equal. |
| Intersection.OneSidedBidClearsAtBound | net.powermatcher.api/src/net/powermatcher/api/data/PointBid.java:160-165 | Demand above zero everywhere clears at the basis maximum price. Demand below zero everywhere clears at the basis minimum. |
| Intersection.ExampleClearsAt75 | net.powermatcher.api/src/net/powermatcher/api/data/PointBid.java:156-218 | Points (0, 10), (50, 10), (100, -10) on a 0..100 basis build a bid that clears at price 75. |
| Intersection.FlatCollapseMovesIntersection | net.powermatcher.api/src/net/powermatcher/api/data/PointBid.java:125-126 | Points (10, 5) and (20, 5) would meet demand 5 at price 15. The constructor collapses them to one point, which meets demand 5 at the basis midpoint 50. |
| DemandAt.Interpolate | net.powermatcher.api/src/net/powermatcher/api/data/PointBid.java:306-314 | The blended demand lies on the straight line through the two points. For a price between theirs, it lies between their demands. |
| DemandAt.SearchStep | net.powermatcher.api/src/net/powermatcher/api/data/PointBid.java:286-304 | A round of the price search either keeps "low is priced below the query, high is the end or priced above it" and strictly narrows the window, or answers with the demand of the lower side of a vertical step at the query price. |
| DemandAt.CurveDemand | net.powermatcher.api/src/net/powermatcher/api/data/PointBid.java:259-315 | On a curve with distinct prices, the reference curve stays within the demand range. It is the maximum demand at or below the first price and the minimum at or above the last. It passes through every point and is the straight line between straddling neighbours. |
| DemandAt.GetDemandAt | net.powermatcher.api/src/net/powermatcher/api/data/PointBid.java:259-315 | The result is one of the answers `Answers` allows. Boundary cases: a single point gives its demand; a price below the first gives the maximum; a price equal to the first gives the second point's demand when it shares that price, and the maximum otherwise; a price at or above the last gives the minimum. Inside, the result is the lower-side demand at an exact price or the interpolation across straddling neighbours. It always stays within [minimum, maximum] and equals the reference curve when prices are distinct. |
| DemandAt.CurveDemandNonIncreasing | net.powermatcher.api/src/net/powermatcher/api/data/PointBid.java:259-315 | On a curve with distinct prices, the reference curve's demand never rises as the price rises. |
| DemandAt.AnswerWithinRange | net.powermatcher.api/src/net/powermatcher/api/data/PointBid.java:259-315 | Every answer the query allows lies between the minimum and the maximum demand. |
| DemandAt.AnswerAboveLaterPoint | net.powermatcher.api/src/net/powermatcher/api/data/PointBid.java:259-315 | On ascending prices, an answer at a price is at least the demand of every point priced above it, and at least the demand of the last point priced exactly at it. |
| DemandAt.AnswerOnSegment | net.powermatcher.api/src/net/powermatcher/api/data/PointBid.java:306-314 | On ascending prices, an answer strictly between two neighbours' prices is the interpolation between exactly those neighbours. |
| DemandAt.AnswersNonIncreasing | net.powermatcher.api/src/net/powermatcher/api/data/PointBid.java:259-315 | On ascending prices, including vertical steps where several points share a price, every answer at a higher price is at most every answer at a lower price. |
| CurveInverse.StraddledTargetRoundTrip | net.powermatcher.api/src/net/powermatcher/api/data/PointBid.java:206-216 | Reading the demand at the price interpolated between two straddling neighbours gives the target back. |
| CurveInverse.DemandAtClearingPrice | net.powermatcher.api/src/net/powermatcher/api/data/PointBid.java:156-315 | On a curve with distinct prices, the demand at the intersection price of any target strictly inside the demand range is that target. |
| CurveInverse.PointRoundTrip | net.powermatcher.api/src/net/powermatcher/api/data/PointBid.java:166-199 | On a strictly falling curve, the intersection for an interior point's demand is that point's price. |
| CurveInverse.StraddledPriceRoundTrip | net.powermatcher.api/src/net/powermatcher/api/data/PointBid.java:202-218 | On a curve with distinct prices and strictly falling demand, take a price strictly between two neighbours' prices. The intersection for the demand interpolated there is that price. |
| CurveInverse.ClearingPriceAtDemand | net.powermatcher.api/src/net/powermatcher/api/data/PointBid.java:156-315 | On a curve with distinct prices and strictly falling demand, the intersection for the demand at an interior price is that price. |
| Builders.NewBuilder | net.powermatcher.api/src/net/powermatcher/api/data/PointBid.java:45-48 | A fresh builder has the given basis and an empty, ordered point set. |
| Builders.Insert | net.powermatcher.api/src/net/powermatcher/api/data/PointBid.java:57-58 | Adding to the ordered set keeps it strictly ordered. A point equal to one already present leaves the set unchanged. Otherwise the set gains exactly that point. |
| Builders.Add | net.powermatcher.api/src/net/powermatcher/api/data/PointBid.java:57-60 | `add` keeps the builder's points ordered and its basis unchanged, and adds exactly the new point unless an equal one is present. |
| Builders.AddPoint | net.powermatcher.api/src/net/powermatcher/api/data/PointBid.java:71-73 | `add(price, demand)` adds the point priced under the builder's own basis. |
| Builders.Build | net.powermatcher.api/src/net/powermatcher/api/data/PointBid.java:82-84 | A bid that comes out of the builder lists its points in ascending price order, which the constructor itself never checks. |
| Builders.OrderedUnique | net.powermatcher.api/src/net/powermatcher/api/data/PointBid.java:37 | Two strictly ordered sequences holding the same points are the same sequence, so the ordered set has one representation. |
| Builders.AddCommutes | net.powermatcher.api/src/net/powermatcher/api/data/PointBid.java:57-60 | Adding two distinct points in either order gives the same builder. |
| Builders.AddIdempotent | net.powermatcher.api/src/net/powermatcher/api/data/PointBid.java:57-60 | Adding the same point twice gives the same builder as adding it once. |
| Findings.SearchStepAsWritten | net.powermatcher.api/src/net/powermatcher/api/data/PointBid.java:286-304 | A round of the search as written leaves the window unchanged exactly when the middle point is priced at the query and its successor is not. |
| Findings.RunAsWritten | net.powermatcher.api/src/net/powermatcher/api/data/PointBid.java:284-314 | Whenever the as-written loop does stop within the allowed rounds, its result is the lower-side demand at an exact price or an interpolation across straddling neighbours. |
| Findings.ExampleReachesSearch | net.powermatcher.api/src/net/powermatcher/api/data/PointBid.java:259-284 | Points at prices 0, 50 and 100 with falling demand form a valid bid. A query at 50 passes every boundary case and enters the price search. |
| Findings.AsWrittenNeverEnds | net.powermatcher.api/src/net/powermatcher/api/data/PointBid.java:284-305 | As written, that search never leaves its loop, however many rounds are allowed. |

## Left out

- `aggregate`, `toArrayBid` and the `PointBid(ArrayBid)` constructor: they delegate to `ArrayBid`, and ArrayBid is not part of this model. The lazily filled `arrayBid` cache goes with them.
- `toPointBid` returns the bid itself, so a point bid is its own point-bid form and there is nothing to state.
- `hashCode`, `toString`, `iterator` and the copying `getPricePoints`: these are Java object plumbing.
- The constructor keeps the caller's array without copying it (PointBid.java:128), so a caller that later writes to that array changes the bid. A Dafny sequence is a value, so the model cannot express this aliasing, and its bids are immutable.
- Double-precision arithmetic and any tolerance in `demandIsEqual`: prices and demands are exact reals, and demand equality is exact. `demandIsEqual` lives in `Bid`, which is not part of this model.
- The internals of `Price`, `PricePoint` and `MarketBasis`. A price is its value. The order of the builder's ordered set is taken to be ascending price, then higher demand first. Two points with the same price and demand are the same set element, and the set keeps the one already present. `PricePoint.compareTo` is not part of this model.
- Query prices of a foreign basis: `getDemandAt` takes the price value and treats it as being on the bid's basis.
- The constructor's descent failure is a different exception class (`IllegalAccessError`) from its other refusals. The model gives each refusal its own error value, not an exception class.
- DemandAt.GetDemandAt: when several points share a price strictly inside the curve, the contract says only that the result is the lower-side demand at that price or an interpolation across straddling neighbours. It does not say which of those the search reaches. `CurveDemand` is defined only for curves whose prices are distinct.
- Builders.Build: states the price order of what it builds. Everything else about the result is the constructor's contract, because `build` is the constructor applied to the ordered points.
- When a point equal to one already in the builder's ordered set is added, the set keeps the point already present (PointBid.java:58).
- Collapsing a flat bid to one point changes the price at which it meets its own demand: 15 becomes 50 (`Intersection.FlatCollapseMovesIntersection`).
- DemandAt.AnswersNonIncreasing: compares answers at two different prices only. At a single price inside a run of three or more equally priced points, the model allows more than one answer. The source's search always picks the same one, and the model does not say which.
- Integration tests, the browser visualiser and the telemetry logging component are outside this model.

## Findings

| source | as written | input that shows it | evidently intended | confidence | as-written member | corrected member |
|---|---|---|---|---|---|---|
| net.powermatcher.api/src/net/powermatcher/api/data/PointBid.java:301-303 | When the middle point is priced exactly at the query and its successor is not, the branch evaluates `middle.getDemand()` without returning it. It leaves both indices unchanged, so the loop at line 286 never ends. | Points (0, 10), (50, 5), (100, 0); query price 50 | Return the middle point's demand, the lower side at that price | not executed | Findings.AsWrittenNeverEnds | DemandAt.GetDemandAt |
