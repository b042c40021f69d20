/**
 * The price domain of a cluster, prices in it and the (price, demand) samples
 * that make up a bid curve. Floating-point values are modelled as `real`.
 */
module Market {

  /** Immutable description of the traded commodity's price domain. */
  datatype MarketBasis = MarketBasis(
    commodity: string,
    currency: string,
    priceSteps: int,
    minimumPrice: real,
    maximumPrice: real)

  /** A price value under a market basis. */
  datatype Price = Price(basis: MarketBasis, value: real)

  /** One sample of a bid curve: the demand at a price. */
  datatype PricePoint = PricePoint(price: Price, demand: real)

  /** The order in which a builder keeps its points: ascending price, and at an
      equal price the higher demand first (so a vertical step reads downwards). */
  predicate Precedes(a: PricePoint, b: PricePoint)
  {
    a.price.value < b.price.value || (a.price.value == b.price.value && a.demand > b.demand)
  }

  /** Two points the builder's ordered set treats as the same element. */
  predicate SameKey(a: PricePoint, b: PricePoint)
  {
    a.price.value == b.price.value && a.demand == b.demand
  }
}
