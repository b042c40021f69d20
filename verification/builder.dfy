/**
 * The bid builder: points are collected into an ordered set (ascending
 * price, higher demand first at an equal price) and handed to the
 * validating constructor in that order.
 */
module Builders {
  import opened Market
  import opened Results
  import opened PointBids

  datatype Builder = Builder(basis: MarketBasis, points: seq<PricePoint>)

  /** Every point strictly precedes every later one: sorted and free of duplicates. */
  predicate StrictlyOrdered(s: seq<PricePoint>)
  {
    forall i, j :: 0 <= i < j < |s| ==> Precedes(s[i], s[j])
  }

  /** Some point of `s` is the same set element as `x`. */
  predicate HasKey(s: seq<PricePoint>, x: PricePoint)
  {
    exists z :: z in s && SameKey(z, x)
  }

  /** A fresh builder holds an empty ordered set under its basis. */
  function NewBuilder(basis: MarketBasis): (r: Builder)
    ensures r.basis == basis && StrictlyOrdered(r.points)
    ensures forall z :: z !in r.points
  {
    Builder(basis, [])
  }

  /** Ordered-set insertion: a point equal to one already present is ignored. */
  function Insert(s: seq<PricePoint>, x: PricePoint): (r: seq<PricePoint>)
    requires StrictlyOrdered(s)
    ensures StrictlyOrdered(r)
    ensures HasKey(s, x) ==> r == s
    ensures forall z :: z in r <==> z in s || (z == x && !HasKey(s, x))
    decreases |s|
  {
    if |s| == 0 then
      [x]
    else if SameKey(s[0], x) then
      s
    else if Precedes(x, s[0]) then
      assert !HasKey(s, x) by {
        forall z | z in s ensures !SameKey(z, x) {
          var i :| 0 <= i < |s| && s[i] == z;
          assert i == 0 || Precedes(s[0], s[i]);
        }
      }
      [x] + s
    else
      var rest := Insert(s[1..], x);
      assert HasKey(s, x) <==> HasKey(s[1..], x) by {
        assert s == [s[0]] + s[1..];
      }
      assert forall z :: z in rest ==> Precedes(s[0], z) by {
        forall z | z in rest ensures Precedes(s[0], z) {
          if z != x {
            var i :| 0 <= i < |s[1..]| && s[1..][i] == z;
            assert s[i + 1] == z;
          }
        }
      }
      assert s == [s[0]] + s[1..];
      [s[0]] + rest
  }

  /** `Builder.add`: put a point into the builder's ordered set. */
  function Add(b: Builder, x: PricePoint): (r: Builder)
    requires StrictlyOrdered(b.points)
    ensures StrictlyOrdered(r.points) && r.basis == b.basis
    ensures forall z :: z in r.points <==> z in b.points || (z == x && !HasKey(b.points, x))
  {
    b.(points := Insert(b.points, x))
  }

  /** `Builder.add(price, demand)`: a point priced under the builder's own basis. */
  function AddPoint(b: Builder, price: real, demand: real): (r: Builder)
    requires StrictlyOrdered(b.points)
    ensures StrictlyOrdered(r.points) && r.basis == b.basis
    ensures forall z :: z in r.points <==>
              z in b.points || (z == PricePoint(Price(b.basis, price), demand) && !HasKey(b.points, z))
  {
    Add(b, PricePoint(Price(b.basis, price), demand))
  }

  /** `Builder.build`: the constructor applied to the ordered points, so a
      bid that comes out of it lists its points in ascending price order. */
  function Build(b: Builder): (r: Result<PointBid, ConstructionError>)
    requires StrictlyOrdered(b.points)
    ensures r.Ok? ==> PricesAscending(r.value.points)
  {
    NewPointBid(b.basis, b.points)
  }

  /** Two strictly ordered sequences holding the same points are equal. */
  lemma {:induction false} OrderedUnique(a: seq<PricePoint>, b: seq<PricePoint>)
    requires StrictlyOrdered(a) && StrictlyOrdered(b)
    requires forall z :: z in a <==> z in b
    ensures a == b
    decreases |a|
  {
    assert |a| > 0 ==> a[0] in a;
    assert |b| > 0 ==> b[0] in b;
    if |a| > 0 {
      assert |b| > 0;
      var j :| 0 <= j < |b| && b[j] == a[0];
      assert b[0] in b;
      var i :| 0 <= i < |a| && a[i] == b[0];
      if i > 0 && j > 0 {
        assert false;
      }
      assert a[0] == b[0];
      forall z
        ensures z in a[1..] <==> z in b[1..]
      {
        assert a == [a[0]] + a[1..];
        assert b == [b[0]] + b[1..];
        if z in a[1..] {
          var k :| 0 <= k < |a[1..]| && a[1..][k] == z;
          assert Precedes(a[0], a[k + 1]);
          assert z in b && z != b[0];
        }
        if z in b[1..] {
          var k :| 0 <= k < |b[1..]| && b[1..][k] == z;
          assert Precedes(b[0], b[k + 1]);
          assert z in a && z != a[0];
        }
      }
      OrderedUnique(a[1..], b[1..]);
      assert a == [a[0]] + a[1..];
      assert b == [b[0]] + b[1..];
    }
  }

  /** The order in which distinct points are added does not matter. */
  lemma AddCommutes(b: Builder, x: PricePoint, y: PricePoint)
    requires StrictlyOrdered(b.points)
    requires !SameKey(x, y)
    ensures Add(Add(b, x), y) == Add(Add(b, y), x)
  {
    var s := b.points;
    var sx, sy := Insert(s, x), Insert(s, y);
    assert HasKey(sx, y) <==> HasKey(s, y);
    assert HasKey(sy, x) <==> HasKey(s, x);
    OrderedUnique(Insert(sx, y), Insert(sy, x));
  }

  /** Adding a point twice is the same as adding it once. */
  lemma AddIdempotent(b: Builder, x: PricePoint)
    requires StrictlyOrdered(b.points)
    ensures Add(Add(b, x), x) == Add(b, x)
  {
    assert x in Add(b, x).points || HasKey(b.points, x);
    assert HasKey(Add(b, x).points, x);
  }
}
