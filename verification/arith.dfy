/** Facts about real arithmetic that the interpolation formulas rely on. */
module RealArith {

  /** `x` lies in the closed interval spanned by `a` and `b`, in either order. */
  predicate Between(x: real, a: real, b: real)
  {
    (a <= x <= b) || (b <= x <= a)
  }

  /** A non-negative quotient of a number by a larger one lies in [0, 1]. */
  lemma QuotientInUnitInterval(a: real, b: real)
    requires 0.0 <= a <= b && b > 0.0
    ensures 0.0 <= a / b <= 1.0
  {
    var q := a / b;
    assert q * b == a;
  }

  /** Scaling by a factor in [0, 1] keeps a number between zero and itself. */
  lemma ScaleByUnitFactor(x: real, f: real)
    requires 0.0 <= f <= 1.0
    ensures x >= 0.0 ==> 0.0 <= x * f <= x
    ensures x <= 0.0 ==> x <= x * f <= 0.0
  {
    var g := 1.0 - f;
    assert x * f + x * g == x;
    if x >= 0.0 {
      NonNegativeProduct(x, f);
      NonNegativeProduct(x, g);
    } else {
      NonNegativeProduct(-x, f);
      NonNegativeProduct(-x, g);
      assert (-x) * f == -(x * f);
      assert (-x) * g == -(x * g);
    }
  }

  /** Moving a fraction in [0, 1] of the width `w` from `lo` towards `hi` stays between them. */
  lemma StepAcross(lo: real, hi: real, w: real, f: real)
    requires w == hi - lo && 0.0 <= f <= 1.0
    ensures Between(lo + w * f, lo, hi)
  {
    ScaleByUnitFactor(w, f);
  }

  /** Moving a fraction in [0, 1] of the way from `lo` to `hi` stays between them. */
  lemma StepBetween(lo: real, hi: real, f: real)
    requires 0.0 <= f <= 1.0
    ensures Between(lo + (hi - lo) * f, lo, hi)
  {
    StepAcross(lo, hi, hi - lo, f);
  }

  /** Blending `y0` into `y1` by the fraction `offset / width` moves along the
      straight line between them and, for a fraction in [0, 1], stays between them. */
  lemma LinearBlend(y0: real, y1: real, offset: real, width: real)
    requires width > 0.0
    ensures var f := offset / width;
            ((1.0 - f) * y0 + f * y1 - y0) * width == (y1 - y0) * offset
    ensures var f := offset / width;
            0.0 <= offset <= width ==> Between((1.0 - f) * y0 + f * y1, y0, y1)
  {
    var f := offset / width;
    assert f * width == offset;
    var d := (1.0 - f) * y0 + f * y1;
    assert d - y0 == f * (y1 - y0);
    calc {
      (d - y0) * width;
      (f * (y1 - y0)) * width;
      (f * width) * (y1 - y0);
      offset * (y1 - y0);
    }
    if 0.0 <= offset <= width {
      QuotientInUnitInterval(offset, width);
      var rise := y1 - y0;
      ScaleByUnitFactor(rise, f);
      assert d == y0 + rise * f;
      ShiftStaysBetween(y0, y1, rise * f);
    }
  }

  /** Moving from `y0` towards `y1` by no more than their distance stays between them. */
  lemma ShiftStaysBetween(y0: real, y1: real, step: real)
    requires y1 - y0 >= 0.0 ==> 0.0 <= step <= y1 - y0
    requires y1 - y0 <= 0.0 ==> y1 - y0 <= step <= 0.0
    ensures Between(y0 + step, y0, y1)
  {
  }

  /** Reading a price back off a straight line: the price whose demand is `y`
      lies the fraction `(y0 - y) / (y0 - y1)` of the way from `x0` to `x1`. */
  lemma PriceOnLine(x0: real, x1: real, y0: real, y1: real, x: real, y: real)
    requires x0 < x1 && y0 != y1
    requires (y - y0) * (x1 - x0) == (y1 - y0) * (x - x0)
    ensures x0 + (x1 - x0) * ((y0 - y) / (y0 - y1)) == x
  {
    var g := (y0 - y) / (y0 - y1);
    assert g * (y0 - y1) == y0 - y;
    assert (y0 - y) * (x1 - x0) == (y0 - y1) * (x - x0);
    assert (g * (x1 - x0)) * (y0 - y1) == (x - x0) * (y0 - y1);
    CancelFactor(g * (x1 - x0), x - x0, y0 - y1);
  }

  /** Reading a demand back off a straight line at the price the fraction
      `(y0 - t) / (y0 - y1)` of the way from `x0` to `x1` gives `t`. */
  lemma DemandOnLine(x0: real, x1: real, y0: real, y1: real, t: real, q: real, y: real)
    requires x0 < x1 && y0 != y1
    requires q == x0 + (x1 - x0) * ((y0 - t) / (y0 - y1))
    requires (y - y0) * (x1 - x0) == (y1 - y0) * (q - x0)
    ensures y == t
  {
    var f := (y0 - t) / (y0 - y1);
    var w := x1 - x0;
    assert f * (y0 - y1) == y0 - t;
    assert q - x0 == w * f;
    calc {
      (y - y0) * w;
      (y1 - y0) * (w * f);
      ((y1 - y0) * f) * w;
    }
    CancelFactor(y - y0, (y1 - y0) * f, w);
  }

  /** A target strictly inside a falling demand step lands strictly inside the price step. */
  lemma FractionStrictlyInside(x0: real, x1: real, y0: real, y1: real, t: real, q: real)
    requires x0 < x1 && y0 > t > y1
    requires q == x0 + (x1 - x0) * ((y0 - t) / (y0 - y1))
    ensures x0 < q
    ensures q < x1
  {
    var f := (y0 - t) / (y0 - y1);
    assert f * (y0 - y1) == y0 - t;
    assert (1.0 - f) * (y0 - y1) == t - y1;
    PositiveFactor(f, y0 - y1);
    PositiveFactor(1.0 - f, y0 - y1);
    assert 0.0 < (x1 - x0) * f < (x1 - x0) * 1.0;
  }

  /** Strictly inside a price step of a falling line, the demand is strictly inside the demand step. */
  lemma LineStrictlyInside(x0: real, x1: real, y0: real, y1: real, x: real, y: real)
    requires x0 < x < x1 && y0 > y1
    requires (y - y0) * (x1 - x0) == (y1 - y0) * (x - x0)
    ensures y1 < y < y0
  {
    var w, u, v, h := x1 - x0, x - x0, x1 - x, y0 - y1;
    assert (y0 - y) * w == h * u;
    PositiveProduct(h, u);
    PositiveFactor(y0 - y, w);
    calc {
      (y - y1) * w;
      (y - y0) * w + h * w;
      h * w - h * u;
      h * (w - u);
      h * v;
    }
    PositiveProduct(h, v);
    PositiveFactor(y - y1, w);
  }

  /** The product of two non-negative numbers is non-negative. */
  lemma NonNegativeProduct(a: real, b: real)
    requires a >= 0.0 && b >= 0.0
    ensures a * b >= 0.0
  {
  }

  /** Cancelling a non-zero factor. */
  lemma CancelFactor(a: real, b: real, c: real)
    requires c != 0.0 && a * c == b * c
    ensures a == b
  {
    assert (a - b) * c == 0.0;
  }

  /** A positive product with a positive factor has a positive other factor. */
  lemma PositiveFactor(a: real, b: real)
    requires a * b > 0.0 && b > 0.0
    ensures a > 0.0
  {
  }

  /** Along a falling straight line, a higher abscissa has no higher ordinate. */
  lemma LineFalls(x0: real, x1: real, y0: real, y1: real, x: real, y: real, x': real, y': real)
    requires x0 < x1 && y1 <= y0 && x <= x'
    requires (y - y0) * (x1 - x0) == (y1 - y0) * (x - x0)
    requires (y' - y0) * (x1 - x0) == (y1 - y0) * (x' - x0)
    ensures y' <= y
  {
    assert (y' - y) * (x1 - x0) == (y1 - y0) * (x' - x);
    assert (y1 - y0) * (x' - x) <= 0.0;
  }

  /** The product of two positive numbers is positive. */
  lemma PositiveProduct(a: real, b: real)
    requires a > 0.0 && b > 0.0
    ensures a * b > 0.0
  {
  }
}
