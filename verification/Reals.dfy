/** Products and quotients of reals, one fact at a time. */
module Reals {

  lemma QuotientTimes(f: real, m: real)
    requires m > 0.0
    ensures (f / m) * m == f
  {}

  lemma ScaleLess(a: real, b: real, m: real)
    requires m > 0.0
    ensures a < b <==> a * m < b * m
  {
    if a < b { assert (b - a) * m > 0.0; } else { assert (a - b) * m >= 0.0; }
  }

  lemma Distributes(x: real, y: real, m: real)
    ensures (x + y) * m == x * m + y * m
  {}

  /** Comparing a quotient is comparing a product. */
  lemma QuotientLess(f: real, m: real, c: real)
    requires m > 0.0
    ensures f / m < c <==> f < c * m
    ensures f / m > c <==> f > c * m
  {
    QuotientTimes(f, m);
    ScaleLess(f / m, c, m);
    ScaleLess(c, f / m, m);
  }

  lemma TimesZero(x: real)
    ensures x * 0.0 == 0.0 && 0.0 * x == 0.0
  {}

  lemma ProductNonNegative(a: real, b: real)
    requires a >= 0.0 && b >= 0.0
    ensures a * b >= 0.0
  {
    if b > 0.0 {
      ScaleLess(a, 0.0, b);
    } else {
      TimesZero(a);
    }
  }

  function Product(x: real, y: real): real { x * y }

  function Square(x: real): real { Product(x, x) }

  lemma PositiveProduct(x: real, y: real)
    requires x > 0.0 && y > 0.0
    ensures Product(x, y) > 0.0
  {
    ScaleLess(0.0, x, y);
  }

  lemma SignsCancel(x: real, y: real)
    ensures Product(-x, -y) == Product(x, y)
  {}

  lemma SquareSign(x: real)
    ensures if x == 0.0 then Square(x) == 0.0 else Square(x) > 0.0
  {
    if x > 0.0 {
      PositiveProduct(x, x);
    } else if x < 0.0 {
      PositiveProduct(-x, -x);
      SignsCancel(x, x);
    } else {
      assert Product(x, 0.0) == 0.0;
    }
  }

  lemma UnitProduct(a: real, b: real)
    requires 0.0 <= a <= 1.0 && 0.0 <= b <= 1.0
    ensures 0.0 <= a * b <= 1.0
  {
    ProductNonNegative(a, b);
    ProductNonNegative(1.0 - a, b);
    Distributes(1.0 - a, a, b);
  }
}
