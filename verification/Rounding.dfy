/** Python's round on exact reals: to the nearest, ties to the even neighbour. */
module Rounding {

  function Round(x: real): int {
    var f := x.Floor;
    var d := x - f as real;
    if d < 0.5 then f else if d > 0.5 then f + 1 else if f % 2 == 0 then f else f + 1
  }

  function Round2(x: real): real { Round(x * 100.0) as real / 100.0 }

  function Round4(x: real): real { Round(x * 10000.0) as real / 10000.0 }

  lemma RoundNearest(x: real)
    ensures x - 0.5 <= Round(x) as real <= x + 0.5
  {}

  /** The defining property: the nearest integer, and of two equally near ones the even one. */
  lemma RoundExact(x: real, n: int)
    ensures n == Round(x) <==> x - 0.5 <= n as real <= x + 0.5 && (n as real == x - 0.5 || n as real == x + 0.5 ==> n % 2 == 0)
  {}

  lemma RoundShift(x: real, k: int)
    requires k % 2 == 0
    ensures Round(x + k as real) == Round(x) + k
  {
    assert (x + k as real).Floor == x.Floor + k;
  }

  /** Four decimals: the grid point of the rounded ten-thousandths. */
  lemma Round4Exact(x: real, n: int)
    ensures Round4(x) == n as real / 10000.0 <==> n == Round(x * 10000.0)
  {}

  lemma Round4Shift(x: real, k: int)
    requires k % 2 == 0
    ensures Round4(x + k as real / 10000.0) == Round4(x) + k as real / 10000.0
  {
    RoundShift(x * 10000.0, k);
    assert (x + k as real / 10000.0) * 10000.0 == x * 10000.0 + k as real;
  }

  /** Two decimals are off by half a hundredth at most. */
  lemma Round2Nearest(x: real)
    ensures x - 0.005 <= Round2(x) <= x + 0.005
  {
    RoundNearest(x * 100.0);
  }

  lemma RoundMonotone(x: real, y: real)
    requires x <= y
    ensures Round(x) <= Round(y)
  {
    assert x.Floor <= y.Floor;
    if x.Floor < y.Floor {
      assert Round(x) <= x.Floor + 1 <= y.Floor <= Round(y);
    }
  }

  lemma RoundInteger(n: int)
    ensures Round(n as real) == n
  {}

  /** A value between two multiples of the grid rounds to between them. */
  lemma Round2Within(lo: int, x: real, hi: int)
    requires lo as real <= x * 100.0 <= hi as real
    ensures lo as real / 100.0 <= Round2(x) <= hi as real / 100.0
  {
    RoundMonotone(lo as real, x * 100.0);
    RoundMonotone(x * 100.0, hi as real);
    RoundInteger(lo);
    RoundInteger(hi);
  }

  lemma Round4Within(lo: int, x: real, hi: int)
    requires lo as real <= x * 10000.0 <= hi as real
    ensures lo as real / 10000.0 <= Round4(x) <= hi as real / 10000.0
  {
    RoundMonotone(lo as real, x * 10000.0);
    RoundMonotone(x * 10000.0, hi as real);
    RoundInteger(lo);
    RoundInteger(hi);
  }

  lemma Round4Monotone(x: real, y: real)
    requires x <= y
    ensures Round4(x) <= Round4(y)
  {
    RoundMonotone(x * 10000.0, y * 10000.0);
  }
}
