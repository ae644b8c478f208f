/** Exact arithmetic helpers shared by the simulator and the rate solver.
    Python floats are modelled by exact reals throughout. */
module Numeric {

  /** Strictly positive reals: monthly growth factors, and the base and value
      of the power function used for discounting. */
  type Pos = x: real | x > 0.0 witness 1.0

  function Abs(x: real): (r: real)
    ensures r >= 0.0
    ensures r == x || r == -x
  {
    if x < 0.0 then -x else x
  }

  /** Python's `sum`: a left fold starting at 0.0. */
  function Sum(s: seq<real>): real
  {
    if |s| == 0 then 0.0 else Sum(s[..|s| - 1]) + s[|s| - 1]
  }

  lemma {:induction false} SumAppend(a: seq<real>, b: seq<real>)
    ensures Sum(a + b) == Sum(a) + Sum(b)
    decreases |b|
  {
    if |b| == 0 {
      assert a + b == a;
    } else {
      assert (a + b)[..|a + b| - 1] == a + b[..|b| - 1];
      SumAppend(a, b[..|b| - 1]);
    }
  }

  /** x to the natural power n, for the geometric growth of the upper bracket. */
  function Power(x: real, n: nat): (r: real)
    ensures x >= 1.0 ==> r >= 1.0
  {
    if n == 0 then 1.0 else x * Power(x, n - 1)
  }

  /** Smallest integer not below x. */
  function Ceil(x: real): (c: int)
    ensures c as real - 1.0 < x <= c as real
  {
    -((-x).Floor)
  }

  /** Python's `round` on a non-negative rational a/b: round half to even.
      The result is a nearest integer, and an even one on an exact tie. */
  function RoundHalfEven(a: int, b: int): (q: int)
    requires a >= 0 && b > 0
    ensures q >= 0
    ensures -b <= 2 * (a - q * b) <= b
    ensures 2 * (a - q * b) == b || 2 * (a - q * b) == -b ==> q % 2 == 0
  {
    var d := a / b;
    var m := a % b;
    assert a == d * b + m;
    if 2 * m < b then d
    else if 2 * m > b then d + 1
    else if d % 2 == 0 then d
    else d + 1
  }

  lemma RoundHalfEvenMonotone(a1: int, a2: int, b: int)
    requires 0 <= a1 <= a2 && b > 0
    ensures RoundHalfEven(a1, b) <= RoundHalfEven(a2, b)
  {
    NearestMultiplesOrdered(a1, a2, b, RoundHalfEven(a1, b), RoundHalfEven(a2, b));
  }

  /** If q1*b and q2*b are the half-even nearest multiples of b to a1 <= a2,
      then q1 <= q2. */
  lemma NearestMultiplesOrdered(a1: int, a2: int, b: int, q1: int, q2: int)
    requires b > 0 && a1 <= a2
    requires -b <= 2 * (a1 - q1 * b) && 2 * (a2 - q2 * b) <= b
    requires 2 * (a1 - q1 * b) == -b ==> q1 % 2 == 0
    requires 2 * (a2 - q2 * b) == b ==> q2 % 2 == 0
    ensures q1 <= q2
  {
    if q1 > q2 {
      var p1, p2 := q1 * b, q2 * b;
      MulAtLeast(q1 - q2, b);
      assert p1 - p2 == (q1 - q2) * b;
      if q1 - q2 >= 2 {
        MulAtLeast(q1 - q2 - 1, b);
        assert false;
      } else {
        // a tie on both sides at consecutive quotients: both cannot be even
        assert false;
      }
    }
  }

  lemma {:induction false} MulAtLeast(k: int, b: int)
    requires k >= 1 && b > 0
    ensures k * b >= b
    decreases k
  {
    if k > 1 {
      MulAtLeast(k - 1, b);
      assert k * b == (k - 1) * b + b;
    }
  }
}
