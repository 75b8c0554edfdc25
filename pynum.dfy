/**
 * The two Python numeric conversions the controller and the cluster
 * extent rely on, written out on exact reals.
 */
module PyNum {

  /**
   * `int(round(x, 0))`: the integer nearest to `x`; an exact tie goes to
   * the even neighbour (Python rounds half to even).
   */
  function RoundHalfEven(x: real): (r: int)
    ensures -0.5 <= x - r as real <= 0.5
    ensures (x - r as real == 0.5 || r as real - x == 0.5) ==> r % 2 == 0
  {
    var f := x.Floor;
    var d := x - f as real;
    if d < 0.5 then f
    else if d > 0.5 then f + 1
    else if f % 2 == 0 then f
    else f + 1
  }

  /** `int(x)` on a float: truncation toward zero. */
  function TruncToZero(x: real): (r: int)
    ensures 0.0 <= x ==> 0 <= r && r as real <= x < r as real + 1.0
    ensures x < 0.0 ==> r <= 0 && r as real - 1.0 < x <= r as real
  {
    if x >= 0.0 then x.Floor else -((-x).Floor)
  }

  /** Any integer strictly closer than one half to `x` is the rounded value. */
  lemma RoundIsNearest(x: real, n: int)
    requires -0.5 < x - n as real < 0.5
    ensures RoundHalfEven(x) == n
  {
    var r := RoundHalfEven(x);
    assert -1.0 < (r - n) as real < 1.0;
  }

  /** An exact tie is resolved to the even neighbour. */
  lemma RoundTieIsEven(x: real, n: int)
    requires x - n as real == 0.5 || n as real - x == 0.5
    requires n % 2 == 0
    ensures RoundHalfEven(x) == n
  {
  }

  /** Rounding an integral value gives that value back. */
  lemma RoundOfInteger(n: int)
    ensures RoundHalfEven(n as real) == n
  {
    RoundIsNearest(n as real, n);
  }

  /** Rounding never reverses the order of two values. */
  lemma RoundMonotone(x: real, y: real)
    requires x <= y
    ensures RoundHalfEven(x) <= RoundHalfEven(y)
  {
  }
}
