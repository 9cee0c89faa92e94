/** Numeric conventions shared by the price, liquidity and swap-sizing code:
    the Q96 fixed-point scale and Python's `int()` applied to a float.
    Floats are idealised as exact `real`s throughout. */
module Numeric {

  /** 2^96, the scale of a sqrt-price in Q64.96 fixed point. */
  const Q96: int := 0x1_0000_0000_0000_0000_0000_0000

  /** Q96 as a real, for the divisions the source performs in floating point. */
  const Q96R: real := Q96 as real

  /** Real product. Squares are written `Mul(x, x)` so that the solver treats
      them as ordinary terms and the sign lemmas below apply to them. */
  function Mul(a: real, b: real): real {
    a * b
  }

  lemma MulPos(a: real, b: real)
    requires 0.0 < a && 0.0 < b
    ensures 0.0 < Mul(a, b)
  {
  }

  lemma MulNonNeg(a: real, b: real)
    requires 0.0 <= a && 0.0 <= b
    ensures 0.0 <= Mul(a, b)
  {
  }

  lemma MulNegNeg(a: real, b: real)
    requires a < 0.0 && b < 0.0
    ensures 0.0 < Mul(a, b)
  {
    MulPos(-a, -b);
    assert Mul(-a, -b) == Mul(a, b);
  }

  /** `x ** 2`. */
  function Square(x: real): (r: real)
    ensures 0.0 <= r
    ensures x != 0.0 ==> 0.0 < r
  {
    if x > 0.0 then
      MulPos(x, x);
      Mul(x, x)
    else if x < 0.0 then
      MulNegNeg(x, x);
      Mul(x, x)
    else
      Mul(x, x)
  }

  /** Squaring is strictly increasing on the non-negative reals. */
  lemma SquareStrictMono(a: real, b: real)
    requires 0.0 <= a < b
    ensures Square(a) < Square(b)
  {
    MulPos(b - a, b + a);
    assert Square(b) - Square(a) == Mul(b - a, b + a);
  }

  function Abs(x: real): real {
    if x < 0.0 then -x else x
  }

  /** Python's `int(x)` on a float: truncation toward zero (not floor). */
  function Trunc(x: real): (r: int)
    ensures 0.0 <= x ==> 0 <= r && r as real <= x < r as real + 1.0
    ensures x < 0.0 ==> r <= 0 && r as real - 1.0 < x <= r as real
  {
    if x >= 0.0 then x.Floor else -((-x).Floor)
  }

  /** Truncation commutes with negation, which floor does not:
      `Trunc(-0.5) == 0` while `(-0.5).Floor == -1`. */
  lemma TruncOdd(x: real)
    ensures Trunc(-x) == -Trunc(x)
  {
  }

  /** Truncation never moves a value away from zero. */
  lemma TruncShrinks(x: real)
    ensures Abs(Trunc(x) as real) <= Abs(x) < Abs(Trunc(x) as real) + 1.0
  {
  }
}
