/** Price conversions and in-range reserves of a concentrated-liquidity pool,
    idealised over exact reals. Square roots are not computed: where the
    source calls `math.sqrt(x)` the model takes the root as a parameter
    constrained by `IsSqrt(x, root)`. */
module PriceMath {
  import opened Numeric

  /** The divisor the token prices hard-code for the WETH/USDC decimals
      difference (18 - 6 = 12 decimal places). */
  const DECIMALS_DIVISOR: real := 1_000_000_000_000.0

  /** `root` is the non-negative square root of `x`. */
  predicate IsSqrt(x: real, root: real) {
    0.0 <= root && Square(root) == x
  }

  /** A number has at most one non-negative square root, so passing the root
      as a parameter fixes it. */
  lemma SqrtUnique(x: real, r1: real, r2: real)
    requires IsSqrt(x, r1) && IsSqrt(x, r2)
    ensures r1 == r2
  {
    if r1 < r2 { SquareStrictMono(r1, r2); }
    else if r2 < r1 { SquareStrictMono(r2, r1); }
  }

  /** `(sqrtp / 2^96) ** 2`: the raw pool price from a Q96 sqrt-price. */
  function SqrtpToPrice(sqrtp: real): (p: real)
    ensures 0.0 <= p
    ensures p == 0.0 <==> sqrtp == 0.0
    ensures 0.0 <= sqrtp ==> IsSqrt(p, sqrtp / Q96R)
  {
    var s := sqrtp / Q96R;
    assert sqrtp != 0.0 ==> s != 0.0;
    Square(s)
  }

  /** The price grows strictly with the sqrt-price on non-negative inputs. */
  lemma SqrtpToPriceStrictlyIncreasing(a: real, b: real)
    requires 0.0 <= a < b
    ensures SqrtpToPrice(a) < SqrtpToPrice(b)
  {
    SquareStrictMono(a / Q96R, b / Q96R);
  }

  /** Price of token1 (WETH) in token0 (USDC) units, decimals divided out. */
  function Token1Price(sqrtp: real): (r: real)
    ensures 0.0 <= r
    ensures r == 0.0 <==> sqrtp == 0.0
    ensures r * DECIMALS_DIVISOR == SqrtpToPrice(sqrtp)
  {
    SqrtpToPrice(sqrtp) / DECIMALS_DIVISOR
  }

  /** Price of token0 in token1 units: the reciprocal of `Token1Price`.
      A zero sqrt-price divides by zero in the source. */
  function Token0Price(sqrtp: real): (r: real)
    requires sqrtp != 0.0
    ensures 0.0 < r
  {
    1.0 / Token1Price(sqrtp)
  }

  /** The two token prices are exact reciprocals. */
  lemma TokenPricesReciprocal(sqrtp: real)
    requires sqrtp != 0.0
    ensures Token0Price(sqrtp) * Token1Price(sqrtp) == 1.0
  {
  }

  /** As the sqrt-price rises, token1 gets dearer and token0 cheaper. */
  lemma TokenPricesMoveOpposite(a: real, b: real)
    requires 0.0 < a < b
    ensures Token1Price(a) < Token1Price(b)
    ensures Token0Price(b) < Token0Price(a)
  {
    SqrtpToPriceStrictlyIncreasing(a, b);
    ReciprocalAntitone(Token1Price(a), Token1Price(b));
  }

  lemma ReciprocalAntitone(a: real, b: real)
    requires 0.0 < a < b
    ensures 1.0 / b < 1.0 / a
  {
    assert 1.0 / b * b == 1.0 == 1.0 / a * a;
  }

  /** Token0 reserve in `[p, sqrt(pb)]`: `L * (sqrt(pb) - p) / (p * sqrt(pb))`,
      with `p` the normalised sqrt price and `pb` the upper bound price. */
  function XLiq(p: real, pb: real, rootPb: real, liq: real): (x: real)
    requires IsSqrt(pb, rootPb)
    requires p != 0.0 && pb != 0.0
    ensures x == liq * (1.0 / p - 1.0 / rootPb)
    ensures x == 0.0 <==> liq == 0.0 || p == rootPb
  {
    assert rootPb != 0.0;
    assert (rootPb - p) / (p * rootPb) == 1.0 / p - 1.0 / rootPb;
    liq * ((rootPb - p) / (p * rootPb))
  }

  /** Token1 reserve in `[sqrt(pa), p]`: `L * (p - sqrt(pa))`. */
  function YLiq(p: real, pa: real, rootPa: real, liq: real): (y: real)
    requires IsSqrt(pa, rootPa)
    ensures y == 0.0 <==> liq == 0.0 || p == rootPa
    ensures 0.0 <= liq && rootPa <= p ==> 0.0 <= y
  {
    assert 0.0 <= liq && rootPa <= p ==> 0.0 <= liq * (p - rootPa) by {
      if 0.0 <= liq && rootPa <= p {
        MulNonNeg(liq, p - rootPa);
      }
    }
    liq * (p - rootPa)
  }

  /** With non-negative liquidity and a price inside the range, both
      reserves are non-negative. */
  lemma ReservesNonNegativeInRange(p: real, pa: real, rootPa: real, pb: real, rootPb: real, liq: real)
    requires IsSqrt(pa, rootPa) && IsSqrt(pb, rootPb)
    requires 0.0 < p && rootPa <= p <= rootPb && pb != 0.0
    requires 0.0 <= liq
    ensures 0.0 <= XLiq(p, pb, rootPb, liq)
    ensures 0.0 <= YLiq(p, pa, rootPa, liq)
  {
    if p < rootPb {
      ReciprocalAntitone(p, rootPb);
    }
  }

  /** Within the range the reserves satisfy the concentrated-liquidity
      invariant `(x + L/sqrt(pb)) * (y + L*sqrt(pa)) == L^2`. */
  lemma ReservesKeepCurveInvariant(p: real, pa: real, rootPa: real, pb: real, rootPb: real, liq: real)
    requires IsSqrt(pa, rootPa) && IsSqrt(pb, rootPb)
    requires p != 0.0 && pb != 0.0
    ensures (XLiq(p, pb, rootPb, liq) + liq / rootPb) * (YLiq(p, pa, rootPa, liq) + liq * rootPa) == Square(liq)
  {
    assert rootPb != 0.0;
    assert XLiq(p, pb, rootPb, liq) + liq / rootPb == liq / p;
    assert YLiq(p, pa, rootPa, liq) + liq * rootPa == liq * p;
    assert liq / p * (liq * p) == Square(liq);
  }

  /** A higher price means less token0 and more token1 in the range. */
  lemma ReservesMoveWithPrice(p1: real, p2: real, pa: real, rootPa: real, pb: real, rootPb: real, liq: real)
    requires IsSqrt(pa, rootPa) && IsSqrt(pb, rootPb) && pb != 0.0
    requires 0.0 < p1 < p2
    requires 0.0 < liq
    ensures XLiq(p2, pb, rootPb, liq) < XLiq(p1, pb, rootPb, liq)
    ensures YLiq(p1, pa, rootPa, liq) < YLiq(p2, pa, rootPa, liq)
  {
    ReciprocalAntitone(p1, p2);
    MulPos(liq, 1.0 / p1 - 1.0 / p2);
    assert XLiq(p1, pb, rootPb, liq) - XLiq(p2, pb, rootPb, liq) == Mul(liq, 1.0 / p1 - 1.0 / p2);
    MulPos(liq, p2 - p1);
    assert YLiq(p2, pa, rootPa, liq) - YLiq(p1, pa, rootPa, liq) == Mul(liq, p2 - p1);
  }
}
