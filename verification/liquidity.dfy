/** Deposit liquidity from token amounts and a sqrt-price range, as computed
    when seeding a position: both bounds are Q96 sqrt-prices, the division
    happens in floating point (idealised here as exact reals). */
module Liquidity {
  import opened Numeric
  import opened PriceMath

  /** The two bounds in ascending order; the source swaps them when the
      first is the larger. */
  function Ordered(pa: real, pb: real): (r: (real, real))
    ensures r.0 <= r.1
    ensures (r.0 == pa && r.1 == pb) || (r.0 == pb && r.1 == pa)
  {
    if pa > pb then (pb, pa) else (pa, pb)
  }

  /** Liquidity provided by `amount` of token0 over `[pa, pb]`:
      `amount * pa * pb / 2^96 / (pb - pa)`. Equal bounds divide by zero. */
  function Liquidity0(amount: real, pa: real, pb: real): (l: real)
    requires pa != pb
    ensures amount == 0.0 ==> l == 0.0
    ensures 0.0 < pa && 0.0 < pb && 0.0 < amount ==> 0.0 < l
  {
    var (lo, hi) := Ordered(pa, pb);
    assert 0.0 < lo && 0.0 < amount ==> 0.0 < amount * Mul(lo, hi) by {
      if 0.0 < lo && 0.0 < amount {
        MulPos(lo, hi);
        MulPos(amount, Mul(lo, hi));
      }
    }
    (amount * Mul(lo, hi) / Q96R) / (hi - lo)
  }

  /** Liquidity provided by `amount` of token1 over `[pa, pb]`:
      `amount * 2^96 / (pb - pa)`. Equal bounds divide by zero. */
  function Liquidity1(amount: real, pa: real, pb: real): (l: real)
    requires pa != pb
    ensures amount == 0.0 ==> l == 0.0
    ensures 0.0 < amount ==> 0.0 < l
  {
    var (lo, hi) := Ordered(pa, pb);
    amount * Q96R / (hi - lo)
  }

  /** The order in which the bounds are given does not matter. */
  lemma LiquiditySymmetric(amount: real, pa: real, pb: real)
    requires pa != pb
    ensures Liquidity0(amount, pa, pb) == Liquidity0(amount, pb, pa)
    ensures Liquidity1(amount, pa, pb) == Liquidity1(amount, pb, pa)
  {
  }

  /** Non-negative amounts over positive bounds give non-negative
      liquidity, and zero exactly for a zero amount. */
  lemma LiquiditySign(amount: real, pa: real, pb: real)
    requires pa != pb && 0.0 < pa && 0.0 < pb
    requires 0.0 <= amount
    ensures 0.0 <= Liquidity0(amount, pa, pb)
    ensures 0.0 <= Liquidity1(amount, pa, pb)
    ensures Liquidity0(amount, pa, pb) == 0.0 <==> amount == 0.0
    ensures Liquidity1(amount, pa, pb) == 0.0 <==> amount == 0.0
  {
    var (lo, hi) := Ordered(pa, pb);
    MulPos(lo, hi);
    if amount > 0.0 {
      MulPos(amount, Mul(lo, hi));
      MulPos(amount, Q96R);
      assert amount * Mul(lo, hi) == Mul(amount, Mul(lo, hi));
      assert amount * Q96R == Mul(amount, Q96R);
    }
  }

  /** `Liquidity0` inverts the token0 reserve formula: a position with that
      liquidity, priced at the lower bound, holds exactly `amount` of token0
      up to the upper bound (prices normalised by 2^96). */
  lemma Liquidity0InvertsXLiq(amount: real, lo: real, hi: real)
    requires 0.0 < lo < hi
    ensures XLiq(lo / Q96R, SqrtpToPrice(hi), hi / Q96R, Liquidity0(amount, lo, hi)) == amount
  {
    var p, r := lo / Q96R, hi / Q96R;
    var l := Liquidity0(amount, lo, hi);
    assert l == amount * (lo * hi) / Q96R / (hi - lo);
    assert (r - p) / (p * r) == (hi - lo) * Q96R / (lo * hi);
    assert l * ((hi - lo) * Q96R / (lo * hi)) == amount;
  }

  /** `Liquidity1` inverts the token1 reserve formula: priced at the upper
      bound, the position holds exactly `amount` of token1 down to the lower
      bound. */
  lemma Liquidity1InvertsYLiq(amount: real, lo: real, hi: real)
    requires 0.0 < lo < hi
    ensures YLiq(hi / Q96R, SqrtpToPrice(lo), lo / Q96R, Liquidity1(amount, lo, hi)) == amount
  {
    var l := Liquidity1(amount, lo, hi);
    assert hi / Q96R - lo / Q96R == (hi - lo) / Q96R;
    assert l * ((hi - lo) / Q96R) == amount;
  }

  /** `int(min(liq0, liq1))`: the liquidity a two-token deposit supports
      between `low` and `upp` at the current sqrt-price `cur`. */
  function DepositLiquidity(amount0: real, amount1: real, low: real, cur: real, upp: real): (l: int)
    requires cur != upp && cur != low
    ensures var m := if Liquidity0(amount0, cur, upp) <= Liquidity1(amount1, cur, low)
                     then Liquidity0(amount0, cur, upp) else Liquidity1(amount1, cur, low);
            0.0 <= m ==> 0 <= l && l as real <= m < l as real + 1.0
  {
    var liq0 := Liquidity0(amount0, cur, upp);
    var liq1 := Liquidity1(amount1, cur, low);
    Trunc(if liq0 <= liq1 then liq0 else liq1)
  }

  /** The deposit liquidity never needs more of either token than offered:
      at the current price, the reserves it implies fit within both amounts. */
  lemma DepositLiquidityFitsBothAmounts(amount0: real, amount1: real, low: real, cur: real, upp: real)
    requires 0.0 < low < cur < upp
    requires 0.0 <= amount0 && 0.0 <= amount1
    ensures var l := DepositLiquidity(amount0, amount1, low, cur, upp) as real;
            && 0.0 <= l
            && l <= Liquidity0(amount0, cur, upp)
            && l <= Liquidity1(amount1, cur, low)
            && XLiq(cur / Q96R, SqrtpToPrice(upp), upp / Q96R, l) <= amount0
            && YLiq(cur / Q96R, SqrtpToPrice(low), low / Q96R, l) <= amount1
  {
    LiquiditySign(amount0, cur, upp);
    LiquiditySign(amount1, cur, low);
    var l := DepositLiquidity(amount0, amount1, low, cur, upp) as real;
    var l0, l1 := Liquidity0(amount0, cur, upp), Liquidity1(amount1, cur, low);
    Liquidity0InvertsXLiq(amount0, cur, upp);
    Liquidity1InvertsYLiq(amount1, low, cur);
    assert Liquidity1(amount1, low, cur) == l1;
    XLiqMonotoneInLiquidity(cur / Q96R, SqrtpToPrice(upp), upp / Q96R, l, l0);
    YLiqMonotoneInLiquidity(cur / Q96R, SqrtpToPrice(low), low / Q96R, l, l1);
  }

  lemma XLiqMonotoneInLiquidity(p: real, pb: real, rootPb: real, l1: real, l2: real)
    requires IsSqrt(pb, rootPb) && 0.0 < p <= rootPb && pb != 0.0
    requires l1 <= l2
    ensures XLiq(p, pb, rootPb, l1) <= XLiq(p, pb, rootPb, l2)
  {
    ReservesNonNegativeInRange(p, 0.0, 0.0, pb, rootPb, 1.0);
    var c := (rootPb - p) / (p * rootPb);
    assert 0.0 <= XLiq(p, pb, rootPb, 1.0) == c;
    MulNonNeg(l2 - l1, c);
  }

  lemma YLiqMonotoneInLiquidity(p: real, pa: real, rootPa: real, l1: real, l2: real)
    requires IsSqrt(pa, rootPa) && rootPa <= p
    requires l1 <= l2
    ensures YLiq(p, pa, rootPa, l1) <= YLiq(p, pa, rootPa, l2)
  {
    MulNonNeg(l2 - l1, p - rootPa);
  }
}
