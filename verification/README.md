# Uniswap v3 tick, price and swap-targeting model

A Dafny model of the pure numeric core of a WETH/USDC concentrated-liquidity
simulation. The system replays a Uniswap v3 pool on a forked chain. Agents read
the pool's sqrt-price, tick and liquidity, pick a target tick, size a swap
towards it and send it through the router. The model covers three parts:

- **Tick bucketing** (`TickMath`). A tick is snapped down to a multiple of the
  tick spacing (`floor(tick / spacing) * spacing`). The result is the bracket
  `[lower, lower + spacing)` that holds the tick. The module also has the
  fee-tier to spacing table and the pool's constants (fee 500, spacing 10).
- **Price, reserve and liquidity formulas** (`PriceMath`, `Liquidity`). These
  cover the sqrt-price to price conversion and the reciprocal token prices.
  They also cover the token reserves inside the current range (`x_liq`,
  `y_liq`) and the liquidity a deposit buys (`liquidity0`, `liquidity1`,
  combined with `min`). The source uses floats; the model uses exact `real`s.
- **Swap targeting** (`TickSchedule`, `SwapTargeting`, `Sweep`). These model
  the target-tick lists and the snapshot agent's direction dispatch. They also
  model the first-order estimate `int(liq * delta / 2**96)`, the zero-estimate
  short cut, the Newton search seeded at `estimate // 2` with 5 iterations,
  the catch-all that turns any failure into "no trade", and the sweep scripts.

The price and tick helpers appear three times in the source, with the same
code each time; only the docstrings differ. They are in `src/uniswap_demo/uniswap_math.py`,
`src/usdc_weth_model/damath.py` and lines 20-65 of
`src/usdc_weth_model/model.py`. Each helper is modelled once. The rows below
spread their citations over the three copies. `sqrtp_to_price`,
`token0_price` and `token1_price` also appear in `src/usdc_weth_model/fork.py:27-41`.

Conventions:

- Python's `int(x)` on a float is `Numeric.Trunc`, which truncates toward zero.
- `math.floor(a / b)` is `TickMath.FloorDiv`. It is written for both signs of
  `b`, because Dafny's `/` is Euclidean.
- `math.sqrt(x)` is never computed. A function that needs it takes the root
  as an extra argument, with the precondition `PriceMath.IsSqrt(x, root)`.
  `PriceMath.SqrtUnique` shows that this fixes the root.
- `tick_to_sqrtpx96` is the function parameter `sqrtAt`.
- The on-chain quoter is a function `QuoteRequest -> Option<int>`.
- `root_scalar` is a function `(objective, seed, maxiter) -> Option<real>`.
  `None` stands only for an exception raised inside the search: a quote that
  reverts, or an error of the solver itself. Running out of iterations does
  not raise. `sol.root` is then the last iterate, so `Some(root)` includes
  roots that did not converge. The `Solver` type alone does not say that a
  reverting quote makes the search fail. `SwapTargeting.FailsWhenSeedFails`
  states it for a search that evaluates the objective at its seed first, as
  scipy's Newton method does. The lemmas about reverting quotes assume it.
  `SwapTargeting.SeedFirstFailsWhenSeedFails` shows that a solver can meet
  it.
- Some inputs make the source raise an exception that nothing catches. These
  are ZeroDivisionError (spacing 0, a zero sqrt-price in `token0_price`, a zero
  price or bound in `x_liq`, equal bounds in `liquidity0`/`liquidity1`),
  ValueError (`math.sqrt` of a negative bound price in `x_liq`/`y_liq`, which
  `IsSqrt` excludes) and IndexError (a step past the tick list). Such inputs
  are preconditions.

Where the code departs from common Uniswap conventions or from what its names suggest, the model follows the code:

- The token prices hard-code the decimals divisor `1e12`; it is not a
  configuration value.
- A negative tick spacing is not rejected. `TickMath.NegativeSpacingReversesRange`
  shows that it returns a reversed range.
- Degenerate targets, solver errors and oracle failure are not three
  separate outcomes. The quote is evaluated inside the search, so a failing
  quote and a solver error both end in the same bare `except`. The model
  keeps only the difference between "returned before quoting" (`NoChange`)
  and "search raised" (`NoTrade`). A search that does not converge within
  its 5 iterations raises nothing, and its last iterate is traded.
- The estimate uses the signed difference that matches each helper's
  direction, not an absolute value. `SwapTargeting.Step` shows that the
  dispatch makes this difference non-negative.
- Nothing stops a negative root from becoming a negative trade size.

## Model

| member | source | states |
|---|---|---|
| `Numeric.Trunc` | sweep.py:22 | `int()` of a float: it lies within one unit of the input, on the same side of zero, and never further from zero |
| `Numeric.Square` | src/uniswap_demo/uniswap_math.py:15 | `x ** 2` is non-negative, and strictly positive for every non-zero `x` |
| `Numeric.SquareStrictMono` | src/uniswap_demo/uniswap_math.py:15 | `** 2` is strictly increasing on non-negative reals |
| `TickMath.TickSpacingForFee` | src/usdc_weth_model/damath.py:10-18 | the fee-tier table is defined for exactly the four fees 0.01%, 0.05%, 0.3% and 1%, and every spacing in it is positive |
| `TickMath.SpacingIncreasesWithFee` | src/usdc_weth_model/damath.py:10-18 | a higher fee tier has a strictly larger spacing |
| `TickMath.PoolConstantsAgree` | src/uniswap_demo/abis/__init__.py:19-20 | the table maps the pool fee 500 to the spacing 10 used by the agents; the Mesa model's own spacing is also 10 and is positive |
| `TickMath.FloorDiv` | src/uniswap_demo/uniswap_math.py:47 | `math.floor(a / b)`: for `b > 0`, `q*b <= a < q*b + b`; for `b < 0`, the mirrored bounds |
| `TickMath.LowerTick` | src/uniswap_demo/uniswap_math.py:42-47 | the result is a multiple of the spacing; for positive spacing, `lower <= tick < lower + spacing` |
| `TickMath.UpperTick` | src/uniswap_demo/uniswap_math.py:50-53 | the upper tick is a multiple of the spacing, one spacing above the lower tick, and strictly above the tick |
| `TickMath.GetTickRange` | src/uniswap_demo/uniswap_math.py:56-60 | the range is the pair of the two separate helpers; for positive spacing it contains the tick and is exactly one spacing wide |
| `TickMath.LowerTickIsGreatestMultiple` | src/usdc_weth_model/damath.py:42-44 | every multiple of the spacing at or below the tick is at or below the lower tick, so the lower tick is the greatest such multiple |
| `TickMath.UpperTickIsLeastMultipleAbove` | src/usdc_weth_model/damath.py:47-50 | every multiple of the spacing above the tick is at or above the upper tick |
| `TickMath.LowerTickFixesMultiples` | src/usdc_weth_model/model.py:37-39 | a tick that is already a multiple of the spacing is left unchanged |
| `TickMath.LowerTickIdempotent` | src/uniswap_demo/uniswap_math.py:42-47 | snapping twice gives the same result as snapping once |
| `TickMath.LowerTickMonotone` | src/usdc_weth_model/damath.py:42-44 | `t1 <= t2` implies `lower(t1) <= lower(t2)` |
| `TickMath.SameBracketSameRange` | src/usdc_weth_model/model.py:48-52 | every tick inside a bracket gets that same bracket back |
| `TickMath.NegativeSpacingReversesRange` | src/usdc_weth_model/damath.py:53-57 | a negative spacing is accepted and returns a range whose upper end is below the tick and the lower end |
| `TickMath.BracketExamples` | src/usdc_weth_model/model.py:48-52 | tick 195543 gives (195540, 195550); tick -5 gives (-10, 0), so it floors rather than truncates; tick -20 gives (-20, -10) |
| `PriceMath.SqrtUnique` | src/uniswap_demo/uniswap_math.py:76 | a number has at most one non-negative square root, so passing the root as an argument determines it |
| `PriceMath.SqrtpToPrice` | src/uniswap_demo/uniswap_math.py:13-15 | the price is non-negative, zero exactly at sqrt-price zero, and its square root is `sqrtp / 2^96` |
| `PriceMath.SqrtpToPriceStrictlyIncreasing` | src/usdc_weth_model/damath.py:25-27 | the price is strictly increasing in the sqrt-price on `sqrtp >= 0` |
| `PriceMath.Token1Price` | src/uniswap_demo/uniswap_math.py:24-32 | the token1 price is the pool price divided by `1e12`; it is non-negative and zero exactly at sqrt-price zero |
| `PriceMath.Token0Price` | src/uniswap_demo/uniswap_math.py:18-21 | for a non-zero sqrt-price the token0 price is defined and positive |
| `PriceMath.TokenPricesReciprocal` | src/usdc_weth_model/model.py:25-34 | `token0_price(s) * token1_price(s) == 1` for `s != 0` |
| `PriceMath.TokenPricesMoveOpposite` | src/usdc_weth_model/damath.py:30-39 | a higher sqrt-price makes token1 strictly dearer and token0 strictly cheaper |
| `PriceMath.XLiq` | src/uniswap_demo/uniswap_math.py:68-76 | requires `IsSqrt(pb, rootPb)` and non-zero `p` and `pb` (otherwise ZeroDivisionError): the token0 reserve equals `L * (1/p - 1/sqrt(pb))`, and is zero exactly when `L == 0` or `p == sqrt(pb)` |
| `PriceMath.YLiq` | src/uniswap_demo/uniswap_math.py:79-87 | requires `IsSqrt(pa, rootPa)`: the token1 reserve is zero exactly when `L == 0` or `p == sqrt(pa)`, and is non-negative for `L >= 0` and `p >= sqrt(pa)` |
| `PriceMath.ReservesNonNegativeInRange` | src/uniswap_demo/uniswap_math.py:68-87 | with `L >= 0`, `p > 0` and `sqrt(pa) <= p <= sqrt(pb)`, both reserves are non-negative |
| `PriceMath.ReservesKeepCurveInvariant` | src/usdc_weth_model/model.py:60-65 | the two reserves satisfy the range's curve `(x + L/sqrt(pb)) * (y + L*sqrt(pa)) == L^2` |
| `PriceMath.ReservesMoveWithPrice` | src/usdc_weth_model/damath.py:78-83 | with positive liquidity, a higher price gives strictly less token0 and strictly more token1 |
| `Liquidity.Ordered` | src/usdc_weth_model/fork.py:297-298 | the bounds come back in ascending order and are the two bounds given |
| `Liquidity.Liquidity0` | src/usdc_weth_model/fork.py:296-299 | requires `pa != pb` (equal bounds divide by zero): a zero amount gives zero liquidity, and a positive amount over positive bounds gives positive liquidity |
| `Liquidity.Liquidity1` | src/usdc_weth_model/fork.py:302-305 | requires `pa != pb` (equal bounds divide by zero): a zero amount gives zero liquidity, and a positive amount gives positive liquidity |
| `Liquidity.LiquiditySymmetric` | src/usdc_weth_model/fork.py:296-305 | `liquidity0` and `liquidity1` do not depend on the order of the bounds |
| `Liquidity.LiquiditySign` | src/usdc_weth_model/fork.py:296-305 | with distinct positive bounds and `amount >= 0`, both results are non-negative, and each is zero exactly when the amount is zero |
| `Liquidity.Liquidity0InvertsXLiq` | src/usdc_weth_model/fork.py:296-299 | `liquidity0` inverts `x_liq`: at the lower bound, its liquidity holds exactly `amount` of token0 up to the upper bound |
| `Liquidity.Liquidity1InvertsYLiq` | src/usdc_weth_model/fork.py:302-305 | `liquidity1` inverts `y_liq`: at the upper bound, its liquidity holds exactly `amount` of token1 down to the lower bound |
| `Liquidity.XLiqMonotoneInLiquidity` | src/usdc_weth_model/damath.py:78-79 | inside the range, the token0 reserve grows with the liquidity |
| `Liquidity.YLiqMonotoneInLiquidity` | src/usdc_weth_model/damath.py:82-83 | inside the range, the token1 reserve grows with the liquidity |
| `Liquidity.DepositLiquidity` | src/usdc_weth_model/fork.py:333-337 | `int(min(liq0, liq1))`: when the minimum is non-negative, the result is its truncation, and it lies within one unit of the minimum |
| `Liquidity.DepositLiquidityFitsBothAmounts` | src/usdc_weth_model/fork.py:333-337 | for `low < cur < upp`, the deposit liquidity is at most both candidates, and its reserves at the current price need no more of either token than the amount offered |
| `TickSchedule.HalfLength` | src/uniswap_demo/agent.py:68 | `num_steps // 2` as a range length: `2h <= n < 2h + 2`, and empty for a negative count |
| `TickSchedule.Ladder` | src/uniswap_demo/agent.py:66-69 | `count` ticks where entry `i` is `first + i * spacing` |
| `TickSchedule.AgentSchedule` | src/uniswap_demo/agent.py:66-75 | `ticks_to_visit` has length `2*(num_steps//2)`, its second half repeats its first, and entry `i` of the first half is `current + (i+1)*spacing` |
| `TickSchedule.SweepSchedule` | sweep.py:37-40 | the sweep tick list has length `2*(num_steps//2)`, its two halves are identical, and entry `i` is `current + i*spacing` |
| `TickSchedule.AgentScheduleIsShiftedSweep` | sweep.py:63-66 | the agent's list equals the sweep list started one spacing higher |
| `TickSchedule.AgentScheduleShape` | src/uniswap_demo/agent.py:66-69 | every scheduled tick is strictly above the starting tick, and within a half consecutive ticks differ by the spacing |
| `TickSchedule.SweepScheduleShape` | sweep.py:37 | the sweep list starts at the current tick and never goes below it |
| `TickSchedule.ScheduleCoversStepsIffEven` | sweep.py:37-45 | the list has a tick for every one of `num_steps` steps exactly when `num_steps` is even |
| `SwapTargeting.Estimate` | src/uniswap_demo/agent.py:79-80 | `int(liq*delta/2^96)`: it is zero exactly when `abs(liq*delta) < 2^96`, it has the sign of `liq*delta`, and `r*2^96` lies within one `2^96` of `liq*delta` on the side toward zero, which pins it down as truncation |
| `SwapTargeting.QuoteObjective` | src/uniswap_demo/agent.py:84-95 | the objective `x -> quote(int(x)) - target` raises exactly when the quote of `int(x)` raises, and is zero exactly where the quoted price equals the target |
| `SwapTargeting.QuoteObjectiveIsStepFunction` | src/uniswap_demo/agent.py:84-87 | the objective sees only `int(x)`: it is constant on each `[n, n+1)` for `n >= 0` and on each `(-n-1, -n]`, so the Newton search works on a step function |
| `SwapTargeting.SwapToward` | src/uniswap_demo/agent.py:80-102 | it returns without searching exactly when the estimate is zero; otherwise it seeds the search at `estimate // 2` with 5 iterations; a failed search trades nothing; a successful one sends one swap of `int(root)` |
| `SwapTargeting.SwapToIncrease` | src/uniswap_demo/agent.py:77-118 | the increase helper does nothing exactly on a zero estimate; on success it sells `int(root)` token1 for token0 by exact input, with no minimum output |
| `SwapTargeting.SwapToDecrease` | src/uniswap_demo/agent.py:120-165 | the decrease helper does nothing exactly on a zero estimate; on success it buys `int(root)` token1 with token0 by exact output, with input capped at `int(1e32)` |
| `SwapTargeting.RevertingSeedQuoteTradesNothing` | src/uniswap_demo/agent.py:93-102 | for a search that evaluates the objective at its seed first, as Newton's method does, a quote that reverts at `estimate // 2` ends in the bare `except`, and no swap is executed |
| `SwapTargeting.ZeroEstimateNeverQuotes` | src/uniswap_demo/agent.py:80-82 | on a zero estimate the outcome does not depend on the quoter or the search, so neither is called |
| `SwapTargeting.DegenerateTargets` | src/uniswap_demo/agent.py:120-125 | a target equal to the current price, or zero liquidity, is a no-op |
| `SwapTargeting.TradeSizeIsTruncatedRoot` | src/uniswap_demo/agent.py:100-116 | the executed amount is the root truncated toward zero |
| `SwapTargeting.Step` | src/uniswap_demo/agent.py:173-203 | `step` converts the scheduled tick into the target and picks the increase helper exactly when the target is above the current price, so the helper's price gap is non-negative |
| `SwapTargeting.StepTradesTowardTarget` | src/uniswap_demo/agent.py:184-203 | with `liq >= 0` the chosen estimate is non-negative, and a swap is exact input of token1 exactly when the price must rise |
| `SwapTargeting.FirstStepRaisesPrice` | src/uniswap_demo/agent.py:177-189 | if the tick-to-sqrt-price map is strictly increasing and the current sqrt-price is below that of the next tick, the first step (one spacing above the current tick) takes the increase branch |
| `SwapTargeting.SecondHalfRevisitsTargets` | src/uniswap_demo/agent.py:66-75 | step `k + num_steps//2` aims at the same sqrt-price as step `k` |
| `Sweep.AmountInSign` | sweep.py:20-22 | `amountin(liq, t, t) == 0`; zero liquidity gives 0; with positive liquidity the sign follows `target - current` |
| `Sweep.AmountInAntisymmetric` | sweep.py:22 | swapping target and current negates the amount, because `int()` truncates toward zero |
| `Sweep.AmountInIsNotFloor` | sweep.py:22 | half a unit downwards gives 0, where flooring gives -1 |
| `Sweep.SweepFrom` | sweep.py:44-49 | the loop prints one amount per step until the step count or the list runs out, and raises IndexError exactly when the list is shorter than the step count |
| `Sweep.SweepAsWritten` | sweep.py:25-49 | `sweep` raises IndexError exactly when `num_steps` is odd and positive |
| `Sweep.OddStepCountOverrunsSweep` | sweep.py:37-45 | five steps build four ticks and print four amounts; the fifth step raises IndexError |
| `Sweep.SweepAmounts` | sweep.py:44-49 | iterating over the built list gives one amount per tick, in order, and matches the source whenever the source does not raise |
| `Sweep.AmountIn` | sweep.py:20-22 | `int(liq * (target - current) / Q96)`: zero exactly when the product is below one `Q96` in size, and otherwise within one `Q96` of the product on the side toward zero |
| `Sweep.SnapshotStep` | sweep.py:76-98 | a step skips exactly when the target is not above the current price or the estimate is zero; it aborts exactly when it is an increase step with a non-zero estimate whose search, seeded at `estimate // 2` with 5 iterations, raises; otherwise it yields that search's root |
| `Sweep.RevertingSeedQuoteAborts` | sweep.py:89-97 | for a search that evaluates the objective at its seed first, an increase step whose quote reverts at `estimate // 2` aborts the run |
| `Sweep.RunFrom` | sweep.py:69-98 | the run finishes only if every step skipped; it stops at the first abort or solved step, or with IndexError at the end of the list |
| `Sweep.SimulateSnapshotAgent` | sweep.py:52-98 | the run as written can end with IndexError only when `num_steps` is odd |
| `Sweep.OddStepCountOverrunsSimulation` | sweep.py:63-70 | with an empty pool and three steps, the run raises IndexError at step 2 |
| `Sweep.SimulateOverSchedule` | sweep.py:63-70 | looping over the built list never raises IndexError, and for even `num_steps` it behaves like the source |
| `Sweep.NoTargetAboveNeverQuotes` | sweep.py:114-116 | when no target is above the current price, the run finishes whatever the quoter and the search would answer |

## Left out

- All chain and contract interaction is left out: the forked EVM, snapshots,
  account funding, approvals, and the router, quoter and pool calls. They are
  I/O against an external system. The pool state is an argument, the quoter is
  a function argument, and a router call is a `SwapCall` value.
- `SimpleTrader` (both copies) and `uniswap_trader` are left out. They pick
  trades at random and call contracts.
- The Mesa models, their data collectors and `server.py` are left out. They
  are orchestration and UI. The collectors only chain `Token0Price`,
  `Token1Price`, `GetTickRange`, `tick_to_price` and `XLiq`/`YLiq`.
- `try_latest`, `calc_liquidity`'s contract reads and prints, `get_pool_values`,
  `quoter`, `do_quote` and `gbm` are left out as I/O or randomness. From
  `calc_liquidity` only the combination `int(min(liq0, liq1))` is modelled.
- `tick_to_price`, `tick_to_sqrtpx96` and `price_to_sqrtp` are left out. They
  need `pow` and `sqrt` on floats. `tick_to_sqrtpx96` is the parameter
  `sqrtAt`; `FirstStepRaisesPrice` assumes only that it is increasing.
- Floating-point rounding is left out. Every float computation is exact
  `real` arithmetic. This includes `int(liq*delta/2**96)`, which becomes
  truncation of an exact quotient. The float quotient `tick / spacing` is
  rounded, but `math.floor(tick / spacing)` still equals the floor of the
  exact quotient whenever `|tick| < 2^53`. That covers the valid tick range.
- `math.sqrt` is not computed. The model takes roots as arguments constrained
  by `IsSqrt`.
- The internals of scipy's Newton search are left out: its derivative
  estimate, its convergence and the quoter's actual answers. Both are opaque
  function arguments. Nothing is claimed about convergence.
- Convergence is never checked by the source. `swap_to_increase`,
  `swap_to_decrease` and `simulate_snapshot_agent` read `sol.root` without
  looking at `sol.converged`. The model follows that: any `Some(root)` from
  the search is traded.
- `x_harcoded` is left out. It is a print-only experiment, and an operator
  precedence slip makes its result meaningless.
- The rest of the increase branch of `simulate_snapshot_agent` after a
  successful search is left out (`sweep.py:100-112`). It uses an undefined
  `self` and passes the `amountin` function as an amount. The model stops the
  run there with `ReachedSwap`.
- Units in the decrease path are not checked. That path compares an
  exact-output quote result against a sqrt-price target. The same goes for
  the sweep's quote, which subtracts the target from the whole quote result.
  The model treats the quoter's answer as one opaque number and does not claim
  the two paths solve in the same units.
- Sweep.SnapshotStep: `simulate_snapshot_agent` calls `quoteExactInputSingle`
  with five positional arguments, in the order of the first quoter version
  (`sweep.py:84-87`). The contract it loads is the second version
  (`src/uniswap_demo/abis/__init__.py:44-48`), which takes one struct and
  returns a 4-tuple. As written, that call most likely raises, or returns a
  tuple that the objective cannot subtract from. A `Solved` step is then
  probably unreachable in the source. The opaque quoter and search cover
  every such outcome, but the model does not decide which one occurs.
- The router call's recipient address and the zero `sqrtPriceLimitX96` are
  not part of `SwapCall`. The same zero price limit is left out of
  `QuoteRequest`.
- SwapTargeting.SwapToDecrease: the `current_eth_price` argument is accepted
  and ignored, as in the source, where it appears only in a comment.
- SwapTargeting.Step: the source indexes `ticks_to_visit[steps]` and raises
  IndexError past the end. The model makes `steps < |ticks|` a precondition.
  The Mesa driver runs `num_steps` steps over `2*(num_steps//2)` ticks, so an
  odd `num_steps` reaches that IndexError on the last step
  (`TickSchedule.ScheduleCoversStepsIffEven`).
- Sweep.SnapshotStep, Sweep.RunFrom: each step re-reads the pool state. The
  steps that are modelled never change the pool, so the model uses one
  sqrt-price and one liquidity value for the whole run.

## Findings

| source | as written | input that shows it | evidently intended | confidence | as-written member | corrected member |
|---|---|---|---|---|---|---|
| sweep.py:37-45 | `for i in range(num_steps)` indexes a list of `2*(num_steps//2)` ticks | `num_steps = 5`: four ticks, and the fifth iteration raises IndexError | iterate over every tick that was built and stop at the end of the list | medium, not executed | `Sweep.SweepAsWritten`, `Sweep.OddStepCountOverrunsSweep` | `Sweep.SweepAmounts` |
| sweep.py:63-70 | same loop in `simulate_snapshot_agent` | `num_steps = 3` with zero liquidity: two ticks, both steps skip, and step 2 raises IndexError | iterate over every tick that was built and stop at the end of the list | medium, not executed | `Sweep.SimulateSnapshotAgent`, `Sweep.OddStepCountOverrunsSimulation` | `Sweep.SimulateOverSchedule` |
