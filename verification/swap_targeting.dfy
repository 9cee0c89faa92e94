/** The snapshot agent's swap sizing: for a target tick, estimate the trade
    that moves the pool's sqrt-price there from the constant-liquidity
    approximation, refine it with a Newton search against the on-chain
    quoter, and execute the result through the router.

    The quoter and the Newton search (scipy's `root_scalar`) are not
    modelled: both are function parameters returning `Option`, where `None`
    stands for an exception they raise. */
module SwapTargeting {
  import opened Wrappers
  import opened Numeric
  import opened TickMath
  import opened TickSchedule
  import opened PriceMath

  /** The iteration budget passed to the Newton search. */
  const MAX_ITERATIONS: nat := 5

  /** `int(1e32)`, the double nearest to 10^32: the deadline of every swap,
      and the input cap of an exact-output swap. */
  const NO_LIMIT: int := 100_000_000_000_000_005_366_162_204_393_472

  datatype Token = Token0 | Token1

  /** Which way the pool's sqrt-price has to move to reach the target. */
  datatype Direction = Increase | Decrease

  /** A call to the quoter, as the agent builds it (the price limit is 0). */
  datatype QuoteRequest =
    | QuoteExactInput(tokenIn: Token, tokenOut: Token, amountIn: int, fee: int)
    | QuoteExactOutput(tokenIn: Token, tokenOut: Token, amountOut: int, fee: int)

  /** The quoter: the pool's sqrt-price after the quoted swap, or `None` when
      the call reverts. */
  type Quoter = QuoteRequest -> Option<int>

  /** The function whose root is searched for; `None` when evaluating it raised. */
  type Objective = real -> Option<real>

  /** The Newton search: objective, integer seed, iteration cap. `None` stands
      only for an exception raised inside the search (a reverting quote, or
      an error of the solver itself). Running out of iterations does not
      raise: the last iterate comes back as `Some`, converged or not. */
  type Solver = (Objective, int, nat) -> Option<real>

  /** A router call (recipient omitted; the price limit is 0). */
  datatype SwapCall =
    | ExactInputSingle(tokenIn: Token, tokenOut: Token, fee: int, deadline: int, amountIn: int, amountOutMinimum: int)
    | ExactOutputSingle(tokenIn: Token, tokenOut: Token, fee: int, deadline: int, amountOut: int, amountInMaximum: int)

  /** What one swap helper does: return before quoting, give up after the
      search raised, or execute one router call sized by the search. */
  datatype SwapAttempt =
    | NoChange
    | NoTrade(seed: int, maxIter: nat)
    | Traded(seed: int, maxIter: nat, root: real, call: SwapCall)

  /** `int(liq * delta / 2**96)`: the first-order trade size for moving the
      sqrt-price by `delta` at constant liquidity, truncated toward zero. */
  function Estimate(liq: real, delta: real): (r: int)
    ensures r == 0 <==> Abs(liq * delta) < Q96R
    ensures 0.0 <= liq * delta ==> 0 <= r && r as real * Q96R <= liq * delta < (r as real + 1.0) * Q96R
    ensures liq * delta < 0.0 ==> r <= 0 && (r as real - 1.0) * Q96R < liq * delta <= r as real * Q96R
  {
    var x := liq * delta / Q96R;
    assert x * Q96R == liq * delta;
    Trunc(x)
  }

  /** The sqrt-price distance the helper for `dir` is asked to cover. */
  function PriceGap(dir: Direction, target: real, current: real): real {
    match dir
    case Increase => target - current
    case Decrease => current - target
  }

  /** Raising the price sells token1 for token0 by exact input; lowering it
      buys token1 with token0 by exact output. */
  function QuoteFor(dir: Direction, amount: int): QuoteRequest {
    match dir
    case Increase => QuoteExactInput(Token1, Token0, amount, POOL_FEE)
    case Decrease => QuoteExactOutput(Token0, Token1, amount, POOL_FEE)
  }

  function SwapFor(dir: Direction, amount: int): SwapCall {
    match dir
    case Increase => ExactInputSingle(Token1, Token0, POOL_FEE, NO_LIMIT, amount, 0)
    case Decrease => ExactOutputSingle(Token0, Token1, POOL_FEE, NO_LIMIT, amount, NO_LIMIT)
  }

  /** `x -> quote(int(x)) - target`: the search's objective. */
  function QuoteObjective(quoter: Quoter, dir: Direction, target: real): (f: Objective)
    ensures forall x :: f(x).None? <==> quoter(QuoteFor(dir, Trunc(x))).None?
    ensures forall x :: f(x) == Some(0.0) <==>
      quoter(QuoteFor(dir, Trunc(x))).Some? && quoter(QuoteFor(dir, Trunc(x))).value as real == target
  {
    x => match quoter(QuoteFor(dir, Trunc(x)))
         case None => None
         case Some(p) => Some(p as real - target)
  }

  /** The objective sees only `int(x)`: it is a step function, constant on
      each `[n, n + 1)` for `n >= 0` and on each `(-n - 1, -n]`, so the Newton
      search works on a function whose slope is zero almost everywhere. */
  lemma QuoteObjectiveIsStepFunction(quoter: Quoter, dir: Direction, target: real, n: nat, x: real)
    ensures n as real <= x < n as real + 1.0 ==>
      QuoteObjective(quoter, dir, target)(x) == QuoteObjective(quoter, dir, target)(n as real)
    ensures -(n as real) - 1.0 < x <= -(n as real) ==>
      QuoteObjective(quoter, dir, target)(x) == QuoteObjective(quoter, dir, target)(-(n as real))
  {
    if n as real <= x < n as real + 1.0 {
      assert Trunc(x) == n == Trunc(n as real);
    }
    if -(n as real) - 1.0 < x <= -(n as real) {
      assert Trunc(x) == -(n as int) == Trunc(-(n as real));
    }
  }

  /** The search as scipy's Newton method runs it: the objective is evaluated
      at the seed before anything else, so an exception there escapes the
      search. This is what ties a reverting quote to a failed search; the
      `Solver` type alone does not. */
  ghost predicate FailsWhenSeedFails(solver: Solver) {
    forall f: Objective, seed: int, n: nat {:trigger solver(f, seed, n)} ::
      f(seed as real).None? ==> solver(f, seed, n).None?
  }

  /** The shared body of `swap_to_increase` and `swap_to_decrease`. */
  function SwapToward(dir: Direction, target: real, current: real, liq: real, quoter: Quoter, solver: Solver): (r: SwapAttempt)
    ensures r.NoChange? <==> Estimate(liq, PriceGap(dir, target, current)) == 0
    ensures !r.NoChange? ==>
      var est := Estimate(liq, PriceGap(dir, target, current));
      r.seed * 2 <= est < r.seed * 2 + 2 && r.maxIter == MAX_ITERATIONS
    ensures r.NoTrade? ==> solver(QuoteObjective(quoter, dir, target), r.seed, r.maxIter).None?
    ensures r.Traded? ==>
      && solver(QuoteObjective(quoter, dir, target), r.seed, r.maxIter) == Some(r.root)
      && r.call == SwapFor(dir, Trunc(r.root))
  {
    var est := Estimate(liq, PriceGap(dir, target, current));
    if est == 0 then NoChange
    else
      var seed := est / 2;
      match solver(QuoteObjective(quoter, dir, target), seed, MAX_ITERATIONS)
      case None => NoTrade(seed, MAX_ITERATIONS)
      case Some(root) => Traded(seed, MAX_ITERATIONS, root, SwapFor(dir, Trunc(root)))
  }

  /** `swap_to_increase`: exact input of token1 for token0. */
  function SwapToIncrease(target: real, current: real, liq: real, quoter: Quoter, solver: Solver): (r: SwapAttempt)
    ensures r.NoChange? <==> Estimate(liq, target - current) == 0
    ensures r.Traded? ==>
      r.call.ExactInputSingle? && r.call.tokenIn == Token1 && r.call.tokenOut == Token0
      && r.call.amountIn == Trunc(r.root) && r.call.amountOutMinimum == 0
  {
    SwapToward(Increase, target, current, liq, quoter, solver)
  }

  /** `swap_to_decrease`: exact output of token1 paid in token0. The current
      ETH price it also receives is unused. */
  function SwapToDecrease(target: real, current: real, liq: real, currentEthPrice: real, quoter: Quoter, solver: Solver): (r: SwapAttempt)
    ensures r.NoChange? <==> Estimate(liq, current - target) == 0
    ensures r.Traded? ==>
      r.call.ExactOutputSingle? && r.call.tokenIn == Token0 && r.call.tokenOut == Token1
      && r.call.amountOut == Trunc(r.root) && r.call.amountInMaximum == NO_LIMIT
  {
    SwapToward(Decrease, target, current, liq, quoter, solver)
  }

  /** A zero estimate returns before the quoter or the search is consulted:
      the outcome is the same whatever they would have answered. */
  lemma ZeroEstimateNeverQuotes(dir: Direction, target: real, current: real, liq: real,
                                q1: Quoter, s1: Solver, q2: Quoter, s2: Solver)
    requires Estimate(liq, PriceGap(dir, target, current)) == 0
    ensures SwapToward(dir, target, current, liq, q1, s1) == SwapToward(dir, target, current, liq, q2, s2) == NoChange
  {
  }

  /** A target equal to the current price, or an empty pool, is a no-op. */
  lemma DegenerateTargets(dir: Direction, target: real, current: real, liq: real, quoter: Quoter, solver: Solver)
    requires target == current || liq == 0.0
    ensures SwapToward(dir, target, current, liq, quoter, solver) == NoChange
  {
  }

  /** A failed search executes nothing, and a successful one executes exactly
      one swap whose size is the root truncated toward zero. */
  lemma TradeSizeIsTruncatedRoot(dir: Direction, target: real, current: real, liq: real, quoter: Quoter, solver: Solver)
    ensures var r := SwapToward(dir, target, current, liq, quoter, solver);
      r.Traded? ==>
        var amount := if dir == Increase then r.call.amountIn else r.call.amountOut;
        Abs(amount as real) <= Abs(r.root) < Abs(amount as real) + 1.0
  {
    var r := SwapToward(dir, target, current, liq, quoter, solver);
    if r.Traded? {
      TruncShrinks(r.root);
    }
  }

  /** The first step of any search that starts at its seed: evaluate there,
      and give up if that raises. It is a solver that meets
      `FailsWhenSeedFails`, so that assumption can be met. */
  function SeedFirst(f: Objective, seed: int, n: nat): (r: Option<real>)
    ensures r.None? <==> f(seed as real).None?
  {
    match f(seed as real)
    case None => None
    case Some(_) => Some(seed as real)
  }

  lemma SeedFirstFailsWhenSeedFails()
    ensures FailsWhenSeedFails(SeedFirst)
  {
  }

  /** When the quote at the seed `estimate // 2` reverts, no swap is
      executed: the exception reaches the bare `except` and the helper
      returns `None`. */
  lemma RevertingSeedQuoteTradesNothing(dir: Direction, target: real, current: real, liq: real,
                                        quoter: Quoter, solver: Solver)
    requires FailsWhenSeedFails(solver)
    requires Estimate(liq, PriceGap(dir, target, current)) != 0
    requires quoter(QuoteFor(dir, Estimate(liq, PriceGap(dir, target, current)) / 2)).None?
    ensures SwapToward(dir, target, current, liq, quoter, solver).NoTrade?
  {
    var seed := Estimate(liq, PriceGap(dir, target, current)) / 2;
    assert Trunc(seed as real) == seed;
    assert QuoteObjective(quoter, dir, target)(seed as real).None?;
  }

  /** What `step` decided: the direction, the target sqrt-price, the attempt. */
  datatype StepReport = StepReport(direction: Direction, target: real, attempt: SwapAttempt)

  /** `SnapShotAgent.step`: read the target for this step from the schedule
      (the source raises IndexError past its end), convert it to a sqrt-price
      with `sqrtAt` (an abstraction of `tick_to_sqrtpx96`), and dispatch on
      whether it lies above the current sqrt-price. */
  function Step(ticks: seq<int>, steps: nat, sqrtAt: int -> real, current: real, liq: real,
                quoter: Quoter, solver: Solver): (r: StepReport)
    requires steps < |ticks|
    ensures r.target == sqrtAt(ticks[steps])
    ensures r.direction == Increase <==> r.target > current
    ensures 0.0 <= PriceGap(r.direction, r.target, current)
    ensures r.attempt == SwapToward(r.direction, r.target, current, liq, quoter, solver)
  {
    var target := sqrtAt(ticks[steps]);
    if target > current then
      StepReport(Increase, target, SwapToIncrease(target, current, liq, quoter, solver))
    else
      StepReport(Decrease, target, SwapToDecrease(target, current, liq, Token1Price(current), quoter, solver))
  }

  /** With non-negative liquidity the estimate of the chosen helper is never
      negative, and a swap that happens moves tokens the right way: token1 in
      when the price must rise, token1 out when it must fall. */
  lemma StepTradesTowardTarget(ticks: seq<int>, steps: nat, sqrtAt: int -> real, current: real, liq: real,
                               quoter: Quoter, solver: Solver)
    requires steps < |ticks|
    requires 0.0 <= liq
    ensures var r := Step(ticks, steps, sqrtAt, current, liq, quoter, solver);
      && 0 <= Estimate(liq, PriceGap(r.direction, r.target, current))
      && (r.attempt.Traded? ==>
            (r.attempt.call.ExactInputSingle? <==> r.target > current)
            && (r.attempt.call.tokenIn == Token1 <==> r.target > current))
  {
    var r := Step(ticks, steps, sqrtAt, current, liq, quoter, solver);
    MulNonNeg(liq, PriceGap(r.direction, r.target, current));
  }

  /** `sqrtAt` is strictly increasing in the tick, as `1.0001^(t/2) * 2^96` is. */
  ghost predicate StrictlyIncreasing(sqrtAt: int -> real) {
    forall a: int, b: int :: a < b ==> sqrtAt(a) < sqrtAt(b)
  }

  /** Starting inside the current tick, the agent's first step always raises
      the price: its first target tick lies a full spacing higher. */
  lemma FirstStepRaisesPrice(currentTick: int, numSteps: int, sqrtAt: int -> real, current: real, liq: real,
                             quoter: Quoter, solver: Solver)
    requires StrictlyIncreasing(sqrtAt)
    requires current < sqrtAt(currentTick + 1)
    requires numSteps >= 2
    ensures Step(AgentSchedule(currentTick, numSteps), 0, sqrtAt, current, liq, quoter, solver).direction == Increase
  {
    var ticks := AgentSchedule(currentTick, numSteps);
    assert ticks[0] == currentTick + POOL_TICK_SPACING;
    assert sqrtAt(currentTick + 1) <= sqrtAt(ticks[0]);
  }

  /** The second half of the run aims at the same targets as the first. */
  lemma SecondHalfRevisitsTargets(currentTick: int, numSteps: int, k: nat, sqrtAt: int -> real,
                                  current: real, liq: real, quoter: Quoter, solver: Solver)
    requires k < HalfLength(numSteps)
    ensures Step(AgentSchedule(currentTick, numSteps), k + HalfLength(numSteps), sqrtAt, current, liq, quoter, solver).target
         == Step(AgentSchedule(currentTick, numSteps), k, sqrtAt, current, liq, quoter, solver).target
  {
  }
}
