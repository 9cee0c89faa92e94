/** The sweep experiments: print the first-order trade size for each tick
    of a schedule, and a stripped-down snapshot agent that only takes the
    increase branch. */
module Sweep {
  import opened Wrappers
  import opened Numeric
  import opened TickSchedule
  import opened SwapTargeting

  /** `amountin`: `int(liq * (target - current) / Q96)`. */
  function AmountIn(liq: real, target: real, current: real): (r: int)
    ensures r == 0 <==> Abs(liq * (target - current)) < Q96R
    ensures 0.0 <= liq * (target - current) ==>
      r as real * Q96R <= liq * (target - current) < (r as real + 1.0) * Q96R
    ensures liq * (target - current) < 0.0 ==>
      (r as real - 1.0) * Q96R < liq * (target - current) <= r as real * Q96R
  {
    Estimate(liq, target - current)
  }

  /** No move, or no liquidity, needs no trade; otherwise, with positive
      liquidity, the sign of the amount follows the direction of the move. */
  lemma AmountInSign(liq: real, target: real, current: real)
    ensures AmountIn(liq, current, current) == 0
    ensures AmountIn(0.0, target, current) == 0
    ensures 0.0 < liq && current <= target ==> 0 <= AmountIn(liq, target, current)
    ensures 0.0 < liq && target <= current ==> AmountIn(liq, target, current) <= 0
  {
    if 0.0 < liq && current <= target {
      MulNonNeg(liq, target - current);
    }
    if 0.0 < liq && target <= current {
      MulNonNeg(liq, current - target);
      assert liq * (target - current) == -(liq * (current - target));
    }
  }

  /** `int()` truncates toward zero, so swapping target and current only
      flips the sign; flooring would not (see `AmountInIsNotFloor`). */
  lemma AmountInAntisymmetric(liq: real, target: real, current: real)
    ensures AmountIn(liq, target, current) == -AmountIn(liq, current, target)
  {
    var x := liq * (target - current) / Q96R;
    assert liq * (current - target) / Q96R == -x;
    TruncOdd(x);
  }

  /** Half a unit downwards truncates to 0, where flooring gives -1. */
  lemma AmountInIsNotFloor()
    ensures AmountIn(1.0, 0.0, Q96R / 2.0) == 0
    ensures (1.0 * (0.0 - Q96R / 2.0) / Q96R).Floor == -1
  {
    assert 1.0 * (0.0 - Q96R / 2.0) / Q96R == -0.5;
  }

  /** What `sweep` prints before it stops: the amounts for the first steps,
      and whether it stopped on an IndexError. */
  datatype SweepRun = SweepRun(amounts: seq<int>, indexError: bool)

  /** Steps `i` up to `n` of the sweep loop over `ticks`, as written. */
  function SweepFrom(ticks: seq<int>, i: nat, n: nat, sqrtAt: int -> real, current: real, liq: real): (r: SweepRun)
    requires i <= n && i <= |ticks|
    ensures r.indexError <==> |ticks| < n
    ensures |r.amounts| == (if n <= |ticks| then n else |ticks|) - i
    ensures forall j :: 0 <= j < |r.amounts| ==> r.amounts[j] == AmountIn(liq, sqrtAt(ticks[i + j]), current)
    decreases n - i
  {
    if i == n then SweepRun([], false)
    else if i == |ticks| then SweepRun([], true)
    else
      var rest := SweepFrom(ticks, i + 1, n, sqrtAt, current, liq);
      SweepRun([AmountIn(liq, sqrtAt(ticks[i]), current)] + rest.amounts, rest.indexError)
  }

  /** `sweep` as written: `for i in range(num_steps)` over a list of
      `2 * (num_steps // 2)` ticks. */
  function SweepAsWritten(currentPrice: real, currentTick: int, liq: real, numSteps: int, sqrtAt: int -> real): (r: SweepRun)
    ensures r.indexError <==> numSteps > 0 && numSteps % 2 == 1
  {
    var ticks := SweepSchedule(currentTick, numSteps);
    SweepFrom(ticks, 0, if numSteps < 0 then 0 else numSteps, sqrtAt, currentPrice, liq)
  }

  /** Five steps build four ticks; the fifth iteration indexes past the end. */
  lemma OddStepCountOverrunsSweep(currentPrice: real, currentTick: int, liq: real, sqrtAt: int -> real)
    ensures |SweepSchedule(currentTick, 5)| == 4
    ensures SweepAsWritten(currentPrice, currentTick, liq, 5, sqrtAt).indexError
    ensures |SweepAsWritten(currentPrice, currentTick, liq, 5, sqrtAt).amounts| == 4
  {
  }

  /** `sweep` iterating over the ticks it built: one amount per tick, in
      order, and the same output as the source whenever the source does not
      raise. */
  method SweepAmounts(currentPrice: real, currentTick: int, liq: real, numSteps: int, sqrtAt: int -> real)
    returns (amounts: seq<int>)
    ensures var ticks := SweepSchedule(currentTick, numSteps);
      && |amounts| == |ticks|
      && forall i :: 0 <= i < |ticks| ==> amounts[i] == AmountIn(liq, sqrtAt(ticks[i]), currentPrice)
    ensures !SweepAsWritten(currentPrice, currentTick, liq, numSteps, sqrtAt).indexError ==>
      SweepAsWritten(currentPrice, currentTick, liq, numSteps, sqrtAt).amounts == amounts
  {
    var ticks := SweepSchedule(currentTick, numSteps);
    amounts := [];
    var i := 0;
    while i < |ticks|
      invariant 0 <= i <= |ticks|
      invariant |amounts| == i
      invariant forall j :: 0 <= j < i ==> amounts[j] == AmountIn(liq, sqrtAt(ticks[j]), currentPrice)
    {
      amounts := amounts + [AmountIn(liq, sqrtAt(ticks[i]), currentPrice)];
      i := i + 1;
    }
  }

  /** One iteration of `simulate_snapshot_agent`'s loop. */
  datatype SnapshotAction =
    | Skip           // the decrease branch, or a zero estimate
    | Abort          // the search raised: the whole run returns None
    | Solved(root: real)

  function SnapshotStep(target: real, current: real, liq: real, quoter: Quoter, solver: Solver): (a: SnapshotAction)
    ensures a == Skip <==> target <= current || Estimate(liq, target - current) == 0
    ensures a.Abort? <==>
      && target > current && Estimate(liq, target - current) != 0
      && solver(QuoteObjective(quoter, Increase, target), Estimate(liq, target - current) / 2, MAX_ITERATIONS).None?
    ensures a.Abort? ==>
      target > current && solver(QuoteObjective(quoter, Increase, target), Estimate(liq, target - current) / 2, MAX_ITERATIONS).None?
    ensures a.Solved? ==>
      target > current && solver(QuoteObjective(quoter, Increase, target), Estimate(liq, target - current) / 2, MAX_ITERATIONS) == Some(a.root)
  {
    if target > current then
      match SwapToIncrease(target, current, liq, quoter, solver)
      case NoChange => Skip
      case NoTrade(_, _) => Abort
      case Traded(_, _, root, _) => Solved(root)
    else
      Skip
  }

  /** A reverting quote at the seed aborts the whole run's step. */
  lemma RevertingSeedQuoteAborts(target: real, current: real, liq: real, quoter: Quoter, solver: Solver)
    requires FailsWhenSeedFails(solver)
    requires target > current && Estimate(liq, target - current) != 0
    requires quoter(QuoteFor(Increase, Estimate(liq, target - current) / 2)).None?
    ensures SnapshotStep(target, current, liq, quoter, solver) == Abort
  {
    RevertingSeedQuoteTradesNothing(Increase, target, current, liq, quoter, solver);
  }

  /** How a run of `simulate_snapshot_agent` ends: all steps skipped, an
      abort, a solved step (where the source continues into code that is
      not modelled), or an IndexError on the tick list. */
  datatype RunEnd = Finished | Aborted(step: nat) | ReachedSwap(step: nat, root: real) | TickIndexError(step: nat)

  ghost predicate SkipsBetween(ticks: seq<int>, from: nat, to: nat, sqrtAt: int -> real,
                               current: real, liq: real, quoter: Quoter, solver: Solver)
    requires from <= to <= |ticks|
  {
    forall j :: from <= j < to ==> SnapshotStep(sqrtAt(ticks[j]), current, liq, quoter, solver) == Skip
  }

  /** Steps `i` up to `n` of the loop. Nothing the modelled steps do changes
      the pool, so one sqrt-price and liquidity serve every step. */
  function RunFrom(ticks: seq<int>, i: nat, n: nat, sqrtAt: int -> real, current: real, liq: real,
                   quoter: Quoter, solver: Solver): (e: RunEnd)
    requires i <= n && i <= |ticks|
    ensures e.Finished? ==> n <= |ticks| && SkipsBetween(ticks, i, n, sqrtAt, current, liq, quoter, solver)
    ensures e.TickIndexError? ==>
      e.step == |ticks| < n && SkipsBetween(ticks, i, |ticks|, sqrtAt, current, liq, quoter, solver)
    ensures e.Aborted? ==>
      && i <= e.step < n && e.step < |ticks|
      && SkipsBetween(ticks, i, e.step, sqrtAt, current, liq, quoter, solver)
      && SnapshotStep(sqrtAt(ticks[e.step]), current, liq, quoter, solver) == Abort
    ensures e.ReachedSwap? ==>
      && i <= e.step < n && e.step < |ticks|
      && SkipsBetween(ticks, i, e.step, sqrtAt, current, liq, quoter, solver)
      && SnapshotStep(sqrtAt(ticks[e.step]), current, liq, quoter, solver) == Solved(e.root)
    decreases n - i
  {
    if i == n then Finished
    else if i == |ticks| then TickIndexError(i)
    else
      match SnapshotStep(sqrtAt(ticks[i]), current, liq, quoter, solver)
      case Skip => RunFrom(ticks, i + 1, n, sqrtAt, current, liq, quoter, solver)
      case Abort => Aborted(i)
      case Solved(root) => ReachedSwap(i, root)
  }

  /** `simulate_snapshot_agent` as written: `range(num_steps)` over the
      sweep schedule. */
  function SimulateSnapshotAgent(currentTick: int, numSteps: int, sqrtAt: int -> real, current: real, liq: real,
                                 quoter: Quoter, solver: Solver): (e: RunEnd)
    ensures e.TickIndexError? ==> numSteps % 2 == 1
  {
    var ticks := SweepSchedule(currentTick, numSteps);
    RunFrom(ticks, 0, if numSteps < 0 then 0 else numSteps, sqrtAt, current, liq, quoter, solver)
  }

  /** With an empty pool every step skips, so three steps over the two
      scheduled ticks end in an IndexError at step 2. */
  lemma OddStepCountOverrunsSimulation(currentTick: int, sqrtAt: int -> real, current: real,
                                       quoter: Quoter, solver: Solver)
    ensures SimulateSnapshotAgent(currentTick, 3, sqrtAt, current, 0.0, quoter, solver) == TickIndexError(2)
  {
    var ticks := SweepSchedule(currentTick, 3);
    assert |ticks| == 2;
    assert SnapshotStep(sqrtAt(ticks[0]), current, 0.0, quoter, solver) == Skip;
    assert SnapshotStep(sqrtAt(ticks[1]), current, 0.0, quoter, solver) == Skip;
  }

  /** The loop run over the ticks it built never indexes past them. */
  function SimulateOverSchedule(currentTick: int, numSteps: int, sqrtAt: int -> real, current: real, liq: real,
                                quoter: Quoter, solver: Solver): (e: RunEnd)
    ensures !e.TickIndexError?
    ensures e.Finished? ==>
      SkipsBetween(SweepSchedule(currentTick, numSteps), 0, |SweepSchedule(currentTick, numSteps)|, sqrtAt, current, liq, quoter, solver)
    ensures numSteps % 2 == 0 ==> e == SimulateSnapshotAgent(currentTick, numSteps, sqrtAt, current, liq, quoter, solver)
  {
    var ticks := SweepSchedule(currentTick, numSteps);
    RunFrom(ticks, 0, |ticks|, sqrtAt, current, liq, quoter, solver)
  }

  /** Only the increase branch can quote: when no target lies above the
      current price the run finishes without consulting quoter or search. */
  lemma NoTargetAboveNeverQuotes(currentTick: int, numSteps: int, sqrtAt: int -> real, current: real, liq: real,
                                 q1: Quoter, s1: Solver, q2: Quoter, s2: Solver)
    requires forall j :: 0 <= j < |SweepSchedule(currentTick, numSteps)| ==> sqrtAt(SweepSchedule(currentTick, numSteps)[j]) <= current
    ensures SimulateOverSchedule(currentTick, numSteps, sqrtAt, current, liq, q1, s1) == Finished
    ensures SimulateOverSchedule(currentTick, numSteps, sqrtAt, current, liq, q2, s2) == Finished
  {
    var ticks := SweepSchedule(currentTick, numSteps);
    AllSkip(ticks, 0, sqrtAt, current, liq, q1, s1);
    AllSkip(ticks, 0, sqrtAt, current, liq, q2, s2);
  }

  lemma {:induction false} AllSkip(ticks: seq<int>, i: nat, sqrtAt: int -> real, current: real, liq: real,
                                   quoter: Quoter, solver: Solver)
    requires i <= |ticks|
    requires forall j :: i <= j < |ticks| ==> sqrtAt(ticks[j]) <= current
    ensures RunFrom(ticks, i, |ticks|, sqrtAt, current, liq, quoter, solver) == Finished
    decreases |ticks| - i
  {
    if i < |ticks| {
      AllSkip(ticks, i + 1, sqrtAt, current, liq, quoter, solver);
    }
  }
}
