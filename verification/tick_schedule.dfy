/** The lists of target ticks the snapshot agent and the sweep experiments
    walk through: a ladder of ticks one spacing apart, listed twice. */
module TickSchedule {
  import opened TickMath

  /** `num_steps // 2` as a range length: floor division, and an empty
      range for a negative count. */
  function HalfLength(numSteps: int): (h: nat)
    ensures numSteps >= 0 ==> h + h <= numSteps < h + h + 2
    ensures numSteps < 0 ==> h == 0
  {
    if numSteps < 0 then 0 else numSteps / 2
  }

  /** `count` ticks starting at `first`, each one pool spacing above the last. */
  function Ladder(first: int, count: nat): (r: seq<int>)
    ensures |r| == count
    ensures forall i :: 0 <= i < |r| ==> r[i] == first + i * POOL_TICK_SPACING
    decreases count
  {
    if count == 0 then [] else [first] + Ladder(first + POOL_TICK_SPACING, count - 1)
  }

  /** The snapshot agent's `ticks_to_visit`: `current + (i + 1) * spacing`
      for `i` in `range(num_steps // 2)`, then the same list again. */
  function AgentSchedule(currentTick: int, numSteps: int): (r: seq<int>)
    ensures |r| == 2 * HalfLength(numSteps)
    ensures forall i :: 0 <= i < HalfLength(numSteps) ==> r[i + HalfLength(numSteps)] == r[i]
    ensures forall i :: 0 <= i < HalfLength(numSteps) ==> r[i] == currentTick + (i + 1) * POOL_TICK_SPACING
  {
    var half := Ladder(currentTick + POOL_TICK_SPACING, HalfLength(numSteps));
    half + half
  }

  /** The sweep experiments' tick list: `current + i * spacing` for `i` in
      `range(num_steps // 2)`, then the same list again. */
  function SweepSchedule(currentTick: int, numSteps: int): (r: seq<int>)
    ensures |r| == 2 * HalfLength(numSteps)
    ensures forall i :: 0 <= i < HalfLength(numSteps) ==> r[i + HalfLength(numSteps)] == r[i]
    ensures forall i :: 0 <= i < HalfLength(numSteps) ==> r[i] == currentTick + i * POOL_TICK_SPACING
  {
    var half := Ladder(currentTick, HalfLength(numSteps));
    half + half
  }

  /** The agent's list is the sweep list started one spacing higher. */
  lemma AgentScheduleIsShiftedSweep(currentTick: int, numSteps: int)
    ensures AgentSchedule(currentTick, numSteps) == SweepSchedule(currentTick + POOL_TICK_SPACING, numSteps)
  {
  }

  /** Every tick the agent visits lies strictly above the starting tick,
      and within each half the ticks rise by exactly one spacing. */
  lemma AgentScheduleShape(currentTick: int, numSteps: int, i: int)
    requires 0 <= i < |AgentSchedule(currentTick, numSteps)|
    ensures currentTick < AgentSchedule(currentTick, numSteps)[i]
    ensures i + 1 != HalfLength(numSteps) && i + 1 < |AgentSchedule(currentTick, numSteps)| ==>
      AgentSchedule(currentTick, numSteps)[i + 1] - AgentSchedule(currentTick, numSteps)[i] == POOL_TICK_SPACING
  {
    var h := HalfLength(numSteps);
    var r := AgentSchedule(currentTick, numSteps);
    if i >= h {
      assert r[i] == r[i - h];
      if i + 1 < |r| {
        assert r[i + 1] == r[i + 1 - h];
      }
    }
  }

  /** The sweep list starts at the current tick itself and, within each
      half, never goes below it. */
  lemma SweepScheduleShape(currentTick: int, numSteps: int, i: int)
    requires 0 <= i < |SweepSchedule(currentTick, numSteps)|
    ensures SweepSchedule(currentTick, numSteps)[0] == currentTick
    ensures currentTick <= SweepSchedule(currentTick, numSteps)[i]
  {
    var h := HalfLength(numSteps);
    var r := SweepSchedule(currentTick, numSteps);
    if i >= h {
      assert r[i] == r[i - h];
    }
  }

  /** A schedule of `2 * (n // 2)` ticks has one tick per step only when
      `n` is even: an odd `n` leaves the last step without a tick. */
  lemma ScheduleCoversStepsIffEven(currentTick: int, numSteps: nat)
    ensures numSteps <= |SweepSchedule(currentTick, numSteps)| <==> numSteps % 2 == 0
    ensures numSteps <= |AgentSchedule(currentTick, numSteps)| <==> numSteps % 2 == 0
  {
  }
}
