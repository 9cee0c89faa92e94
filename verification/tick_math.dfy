/** Tick bucketing: snapping a signed tick to the pool's tick spacing, the
    fee-tier table that fixes that spacing, and the pool's constants. */
module TickMath {
  import opened Wrappers

  /** The pool's fee in hundredths of a basis point (500 = 0.05%). */
  const POOL_FEE: int := 500

  /** The tick spacing of the pool the agents trade against. */
  const POOL_TICK_SPACING: int := 10

  /** The same spacing, kept as its own constant by the Mesa model. */
  const MODEL_TICK_SPACING: int := 10

  /** Tick spacing by fee tier, fees in hundredths of a basis point:
      0.01% -> 1, 0.05% -> 10, 0.3% -> 60, 1% -> 200. */
  function TickSpacingForFee(fee: int): (r: Option<int>)
    ensures r.Some? <==> fee in {100, 500, 3000, 10000}
    ensures r.Some? ==> r.value > 0
  {
    if fee == 100 then Some(1)
    else if fee == 500 then Some(10)
    else if fee == 3000 then Some(60)
    else if fee == 10000 then Some(200)
    else None
  }

  /** A higher fee tier never has a finer spacing. */
  lemma SpacingIncreasesWithFee(f1: int, f2: int)
    requires TickSpacingForFee(f1).Some? && TickSpacingForFee(f2).Some?
    requires f1 < f2
    ensures TickSpacingForFee(f1).value < TickSpacingForFee(f2).value
  {
  }

  /** The constants the agents and the Mesa model use describe one pool. */
  lemma PoolConstantsAgree()
    ensures TickSpacingForFee(POOL_FEE) == Some(POOL_TICK_SPACING)
    ensures MODEL_TICK_SPACING == POOL_TICK_SPACING > 0
  {
  }

  /** Python's `math.floor(a / b)` for integers, for either sign of `b`. */
  function FloorDiv(a: int, b: int): (q: int)
    requires b != 0
    ensures b > 0 ==> q * b <= a < q * b + b
    ensures b < 0 ==> q * b + b < a <= q * b
  {
    if b > 0 then a / b else (-a) / (-b)
  }

  /** `k` is a multiple of `spacing` (Euclidean `%` is 0 for either sign). */
  predicate IsMultiple(k: int, spacing: int)
    requires spacing != 0
  {
    k % spacing == 0
  }

  lemma IntMulNonNeg(a: int, b: int)
    requires a >= 0 && b >= 0
    ensures a * b >= 0
  {
  }

  lemma MulStrictMono(a: int, b: int, s: int)
    requires s > 0 && a < b
    ensures a * s + s <= b * s
  {
    IntMulNonNeg(b - a - 1, s);
    assert b * s - a * s == (b - a - 1) * s + s;
  }

  /** Euclidean division is unique: any `q * s + r` with `0 <= r < |s|`
      is the quotient and remainder. */
  lemma DivModUnique(a: int, s: int, q: int, r: int)
    requires s != 0
    requires a == q * s + r && 0 <= r < (if s > 0 then s else -s)
    ensures a / s == q && a % s == r
  {
    var q', r' := a / s, a % s;
    assert a == q' * s + r';
    if s > 0 {
      if q < q' { MulStrictMono(q, q', s); }
      else if q' < q { MulStrictMono(q', q, s); }
    } else {
      assert a == (-q) * (-s) + r == (-q') * (-s) + r';
      if -q < -q' { MulStrictMono(-q, -q', -s); }
      else if -q' < -q { MulStrictMono(-q', -q, -s); }
    }
  }

  lemma MultipleOfProduct(q: int, spacing: int)
    requires spacing != 0
    ensures IsMultiple(q * spacing, spacing) && (q * spacing) / spacing == q
  {
    DivModUnique(q * spacing, spacing, q, 0);
  }

  /** `floor(tick / spacing) * spacing`: the start of the bracket holding `tick`. */
  function LowerTick(tick: int, spacing: int): (r: int)
    requires spacing != 0
    ensures IsMultiple(r, spacing)
    ensures spacing > 0 ==> r <= tick < r + spacing
    ensures spacing < 0 ==> r + spacing < tick <= r
  {
    var q := FloorDiv(tick, spacing);
    MultipleOfProduct(q, spacing);
    q * spacing
  }

  /** The lower tick plus one spacing: the end of the bracket. */
  function UpperTick(tick: int, spacing: int): (r: int)
    requires spacing != 0
    ensures IsMultiple(r, spacing)
    ensures r - spacing == LowerTick(tick, spacing)
    ensures spacing > 0 ==> tick < r <= tick + spacing
  {
    var q := FloorDiv(tick, spacing);
    var lt := LowerTick(tick, spacing);
    MultipleOfProduct(q, spacing);
    MultipleOfProduct(q + 1, spacing);
    assert lt + spacing == (q + 1) * spacing;
    lt + spacing
  }

  /** The bracket `[lower, upper)` of one tick spacing containing a tick. */
  datatype TickRange = TickRange(lower: int, upper: int)

  function GetTickRange(tick: int, spacing: int): (r: TickRange)
    requires spacing != 0
    ensures r.lower == LowerTick(tick, spacing)
    ensures r.upper == UpperTick(tick, spacing)
    ensures spacing > 0 ==> r.lower <= tick < r.upper && r.upper - r.lower == spacing
  {
    var lt := LowerTick(tick, spacing);
    TickRange(lt, lt + spacing)
  }

  /** The lower tick is the GREATEST multiple of a positive spacing at or
      below the tick; with the contract of `LowerTick` this pins it down. */
  lemma LowerTickIsGreatestMultiple(tick: int, spacing: int, m: int)
    requires spacing > 0
    requires IsMultiple(m, spacing) && m <= tick
    ensures m <= LowerTick(tick, spacing)
  {
    var lt := LowerTick(tick, spacing);
    var k, j := m / spacing, lt / spacing;
    assert m == k * spacing;
    MultipleOfProduct(FloorDiv(tick, spacing), spacing);
    assert lt == j * spacing;
    if j < k { MulStrictMono(j, k, spacing); }
    else if k < j { MulStrictMono(k, j, spacing); }
  }

  /** The upper tick is the LEAST multiple of a positive spacing above the tick. */
  lemma UpperTickIsLeastMultipleAbove(tick: int, spacing: int, m: int)
    requires spacing > 0
    requires IsMultiple(m, spacing) && tick < m
    ensures UpperTick(tick, spacing) <= m
  {
    var lt := LowerTick(tick, spacing);
    var k, j := m / spacing, lt / spacing;
    assert m == k * spacing;
    MultipleOfProduct(FloorDiv(tick, spacing), spacing);
    assert lt == j * spacing;
    if k <= j {
      if k < j { MulStrictMono(k, j, spacing); }
    } else {
      MulStrictMono(j, k, spacing);
    }
  }

  /** Multiples of the spacing are left where they are. */
  lemma LowerTickFixesMultiples(tick: int, spacing: int)
    requires spacing > 0
    requires IsMultiple(tick, spacing)
    ensures LowerTick(tick, spacing) == tick
  {
    LowerTickIsGreatestMultiple(tick, spacing, tick);
  }

  /** Snapping twice is snapping once. */
  lemma LowerTickIdempotent(tick: int, spacing: int)
    requires spacing > 0
    ensures LowerTick(LowerTick(tick, spacing), spacing) == LowerTick(tick, spacing)
  {
    LowerTickFixesMultiples(LowerTick(tick, spacing), spacing);
  }

  /** Snapping preserves the order of ticks. */
  lemma LowerTickMonotone(t1: int, t2: int, spacing: int)
    requires spacing > 0
    requires t1 <= t2
    ensures LowerTick(t1, spacing) <= LowerTick(t2, spacing)
  {
    LowerTickIsGreatestMultiple(t2, spacing, LowerTick(t1, spacing));
  }

  /** Ticks in one bracket snap to the same lower tick. */
  lemma SameBracketSameRange(t1: int, t2: int, spacing: int)
    requires spacing > 0
    requires LowerTick(t1, spacing) <= t2 < UpperTick(t1, spacing)
    ensures GetTickRange(t2, spacing) == GetTickRange(t1, spacing)
  {
    LowerTickIsGreatestMultiple(t2, spacing, LowerTick(t1, spacing));
    UpperTickIsLeastMultipleAbove(t2, spacing, UpperTick(t1, spacing));
  }

  /** A negative spacing is not rejected: the "range" comes back reversed,
      its upper end below its lower end, with the tick in `(upper, lower]`. */
  lemma NegativeSpacingReversesRange(tick: int, spacing: int)
    requires spacing < 0
    ensures GetTickRange(tick, spacing).upper < tick <= GetTickRange(tick, spacing).lower
  {
  }

  /** Snapping is floor, not truncation: negative ticks move down. */
  lemma BracketExamples()
    ensures GetTickRange(195543, 10) == TickRange(195540, 195550)
    ensures GetTickRange(-5, 10) == TickRange(-10, 0)
    ensures GetTickRange(-20, 10) == TickRange(-20, -10)
  {
  }
}
