/** Liveness from the age of a heartbeat, with thresholds that saturate
    (common/pessimal_core/src/liveness.rs). */
module Liveness {
  import opened Texts
  import opened MetricSeries

  const I32_MAX: int := 0x7FFF_FFFF
  const U32_MAX: int := 0xFFFF_FFFF
  const I64_MAX: int := 0x7FFF_FFFF_FFFF_FFFF

  /** chrono's `TimeDelta::MAX`, which is counted in milliseconds. */
  const MAX_DURATION: int := I64_MAX * 1_000_000

  /** The greatest age that two representable instants can have. */
  const SPAN: int := LATEST - EARLIEST

  datatype Liveness = Alive | Stale | Down | Unknown

  datatype Policy = Policy(interval: int, staleAfter: int, downAfter: int)

  /** What `LivenessPolicy::new` accepts. */
  predicate IsPolicy(p: Policy) {
    0 < p.interval <= MAX_DURATION && 0 < p.staleAfter < p.downAfter <= U32_MAX
  }

  type U32 = n: int | 0 <= n <= U32_MAX

  type Duration = d: int | -MAX_DURATION <= d <= MAX_DURATION

  /** `LivenessPolicy::new` */
  function NewPolicy(interval: Duration, staleAfter: U32, downAfter: U32): (r: Option<Policy>)
    ensures r.Some? <==> interval > 0 && 1 <= staleAfter < downAfter
    ensures r.Some? ==> r.value == Policy(interval, staleAfter, downAfter) && IsPolicy(r.value)
  {
    if interval <= 0 then None
    else if staleAfter == 0 || downAfter == 0 then None
    else if staleAfter >= downAfter then None
    else Some(Policy(interval, staleAfter, downAfter))
  }

  /** `checked_mul`, which fails only where the seconds leave 64 bits, and can return more than the greatest
      duration. */
  function CheckedMul(interval: int, multiplier: int): Option<int> {
    var seconds := (interval * multiplier) / SECOND;
    if seconds <= -I64_MAX - 1 || seconds >= I64_MAX then None else Some(interval * multiplier)
  }

  /** `scaled` */
  function Scaled(interval: int, multiplier: int): int {
    var product := CheckedMul(interval, if multiplier <= I32_MAX then multiplier else I32_MAX);
    if product.Some? then product.value else MAX_DURATION
  }

  function Judge(age: int, staleThreshold: int, downThreshold: int): Liveness {
    if age <= staleThreshold then Alive else if age <= downThreshold then Stale else Down
  }

  /** `evaluate` */
  function Evaluate(p: Policy, last: Option<Instant>, now: Instant): Liveness {
    if last.None? then Unknown
    else Judge(now - last.value, Scaled(p.interval, p.staleAfter), Scaled(p.interval, p.downAfter))
  }

  /** The same with thresholds multiplied out without bound. */
  function EvaluateExactly(p: Policy, last: Option<Instant>, now: Instant): Liveness {
    if last.None? then Unknown
    else Judge(now - last.value, p.interval * p.staleAfter, p.interval * p.downAfter)
  }

  lemma ProductGrows(interval: int, k: int, m: int)
    requires interval > 0 && k <= m
    ensures interval * k <= interval * m
  {
  }

  /** Up to `i32::MAX` a threshold lies on the same side of every possible age as the exact product; above,
      it lies where the product by `i32::MAX` does. */
  lemma ScaledComparesAlike(interval: int, multiplier: int, age: int)
    requires 0 < interval && 0 < multiplier && age <= SPAN
    ensures age <= Scaled(interval, multiplier)
      <==> age <= interval * (if multiplier <= I32_MAX then multiplier else I32_MAX)
  {
    var product := interval * (if multiplier <= I32_MAX then multiplier else I32_MAX);
    assert product > 0;
    if product / SECOND >= I64_MAX {
      assert product >= I64_MAX * SECOND;
    }
  }

  /** What each verdict means: alive up to the interval times the first multiplier, stale up to the interval times the
      second, down after that, and unknown without a heartbeat; a multiplier above `i32::MAX` counts as that. */
  lemma VerdictsMean(p: Policy, last: Option<Instant>, now: Instant)
    requires IsPolicy(p)
    ensures Evaluate(p, last, now) == Unknown <==> last.None?
    ensures last.Some? ==>
      var age := now - last.value;
      (Evaluate(p, last, now) == Alive <==> age <= p.interval * p.staleAfter && age <= p.interval * 0x7FFF_FFFF)
      && (Evaluate(p, last, now) == Down <==> age > p.interval * p.downAfter || age > p.interval * 0x7FFF_FFFF)
  {
    hide Scaled;
    if last.Some? {
      var age := now - last.value;
      ScaledComparesAlike(p.interval, p.staleAfter, age);
      ScaledComparesAlike(p.interval, p.downAfter, age);
      ProductGrows(p.interval, p.staleAfter, p.downAfter);
      if p.staleAfter <= I32_MAX {
        ProductGrows(p.interval, p.staleAfter, I32_MAX);
      } else {
        ProductGrows(p.interval, I32_MAX, p.staleAfter);
      }
      if p.downAfter <= I32_MAX {
        ProductGrows(p.interval, p.downAfter, I32_MAX);
      } else {
        ProductGrows(p.interval, I32_MAX, p.downAfter);
      }
    }
  }

  /** With multipliers up to `i32::MAX`, saturating judges every pair of instants as exact arithmetic does. */
  lemma SaturatingIsExact(p: Policy, last: Option<Instant>, now: Instant)
    requires IsPolicy(p) && p.downAfter <= I32_MAX
    ensures Evaluate(p, last, now) == EvaluateExactly(p, last, now)
  {
    hide Scaled;
    if last.Some? {
      ScaledComparesAlike(p.interval, p.staleAfter, now - last.value);
      ScaledComparesAlike(p.interval, p.downAfter, now - last.value);
    }
  }

  /** Where clamping the multiplier shows: one nanosecond beyond the interval times `i32::MAX`. */
  lemma ClampShows(p: Policy)
    requires IsPolicy(p) && p.downAfter > I32_MAX && p.interval * I32_MAX < SPAN
    ensures var now := EARLIEST + p.interval * I32_MAX + 1;
      Evaluate(p, Some(EARLIEST), now) == Down && EvaluateExactly(p, Some(EARLIEST), now) != Down
  {
    hide Scaled;
    var age := p.interval * I32_MAX + 1;
    ScaledComparesAlike(p.interval, p.staleAfter, age);
    ScaledComparesAlike(p.interval, p.downAfter, age);
    ProductGrows(p.interval, I32_MAX + 1, p.downAfter);
    assert p.interval * (I32_MAX + 1) == p.interval * I32_MAX + p.interval;
    if p.staleAfter <= I32_MAX {
      ProductGrows(p.interval, p.staleAfter, I32_MAX);
    }
  }

  /** Hence exactly when saturating is faithful: the multipliers fit `i32`, or the clamped product already
      exceeds every possible age. */
  lemma SaturatingIsExactIff(p: Policy)
    requires IsPolicy(p)
    ensures (forall last: Option<Instant>, now: Instant :: Evaluate(p, last, now) == EvaluateExactly(p, last, now))
      <==> p.downAfter <= I32_MAX || p.interval * I32_MAX >= SPAN
  {
    hide Evaluate, EvaluateExactly;
    if p.downAfter <= I32_MAX {
      forall last: Option<Instant>, now: Instant ensures Evaluate(p, last, now) == EvaluateExactly(p, last, now) {
        SaturatingIsExact(p, last, now);
      }
    } else if p.interval * I32_MAX < SPAN {
      ClampShows(p);
      assert Evaluate(p, Some(EARLIEST), EARLIEST + p.interval * I32_MAX + 1)
          != EvaluateExactly(p, Some(EARLIEST), EARLIEST + p.interval * I32_MAX + 1);
    } else {
      forall last: Option<Instant>, now: Instant ensures Evaluate(p, last, now) == EvaluateExactly(p, last, now) {
        LongIntervalIsExact(p, last, now);
      }
    }
  }

  lemma LongIntervalIsExact(p: Policy, last: Option<Instant>, now: Instant)
    requires IsPolicy(p) && p.downAfter > I32_MAX && p.interval * I32_MAX >= SPAN
    ensures Evaluate(p, last, now) == EvaluateExactly(p, last, now)
  {
    hide Scaled;
    if last.Some? {
      ScaledComparesAlike(p.interval, p.staleAfter, now - last.value);
      ScaledComparesAlike(p.interval, p.downAfter, now - last.value);
      ProductGrows(p.interval, I32_MAX, p.downAfter);
      if p.staleAfter > I32_MAX {
        ProductGrows(p.interval, I32_MAX, p.staleAfter);
      }
    }
  }

  function Badness(l: Liveness): int {
    match l
    case Alive => 0
    case Stale => 1
    case Down => 2
    case Unknown => -1
  }

  /** The verdict on one heartbeat only worsens as time goes on, whatever the policy. */
  lemma VerdictOnlyWorsens(p: Policy, last: Instant, now: Instant, later: Instant)
    requires now <= later
    ensures 0 <= Badness(Evaluate(p, Some(last), now)) <= Badness(Evaluate(p, Some(last), later))
  {
    hide Scaled;
  }

  /** A saturated threshold can lie below an unsaturated smaller one, so the two can be out of order: the
      verdicts must be compared, not the thresholds. */
  lemma ThresholdsCanBeOutOfOrder()
    ensures exists p :: IsPolicy(p) && Scaled(p.interval, p.staleAfter) > Scaled(p.interval, p.downAfter)
  {
    var p := Policy(MAX_DURATION, 2, 1001);
    assert IsPolicy(p) && Scaled(p.interval, p.staleAfter) > Scaled(p.interval, p.downAfter);
  }
}
