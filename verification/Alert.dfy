/** Alert rules, and an evaluation that keeps one instant in place of its whole history
    (common/pessimal_core/src/alert.rs). */
module Alert {
  import opened Texts
  import opened MetricSeries
  import opened Urns

  type HostId = string

  datatype Comparator = GreaterThan | GreaterThanOrEqual | LessThan | LessThanOrEqual

  /** `evaluate`; every comparison with a NaN is false. */
  predicate Evaluate(c: Comparator, value: F64, threshold: F64) {
    match c
    case GreaterThan => FloatLess(threshold, value)
    case GreaterThanOrEqual => FloatAtMost(threshold, value)
    case LessThan => FloatLess(value, threshold)
    case LessThanOrEqual => FloatAtMost(value, threshold)
  }

  /** A NaN satisfies no comparator, and of any other value each comparator or its opposite holds. */
  lemma ComparatorsAreOpposite(value: F64, threshold: F64)
    requires !threshold.NaN?
    ensures Evaluate(GreaterThan, value, threshold) <==> !value.NaN? && !Evaluate(LessThanOrEqual, value, threshold)
    ensures Evaluate(LessThan, value, threshold) <==> !value.NaN? && !Evaluate(GreaterThanOrEqual, value, threshold)
  {
  }

  /** What each comparator says of numbers, of the infinities and of NaN. */
  lemma ComparatorsCompare(x: real, t: real, c: Comparator, other: F64)
    ensures Evaluate(GreaterThan, Finite(x), Finite(t)) <==> x > t
    ensures Evaluate(GreaterThanOrEqual, Finite(x), Finite(t)) <==> x >= t
    ensures Evaluate(LessThan, Finite(x), Finite(t)) <==> x < t
    ensures Evaluate(LessThanOrEqual, Finite(x), Finite(t)) <==> x <= t
    ensures Evaluate(c, PositiveInfinity, Finite(t)) <==> c.GreaterThan? || c.GreaterThanOrEqual?
    ensures Evaluate(c, NegativeInfinity, Finite(t)) <==> c.LessThan? || c.LessThanOrEqual?
    ensures !Evaluate(c, NaN, other) && !Evaluate(c, other, NaN)
  {
  }

  /** The number is on the side of the threshold where nothing is wrong. */
  predicate IsInBounds(c: Comparator, x: real, t: real) {
    match c
    case GreaterThan => x <= t
    case GreaterThanOrEqual => x < t
    case LessThan => x >= t
    case LessThanOrEqual => x > t
  }

  datatype HostSelector = All | Host(id: HostId) | AnyOf(ids: seq<HostId>)

  predicate Matches(selector: HostSelector, host: HostId) {
    match selector
    case All => true
    case Host(id) => id == host
    case AnyOf(ids) => host in ids
  }

  const MAX_FOR_DURATION: int := 365 * 24 * 3600 * SECOND

  datatype Rule = Rule(id: Urn, name: string, metric: MetricKind, selector: HostSelector, comparator: Comparator,
                       threshold: F64, forDuration: int, enabled: bool)

  datatype RuleResult = Accepted(rule: Rule) | InvalidRule | InvalidUrn

  const DEFAULT_URN_PREFIX := "pessimal"

  /** What evaluation relies on. */
  predicate IsRule(r: Rule) {
    Trim(r.name) != "" && r.threshold.Finite? && 0 <= r.forDuration <= MAX_FOR_DURATION && IsUrn(r.id)
  }

  lemma NoSeparatorInFixedSegments()
    ensures IsSegment(DEFAULT_URN_PREFIX) && IsSegment("alerts") && IsSegment("rule")
  {
    assert forall i :: 0 <= i < |DEFAULT_URN_PREFIX| ==> DEFAULT_URN_PREFIX[i] != ':';
  }

  /** `AlertRule::new`; `minted` is the UUID that is minted for the rule. */
  function NewRule(environment: string, name: string, metric: MetricKind, comparator: Comparator, threshold: F64,
                   forDuration: int, minted: Uuid): (r: RuleResult)
    ensures r.Accepted? ==> IsRule(r.rule)
    ensures r.Accepted? <==>
      Trim(name) != "" && threshold.Finite? && 0 <= forDuration <= MAX_FOR_DURATION && IsSegment(environment)
  {
    NoSeparatorInFixedSegments();
    if Trim(name) == "" then InvalidRule
    else if !threshold.Finite? then InvalidRule
    else if forDuration < 0 then InvalidRule
    else if forDuration > MAX_FOR_DURATION then InvalidRule
    else
      var id := Urn(DEFAULT_URN_PREFIX, environment, "alerts", "rule", minted);
      if IsUrn(id) then Accepted(Rule(id, name, metric, All, comparator, threshold, forDuration, true)) else InvalidUrn
  }

  /** Restoring a persisted rule: it is held to what a new one is, and keeps its identifier. */
  function RestoredRule(wire: Rule, minted: Uuid): RuleResult {
    match NewRule(wire.id.environment, wire.name, wire.metric, wire.comparator, wire.threshold, wire.forDuration, minted)
    case Accepted(validated) => Accepted(validated.(id := wire.id, selector := wire.selector, enabled := wire.enabled))
    case problem => problem
  }

  /** A new rule is accepted exactly when its fields and its environment allow, and then it is a rule, in force for
      every host; what is persisted of a rule is restored as it was, whatever its selector and whether or not it
      is enabled, and nothing else is restored that is not a rule. */
  lemma RulesAreRestored(wire: Rule, environment: string, minted: Uuid)
    requires IsUrn(wire.id)
    ensures RestoredRule(wire, minted) == if IsRule(wire) then Accepted(wire) else InvalidRule
    ensures var r := NewRule(environment, wire.name, wire.metric, wire.comparator, wire.threshold, wire.forDuration, minted);
      r.Accepted? <==> IsRule(wire) && IsSegment(environment)
    ensures var r := NewRule(environment, wire.name, wire.metric, wire.comparator, wire.threshold, wire.forDuration, minted);
      r.Accepted? ==>
        IsRule(r.rule) && RestoredRule(r.rule, minted) == r
        && r.rule.enabled && r.rule.selector == All && r.rule.id.environment == environment && r.rule.id.id == minted
        && r.rule.(enabled := wire.enabled, selector := wire.selector, id := wire.id) == wire
  {
    hide Trim, IsSegment;
    NoSeparatorInFixedSegments();
  }

  predicate Breaches(r: Rule, value: F64) {
    Evaluate(r.comparator, value, r.threshold)
  }

  datatype AlertState = Okay | Pending(since: Instant) | Firing(since: Instant) | NoData

  function BreachingSince(s: AlertState): Option<Instant> {
    if s.Pending? || s.Firing? then Some(s.since) else None
  }

  // ----- the history, and the verdict over it

  /** One poll: the rule as it is then, what was fetched, the instant and the bound on a sample's age. */
  datatype Poll = Poll(rule: Rule, series: Series, now: Instant, maxAge: int)

  predicate IsSelected(host: HostId, p: Poll) {
    p.rule.enabled && Matches(p.rule.selector, host)
  }

  function Sample(p: Poll): Option<Point> {
    LatestAt(p.series.points, p.now)
  }

  predicate IsFresh(p: Poll) {
    Sample(p).Some? && p.now - Sample(p).value.at <= p.maxAge
  }

  /** The rule applies, and its sample is fresh and breaches. */
  predicate IsBreach(host: HostId, p: Poll) {
    IsSelected(host, p) && IsFresh(p) && Breaches(p.rule, Sample(p).value.value)
  }

  /** The first poll of the unbroken run of breaches that the history ends in. */
  ghost predicate IsRunStart(host: HostId, polls: seq<Poll>, i: nat) {
    i < |polls|
    && (forall k :: i <= k < |polls| ==> IsBreach(host, polls[k]))
    && (i > 0 ==> !IsBreach(host, polls[i - 1]))
  }

  function RunStart(host: HostId, polls: seq<Poll>): (i: nat)
    requires polls != [] && IsBreach(host, polls[|polls| - 1])
    ensures IsRunStart(host, polls, i)
  {
    var n := |polls| - 1;
    if n > 0 && IsBreach(host, polls[n - 1]) then RunStart(host, polls[..n]) else n
  }

  lemma RunStartIsUnique(host: HostId, polls: seq<Poll>, i: nat, j: nat)
    requires IsRunStart(host, polls, i) && IsRunStart(host, polls, j)
    ensures i == j
  {
  }

  /** When the breach the history ends in began: the time of the sample its first poll judged. */
  function Since(host: HostId, polls: seq<Poll>): Instant
    requires polls != [] && IsBreach(host, polls[|polls| - 1])
  {
    Sample(polls[RunStart(host, polls)]).value.at
  }

  /** The state, told from the whole history. */
  function Verdict(host: HostId, polls: seq<Poll>): AlertState {
    if polls == [] then NoData
    else
      var p := polls[|polls| - 1];
      if !IsSelected(host, p) then Okay
      else if !IsFresh(p) then NoData
      else if !Breaches(p.rule, Sample(p).value.value) then Okay
      else if p.now - Since(host, polls) >= p.rule.forDuration then Firing(Since(host, polls))
      else Pending(Since(host, polls))
  }

  lemma SinceCarriesOver(host: HostId, polls: seq<Poll>, p: Poll)
    requires IsBreach(host, p)
    ensures Since(host, polls + [p]) ==
      match BreachingSince(Verdict(host, polls)) case Some(since) => since case None => Sample(p).value.at
  {
    var all := polls + [p];
    assert all[..|polls|] == polls;
  }

  // ----- what one poll says

  /** The rule is off, or it is for other hosts. */
  predicate IsUnaddressed(rule: Rule, host: HostId) {
    !rule.enabled || (rule.selector.Host? && rule.selector.id != host) || (rule.selector.AnyOf? && host !in rule.selector.ids)
  }

  /** Every sample is later than the poll or older than it may be. */
  ghost predicate IsTooOld(points: seq<Point>, now: Instant, maxAge: int) {
    forall i :: 0 <= i < |points| ==> points[i].at > now || now - points[i].at > maxAge
  }

  /** A number out of bounds, or the infinity on the wrong side; never a NaN. */
  predicate IsBreached(rule: Rule, value: F64)
    requires rule.threshold.Finite?
  {
    match value
    case Finite(x) => !IsInBounds(rule.comparator, x, rule.threshold.r)
    case PositiveInfinity => rule.comparator.GreaterThan? || rule.comparator.GreaterThanOrEqual?
    case NegativeInfinity => rule.comparator.LessThan? || rule.comparator.LessThanOrEqual?
    case NaN => false
  }

  lemma {:induction false} LatestIsFound(points: seq<Point>, t: Instant, i: nat)
    requires IsSorted(points) && IsLatest(points, t, i)
    ensures LatestAt(points, t) == Some(points[i])
  {
    var n := |points| - 1;
    if i < n {
      LatestIsFound(points[..n], t, i);
    }
  }

  lemma {:induction false} NoneIsYoung(points: seq<Point>, now: Instant, maxAge: int)
    requires IsTooOld(points, now, maxAge)
    ensures LatestAt(points, now).Some? ==> now - LatestAt(points, now).value.at > maxAge
  {
    if points != [] {
      NoneIsYoung(points[..|points| - 1], now, maxAge);
    }
  }

  lemma BreachedIsBreaches(rule: Rule, value: F64)
    requires rule.threshold.Finite?
    ensures Breaches(rule, value) <==> IsBreached(rule, value)
  {
  }

  /** What a poll says, whatever came before: nothing of a rule that is off or for others, no data without a
      sample that is young enough, and otherwise whether the latest such sample is out of bounds. */
  lemma ResultOfAPoll(host: HostId, polls: seq<Poll>, p: Poll)
    ensures var r := Verdict(host, polls + [p]); var points := p.series.points;
      (IsUnaddressed(p.rule, host) ==> r == Okay)
      && (!IsUnaddressed(p.rule, host) && IsTooOld(points, p.now, p.maxAge) ==> r == NoData)
      && (!IsUnaddressed(p.rule, host) && p.rule.threshold.Finite? && IsSorted(points) ==>
            forall i: nat :: IsLatest(points, p.now, i) && p.now - points[i].at <= p.maxAge ==>
              (r == Okay <==> !IsBreached(p.rule, points[i].value)) && (r.Okay? || r.Pending? || r.Firing?))
  {
    hide Since, LatestAt, IsSorted, Evaluate, IsInBounds, IsBreached, Breaches;
    var points := p.series.points;
    if IsTooOld(points, p.now, p.maxAge) {
      NoneIsYoung(points, p.now, p.maxAge);
    }
    if p.rule.threshold.Finite? && IsSorted(points) {
      forall i: nat | IsLatest(points, p.now, i) && p.now - points[i].at <= p.maxAge && !IsUnaddressed(p.rule, host)
        ensures var r := Verdict(host, polls + [p]);
          (r == Okay <==> !IsBreached(p.rule, points[i].value)) && (r.Okay? || r.Pending? || r.Firing?)
      {
        LatestIsFound(points, p.now, i);
        BreachedIsBreaches(p.rule, points[i].value);
      }
    }
  }

  // ----- the evaluation

  class AlertEvaluation {
    const host: HostId
    var state: AlertState
    ghost var polls: seq<Poll>

    ghost predicate Valid()
      reads this
    {
      state == Verdict(host, polls)
    }

    /** `new` */
    constructor (id: HostId)
      ensures host == id && polls == [] && Valid()
    {
      host := id;
      state := NoData;
      polls := [];
    }

    /** `observe`: the state after it is the verdict over the history with this poll added. */
    method Observe(rule: Rule, series: Series, now: Instant, maxAge: int) returns (r: AlertState)
      requires Valid()
      modifies this
      ensures polls == old(polls) + [Poll(rule, series, now, maxAge)]
      ensures Valid() && r == state
      ensures IsUnaddressed(rule, host) ==> r == Okay
      ensures !IsUnaddressed(rule, host) && IsTooOld(series.points, now, maxAge) ==> r == NoData
      ensures !IsUnaddressed(rule, host) && rule.threshold.Finite? && IsSorted(series.points) ==>
        forall i: nat :: IsLatest(series.points, now, i) && now - series.points[i].at <= maxAge ==>
          (r == Okay <==> !IsBreached(rule, series.points[i].value)) && (r.Okay? || r.Pending? || r.Firing?)
    {
      ResultOfAPoll(host, polls, Poll(rule, series, now, maxAge));
      ghost var p := Poll(rule, series, now, maxAge);
      ghost var before := polls;
      polls := polls + [p];
      if !rule.enabled || !Matches(rule.selector, host) {
        state := Okay;
        return state;
      }
      var point := LatestAt(series.points, now);
      if point.None? {
        state := NoData;
        return state;
      }
      if now - point.value.at > maxAge {
        state := NoData;
        return state;
      }
      if Breaches(rule, point.value.value) {
        SinceCarriesOver(host, before, p);
        var since := if BreachingSince(state).Some? then BreachingSince(state).value else point.value.at;
        state := if now - since >= rule.forDuration then Firing(since) else Pending(since);
      } else {
        state := Okay;
      }
      r := state;
    }
  }

  // ----- what follows for every history

  lemma {:induction false} RunStartStays(host: HostId, polls: seq<Poll>, i: nat, n: nat)
    requires IsRunStart(host, polls, i) && i < n <= |polls|
    ensures IsBreach(host, polls[n - 1]) && RunStart(host, polls[..n]) == i
  {
    assert polls[..n][n - 1] == polls[n - 1];
    assert IsRunStart(host, polls[..n], i);
    RunStartIsUnique(host, polls[..n], i, RunStart(host, polls[..n]));
  }

  ghost predicate NowNeverGoesBack(polls: seq<Poll>, from: nat) {
    forall j, k :: from <= j <= k < |polls| ==> polls[j].now <= polls[k].now
  }

  ghost predicate DwellIs(polls: seq<Poll>, from: nat, dwell: int) {
    forall k :: from <= k < |polls| ==> polls[k].rule.forDuration == dwell
  }

  /** Within a run of breaches with one dwell and a clock that does not go back, firing begins at the first
      poll at or after the breach's start plus the dwell, and lasts until the run breaks. */
  lemma FiringBeginsAfterTheDwell(host: HostId, polls: seq<Poll>, i: nat, dwell: int, n: nat, later: nat)
    requires IsRunStart(host, polls, i) && DwellIs(polls, i, dwell) && NowNeverGoesBack(polls, i)
    requires i < n <= later <= |polls|
    ensures var since := Sample(polls[i]).value.at;
      BreachingSince(Verdict(host, polls[..n])) == Some(since)
      && (Verdict(host, polls[..n]).Firing? <==> polls[n - 1].now >= since + dwell)
      && (Verdict(host, polls[..n]).Firing? ==> Verdict(host, polls[..later]) == Firing(since))
  {
    hide IsBreach, RunStart;
    RunStartStays(host, polls, i, n);
    RunStartStays(host, polls, i, later);
    BreachIsJudged(host, polls[..n]);
    BreachIsJudged(host, polls[..later]);
    assert polls[n - 1].now <= polls[later - 1].now;
  }

  lemma BreachIsJudged(host: HostId, polls: seq<Poll>)
    requires polls != [] && IsBreach(host, polls[|polls| - 1])
    ensures var p := polls[|polls| - 1];
      Verdict(host, polls) ==
        if p.now - Since(host, polls) >= p.rule.forDuration then Firing(Since(host, polls)) else Pending(Since(host, polls))
  {
  }

  lemma OnlyABreachFires(host: HostId, polls: seq<Poll>)
    requires Verdict(host, polls).Firing?
    ensures polls != [] && IsBreach(host, polls[|polls| - 1])
  {
  }

  /** A firing whose judged sample is the very sample that opened the breach, or one no newer. */
  ghost predicate FiresOnOneSample(host: HostId, polls: seq<Poll>, rule: Rule, maxAge: int) {
    Verdict(host, polls).Firing? && polls[|polls| - 1].rule == rule && polls[|polls| - 1].maxAge == maxAge
    && Sample(polls[|polls| - 1]).value.at <= Verdict(host, polls).since
  }

  /** With a dwell longer than the age a sample may have, a firing has always seen a second, newer sample. */
  lemma LongDwellNeedsASecondSample(host: HostId, polls: seq<Poll>, rule: Rule, maxAge: int)
    requires rule.forDuration > maxAge
    ensures !FiresOnOneSample(host, polls, rule, maxAge)
  {
    hide IsBreach, RunStart;
    if Verdict(host, polls).Firing? {
      OnlyABreachFires(host, polls);
      BreachIsJudged(host, polls);
      BreachIsFresh(host, polls[|polls| - 1]);
    }
  }

  lemma BreachIsFresh(host: HostId, p: Poll)
    requires IsBreach(host, p)
    ensures Sample(p).Some? && p.now - Sample(p).value.at <= p.maxAge
  {
  }

  function BreachingValue(c: Comparator): F64 {
    if c.GreaterThan? || c.GreaterThanOrEqual? then PositiveInfinity else NegativeInfinity
  }

  /** The history of one poll of one sample, as old as the dwell is long. */
  function Spike(rule: Rule, maxAge: int): seq<Poll>
    requires IsRule(rule)
  {
    [Poll(rule, Series([Point(0, BreachingValue(rule.comparator))]), rule.forDuration, maxAge)]
  }

  lemma SpikeFires(host: HostId, rule: Rule, maxAge: int)
    requires IsRule(rule) && rule.enabled && Matches(rule.selector, host) && rule.forDuration <= maxAge
    ensures FiresOnOneSample(host, Spike(rule, maxAge), rule, maxAge)
  {
    var p := Spike(rule, maxAge)[0];
    assert p.series.points[..0] == [];
    assert Sample(p) == Some(Point(0, BreachingValue(rule.comparator)));
    assert IsBreach(host, p);
    assert RunStart(host, Spike(rule, maxAge)) == 0;
  }

  /** The bound is sharp: a rule in force can fire on a single sample exactly when its dwell is no longer than
      the age a sample may have. */
  lemma SpikeCanFireIff(host: HostId, rule: Rule, maxAge: int)
    requires IsRule(rule) && rule.enabled && Matches(rule.selector, host)
    ensures (exists polls :: FiresOnOneSample(host, polls, rule, maxAge)) <==> rule.forDuration <= maxAge
  {
    hide FiresOnOneSample;
    if rule.forDuration <= maxAge {
      SpikeFires(host, rule, maxAge);
    } else {
      forall polls ensures !FiresOnOneSample(host, polls, rule, maxAge) {
        LongDwellNeedsASecondSample(host, polls, rule, maxAge);
      }
    }
  }
}
